/** The study-time accumulator: three globals that the sampling loop and a signal handler both update. */
module StudyTime {

  datatype Globals = Globals(totalSec: int, tvStart: int, tvEnd: int)

  /** The atomic updates. `Query` is one run of the handler, which reads the clock twice. */
  datatype Event =
    | TurnOn(now: int)                      // the ON branch
    | MarkEnd(now: int)                     // first statement of the OFF branch
    | AddSession                            // second statement of the OFF branch
    | Query(first: int, second: int)        // sigusr1_handler

  const START := Globals(0, 0, 0)

  function Apply(g: Globals, e: Event): Globals {
    match e
    case TurnOn(now) => g.(tvStart := now)
    case MarkEnd(now) => g.(tvEnd := now)
    case AddSession => g.(totalSec := g.totalSec + (g.tvEnd - g.tvStart))
    case Query(first, second) => Globals(g.totalSec + (first - g.tvStart), second, first)
  }

  /** C's division truncates toward zero. */
  function Minutes(g: Globals): (m: int)
    ensures g.totalSec >= 0 ==> 60 * m <= g.totalSec < 60 * m + 60
    ensures g.totalSec <= 0 ==> 60 * m - 60 < g.totalSec <= 60 * m
  {
    if g.totalSec >= 0 then g.totalSec / 60 else -(-g.totalSec / 60)
  }

  class Timer {
    var totalSec: int
    var tvStart: int
    var tvEnd: int

    function State(): Globals
      reads this
    {
      Globals(totalSec, tvStart, tvEnd)
    }

    constructor ()
      ensures State() == START
    {
      totalSec, tvStart, tvEnd := 0, 0, 0;
    }

    method StartSession(now: int)
      modifies this
      ensures State() == Apply(old(State()), TurnOn(now))
    {
      tvStart := now;
    }

    /** The OFF branch, with any handler runs that fall between its two statements. */
    method StopSession(now: int, between: seq<Event>)
      requires forall i :: 0 <= i < |between| ==> between[i].Query?
      modifies this
      ensures State() == Run(old(State()), [MarkEnd(now)] + between + [AddSession])
    {
      tvEnd := now;
      ghost var marked := State();
      for i := 0 to |between|
        invariant State() == Run(marked, between[..i])
      {
        RunAppend(marked, between[..i], between[i]);
        assert between[..i + 1] == between[..i] + [between[i]];
        var minutes := Sigusr1Handler(between[i].first, between[i].second);
      }
      assert between[..|between|] == between;
      RunAppend(marked, between, AddSession);
      assert ([MarkEnd(now)] + between + [AddSession])[1..] == between + [AddSession];
      totalSec := totalSec + (tvEnd - tvStart);
    }

    method Sigusr1Handler(first: int, second: int) returns (minutes: int)
      modifies this
      ensures State() == Apply(old(State()), Query(first, second)) && minutes == Minutes(State())
      ensures totalSec == old(totalSec) + (first - old(tvStart))
      ensures totalSec >= 0 ==> 60 * minutes <= totalSec < 60 * minutes + 60
      ensures totalSec <= 0 ==> 60 * minutes - 60 < totalSec <= 60 * minutes
    {
      tvEnd := first;
      totalSec := totalSec + (tvEnd - tvStart);
      tvStart := second;
      minutes := Minutes(State());
    }
  }

  function Run(g: Globals, events: seq<Event>): Globals
    decreases |events|
  {
    if events == [] then g else Run(Apply(g, events[0]), events[1..])
  }

  lemma {:induction false} RunAppend(g: Globals, events: seq<Event>, e: Event)
    ensures Run(g, events + [e]) == Apply(Run(g, events), e)
    decreases |events|
  {
    if events == [] {
      assert events + [e] == [e];
    } else {
      assert (events + [e])[1..] == events[1..] + [e];
      RunAppend(Apply(g, events[0]), events[1..], e);
    }
  }

  // ----- which runs there are -----

  datatype Phase = Away | Studying | Leaving

  /** The sensor loop turns on only when away and off only when studying; the handler may run at any time. */
  predicate Allowed(phase: Phase, e: Event) {
    match e
    case TurnOn(_) => phase == Away
    case MarkEnd(_) => phase == Studying
    case AddSession => phase == Leaving
    case Query(_, _) => true
  }

  function After(phase: Phase, e: Event): Phase {
    match e
    case TurnOn(_) => Studying
    case MarkEnd(_) => Leaving
    case AddSession => Away
    case Query(_, _) => phase
  }

  predicate Legal(phase: Phase, events: seq<Event>)
    decreases |events|
  {
    events != [] ==> Allowed(phase, events[0]) && Legal(After(phase, events[0]), events[1..])
  }

  /** The latest reading of the clock, after e. */
  function Reading(now: int, e: Event): int {
    match e
    case TurnOn(t) => t
    case MarkEnd(t) => t
    case AddSession => now
    case Query(_, second) => second
  }

  predicate InOrder(now: int, e: Event) {
    now <= Reading(now, e) && (e.Query? ==> now <= e.first <= e.second)
  }

  /** No reading of the clock lies before an earlier one. */
  predicate Timeline(now: int, events: seq<Event>)
    decreases |events|
  {
    events != [] ==> InOrder(now, events[0]) && Timeline(Reading(now, events[0]), events[1..])
  }

  // ----- the ledger: what the seconds were really spent on -----

  /** Kept from the events alone. A session runs from the ON reading to the OFF reading, and `completed` is the sum of
      the finished ones. `lost`: ticks between the two readings of one handler run. `away`: seconds a handler run counts
      while nobody is studying. `late`: seconds between the OFF reading and a handler run that comes before the session
      is added. `since` is the latest ON reading or second handler reading, `end` the latest OFF reading or first
      handler reading. */
  datatype Ledger = Ledger(phase: Phase, sessionStart: int, since: int, end: int,
                           completed: int, lost: int, away: int, late: int)

  const EMPTY := Ledger(Away, 0, 0, 0, 0, 0, 0, 0)

  function Book(l: Ledger, e: Event): Ledger {
    var l' := l.(phase := After(l.phase, e));
    match e
    case TurnOn(now) => l'.(sessionStart := now, since := now)
    case MarkEnd(now) => l'.(end := now, completed := l.completed + (now - l.sessionStart))
    case AddSession => l'
    case Query(first, second) =>
      var q := l'.(since := second, end := first);
      match l.phase
      case Away => q.(away := l.away + (first - l.since))
      case Studying => q.(lost := l.lost + (second - first))
      case Leaving => q.(lost := l.lost + (second - first), late := l.late + (first - l.end))
  }

  function Books(l: Ledger, events: seq<Event>): Ledger
    decreases |events|
  {
    if events == [] then l else Books(Book(l, events[0]), events[1..])
  }

  /** What the total holds of the session under way, or, while leaving, holds already beyond what will be added. */
  function Pending(l: Ledger): int {
    match l.phase
    case Away => 0
    case Studying => l.since - l.sessionStart
    case Leaving => l.since - l.end
  }

  ghost predicate Balanced(g: Globals, l: Ledger) {
    && g.tvStart == l.since && (l.phase == Leaving ==> g.tvEnd == l.end)
    && g.totalSec == l.completed + Pending(l) - l.lost + l.away + l.late
  }

  lemma {:induction false} Conservation(g: Globals, l: Ledger, events: seq<Event>)
    requires Balanced(g, l) && Legal(l.phase, events)
    ensures Balanced(Run(g, events), Books(l, events))
    decreases |events|
  {
    if events != [] { Conservation(Apply(g, events[0]), Book(l, events[0]), events[1..]); }
  }

  /** The handler's two readings agree; it runs only while somebody is studying, or between the OFF statements in the
      very second of the OFF reading. */
  predicate Clean(l: Ledger, events: seq<Event>)
    decreases |events|
  {
    events != [] ==>
      && (events[0].Query? ==> l.phase != Away && events[0].first == events[0].second)
      && (events[0].Query? && l.phase == Leaving ==> events[0].first == l.end)
      && Clean(Book(l, events[0]), events[1..])
  }

  lemma {:induction false} CleanLosesNothing(l: Ledger, events: seq<Event>)
    requires Clean(l, events)
    ensures var m := Books(l, events); m.lost == l.lost && m.away == l.away && m.late == l.late
    decreases |events|
  {
    if events != [] { CleanLosesNothing(Book(l, events[0]), events[1..]); }
  }

  /** Under a monotone clock no column ever shrinks. */
  lemma {:induction false} ColumnsGrow(l: Ledger, now: int, events: seq<Event>)
    requires Timeline(now, events) && l.since <= now && l.end <= now
    ensures var m := Books(l, events); m.lost >= l.lost && m.away >= l.away && m.late >= l.late
    decreases |events|
  {
    if events != [] { ColumnsGrow(Book(l, events[0]), Reading(now, events[0]), events[1..]); }
  }

  /** Over every legal run, once no OFF is half done, the total is the sum of the finished sessions plus the part of the
      current one up to the last query, exactly when the lost seconds equal those counted while away and those counted
      late. A clean run has none of the three. */
  lemma TotalIsStudyTimeIff(events: seq<Event>)
    requires Legal(Away, events)
    ensures var g, l := Run(START, events), Books(EMPTY, events);
      && (l.phase == Away ==> (g.totalSec == l.completed <==> l.lost == l.away + l.late))
      && (l.phase == Studying ==>
            (g.totalSec == l.completed + (g.tvStart - l.sessionStart) <==> l.lost == l.away + l.late))
      && (Clean(EMPTY, events) ==> l.lost == l.away == l.late == 0)
  {
    Conservation(START, EMPTY, events);
    if Clean(EMPTY, events) { CleanLosesNothing(EMPTY, events); }
  }

  /** The handler runs only while somebody is studying. */
  predicate OnlyWhileStudying(phase: Phase, events: seq<Event>)
    decreases |events|
  {
    events != [] ==>
      && (events[0].Query? ==> phase == Studying)
      && OnlyWhileStudying(After(phase, events[0]), events[1..])
  }

  predicate ReadingsAgree(events: seq<Event>) {
    forall i :: 0 <= i < |events| && events[i].Query? ==> events[i].first == events[i].second
  }

  lemma {:induction false} LostIffReadingsDiffer(l: Ledger, now: int, events: seq<Event>)
    requires Timeline(now, events) && OnlyWhileStudying(l.phase, events)
    ensures var m := Books(l, events);
      && m.away == l.away && m.late == l.late && m.lost >= l.lost
      && (m.lost == l.lost <==> ReadingsAgree(events))
    decreases |events|
  {
    if events != [] {
      LostIffReadingsDiffer(Book(l, events[0]), Reading(now, events[0]), events[1..]);
      AgreeSplits(events);
    }
  }

  lemma AgreeSplits(events: seq<Event>)
    requires events != []
    ensures ReadingsAgree(events) <==>
      (events[0].Query? ==> events[0].first == events[0].second) && ReadingsAgree(events[1..])
  {
    var rest := events[1..];
    assert forall i :: 0 < i < |events| ==> events[i] == rest[i - 1];
    if ReadingsAgree(events) {
      forall i | 0 <= i < |rest| && rest[i].Query? ensures rest[i].first == rest[i].second {
        assert rest[i] == events[i + 1];
      }
    }
  }

  /** As the desk is used, with queries only while somebody is studying: after any number of sessions the total is the
      time between ON and OFF readings if and only if no handler run saw the second tick over. Otherwise it is less. */
  lemma StudiedQueriesExactIff(events: seq<Event>)
    requires Legal(Away, events) && Timeline(0, events) && OnlyWhileStudying(Away, events)
    ensures var g, l := Run(START, events), Books(EMPTY, events);
      && (l.phase == Away ==> g.totalSec <= l.completed && (g.totalSec == l.completed <==> ReadingsAgree(events)))
      && (l.phase == Studying ==>
            var studied := l.completed + (g.tvStart - l.sessionStart);
            g.totalSec <= studied && (g.totalSec == studied <==> ReadingsAgree(events)))
  {
    hide Run, Books, Legal, Timeline, OnlyWhileStudying, ReadingsAgree;
    Conservation(START, EMPTY, events);
    LostIffReadingsDiffer(EMPTY, 0, events);
  }

  /** The handler does not run while nobody is studying. */
  predicate NeverAway(phase: Phase, events: seq<Event>)
    decreases |events|
  {
    events != [] ==> (events[0].Query? ==> phase != Away) && NeverAway(After(phase, events[0]), events[1..])
  }

  /** Between the OFF statements the handler reads the very second of the OFF reading; `off` is the latest one. */
  predicate OnTheSecond(phase: Phase, off: int, events: seq<Event>)
    decreases |events|
  {
    events != [] ==>
      && (events[0].Query? && phase == Leaving ==> events[0].first == off)
      && OnTheSecond(After(phase, events[0]), if events[0].MarkEnd? then events[0].now else off, events[1..])
  }

  lemma {:induction false} LateIffAfterOff(l: Ledger, now: int, events: seq<Event>)
    requires Timeline(now, events) && Legal(l.phase, events) && l.since <= now && l.end <= now
    requires NeverAway(l.phase, events) && ReadingsAgree(events)
    ensures var m := Books(l, events);
      && m.lost == l.lost && m.away == l.away && m.late >= l.late
      && forall off :: (l.phase == Leaving ==> l.end == off) ==>
           (m.late == l.late <==> OnTheSecond(l.phase, off, events))
    decreases |events|
  {
    if events != [] {
      LateIffAfterOff(Book(l, events[0]), Reading(now, events[0]), events[1..]);
      AgreeSplits(events);
    }
  }

  /** With queries between the OFF statements as well: under a monotone clock, without queries while away and with
      agreeing readings, the total never falls short of the time between ON and OFF readings, and it is exact if and
      only if each query between the OFF statements comes in the second of the OFF reading. */
  lemma LateQueriesExactIff(events: seq<Event>)
    requires Legal(Away, events) && Timeline(0, events) && NeverAway(Away, events) && ReadingsAgree(events)
    ensures var g, l := Run(START, events), Books(EMPTY, events);
      && (l.phase == Away ==>
            g.totalSec >= l.completed && (g.totalSec == l.completed <==> OnTheSecond(Away, 0, events)))
      && (l.phase == Studying ==>
            var studied := l.completed + (g.tvStart - l.sessionStart);
            g.totalSec >= studied && (g.totalSec == studied <==> OnTheSecond(Away, 0, events)))
  {
    hide Run, Books, Legal, Timeline, NeverAway, OnTheSecond, ReadingsAgree;
    Conservation(START, EMPTY, events);
    LateIffAfterOff(EMPTY, 0, events);
  }

  /** A handler run between the OFF statements counts on: a session that ended after a minute is booked as two. */
  lemma LateQueryCounts(t: nat)
    ensures var events := [TurnOn(t), MarkEnd(t + 60), Query(t + 120, t + 120)];
      && Legal(Away, events) && Timeline(0, events)
      && Books(EMPTY, events).completed == 60 && Apply(Run(START, events), AddSession).totalSec == 120
  {
    hide Run, Legal, Timeline, Books;
    ThreeEvents(TurnOn(t), MarkEnd(t + 60), Query(t + 120, t + 120), START, Away, 0);
    ThreeBooks(TurnOn(t), MarkEnd(t + 60), Query(t + 120, t + 120), EMPTY);
  }

  lemma ThreeBooks(a: Event, b: Event, c: Event, l: Ledger)
    ensures Books(l, [a, b, c]) == Book(Book(Book(l, a), b), c)
  {
    assert [a, b, c][1..] == [b, c] && [b, c][1..] == [c];
    assert Books(Book(Book(l, a), b), [c]) == Book(Book(Book(l, a), b), c);
  }

  // ----- reported minutes -----

  /** Some step lowers the total. */
  predicate Drops(g: Globals, events: seq<Event>)
    decreases |events|
  {
    events != [] && (Apply(g, events[0]).totalSec < g.totalSec || Drops(Apply(g, events[0]), events[1..]))
  }

  predicate OvertakesAt(events: seq<Event>, k: int)
    requires 0 < k < |events|
  {
    events[k] == AddSession && events[k - 1].Query? && events[k - 1].first < events[k - 1].second
  }

  /** A handler run that saw the second tick over is directly followed by the second OFF statement. */
  predicate Overtaken(events: seq<Event>) {
    exists k :: 0 < k < |events| && OvertakesAt(events, k)
  }

  lemma {:induction false} DropsFrom(g: Globals, phase: Phase, now: int, events: seq<Event>)
    requires Legal(phase, events) && Timeline(now, events) && g.tvStart <= now && g.tvEnd <= now
    ensures Drops(g, events) <==> (events != [] && events[0] == AddSession && g.tvEnd < g.tvStart) || Overtaken(events)
    decreases |events|
  {
    if events != [] {
      var e, rest := events[0], events[1..];
      DropsFrom(Apply(g, e), After(phase, e), Reading(now, e), rest);
      OvertakenSplits(events);
      if rest != [] { assert Allowed(After(phase, e), rest[0]); }
    }
  }

  lemma OvertakenSplits(events: seq<Event>)
    requires events != []
    ensures Overtaken(events) <==>
      || (|events| > 1 && OvertakesAt(events, 1))
      || Overtaken(events[1..])
  {
    var rest := events[1..];
    if k :| 0 < k < |rest| && OvertakesAt(rest, k) { assert OvertakesAt(events, k + 1); }
    if k :| 1 < k < |events| && OvertakesAt(events, k) { assert OvertakesAt(rest, k - 1); }
    if |events| > 1 { assert OvertakesAt(events, 1) || !OvertakesAt(events, 1); }
  }

  /** In a legal run under a monotone clock some step lowers the total if and only if the second OFF statement directly
      follows a handler run that saw the second tick over. */
  lemma DropsIff(events: seq<Event>)
    requires Legal(Away, events) && Timeline(0, events)
    ensures Drops(START, events) <==> Overtaken(events)
  {
    DropsFrom(START, Away, 0, events);
  }

  lemma {:induction false} TotalGrows(g: Globals, events: seq<Event>, i: nat, j: nat)
    requires !Drops(g, events) && i <= j <= |events|
    ensures Run(g, events[..i]).totalSec <= Run(g, events[..j]).totalSec
    decreases |events|
  {
    if events != [] && j > 0 {
      var h := Apply(g, events[0]);
      assert events[..j][1..] == events[1..][..j - 1];
      if i > 0 {
        assert events[..i][1..] == events[1..][..i - 1];
        TotalGrows(h, events[1..], i - 1, j - 1);
      } else {
        TotalGrows(h, events[1..], 0, j - 1);
        assert events[1..][..0] == [] && events[..0] == [];
      }
    }
  }

  /** Without such a step no later report is below an earlier one. */
  lemma TotalNeverDrops(events: seq<Event>, i: nat, j: nat)
    requires Legal(Away, events) && Timeline(0, events) && !Overtaken(events) && i <= j <= |events|
    ensures Run(START, events[..i]).totalSec <= Run(START, events[..j]).totalSec
    ensures Minutes(Run(START, events[..i])) <= Minutes(Run(START, events[..j]))
  {
    DropsIff(events);
    TotalGrows(START, events, i, j);
    MinutesMonotone(Run(START, events[..i]), Run(START, events[..j]));
  }

  lemma MinutesMonotone(g: Globals, h: Globals)
    requires g.totalSec <= h.totalSec
    ensures Minutes(g) <= Minutes(h)
  {
  }

  /** Such a run: the handler runs between the two OFF statements and the second ticks over inside it. Asked again at
      the next ON, the program reports a minute less. */
  lemma MinutesCanDrop(t: nat)
    ensures var before := [TurnOn(t), MarkEnd(t + 60), Query(t + 60, t + 61)];
      var after := [AddSession, TurnOn(t + 61), Query(t + 61, t + 61)];
      && Legal(Away, before) && Timeline(0, before) && Legal(Leaving, after) && Timeline(t + 61, after)
      && Minutes(Run(START, before)) == 1 && Minutes(Run(Run(START, before), after)) == 0
  {
    hide Run, Legal, Timeline;
    ThreeEvents(TurnOn(t), MarkEnd(t + 60), Query(t + 60, t + 61), START, Away, 0);
    ThreeEvents(AddSession, TurnOn(t + 61), Query(t + 61, t + 61), Globals(60, t + 61, t + 60), Leaving, t + 61);
  }

  lemma ThreeEvents(a: Event, b: Event, c: Event, g: Globals, phase: Phase, now: int)
    ensures Run(g, [a, b, c]) == Apply(Apply(Apply(g, a), b), c)
    ensures Allowed(phase, a) && Allowed(After(phase, a), b) && Allowed(After(After(phase, a), b), c) ==>
      Legal(phase, [a, b, c])
    ensures InOrder(now, a) && InOrder(Reading(now, a), b) && InOrder(Reading(Reading(now, a), b), c) ==>
      Timeline(now, [a, b, c])
  {
    assert [a, b, c][1..] == [b, c] && [b, c][1..] == [c];
    var g1, phase1, now1 := Apply(g, a), After(phase, a), Reading(now, a);
    var g2, phase2, now2 := Apply(g1, b), After(phase1, b), Reading(now1, b);
    assert Run(g2, [c]) == Apply(g2, c) && Run(g1, [b, c]) == Run(g2, [c]);
    assert Legal(phase2, [c]) == Allowed(phase2, c);
    assert Legal(phase1, [b, c]) == (Allowed(phase1, b) && Legal(phase2, [c]));
    assert Timeline(now2, [c]) == InOrder(now2, c);
    assert Timeline(now1, [b, c]) == (InOrder(now1, b) && Timeline(now2, [c]));
  }
}
