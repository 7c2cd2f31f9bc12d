/** The schedule record, the order of its (date, time) keys, and `re_align`, the in-place sort. */
module ScheduleSort {
  import opened Text

  datatype Schedule = Schedule(date: string, name: string, time: string)

  /** A zero-initialised record. */
  const ZERO := Schedule("", "", "")

  predicate KeyLe(x: Schedule, y: Schedule) {
    Le(x.date, y.date) && (x.date == y.date ==> Le(x.time, y.time))
  }

  ghost predicate Sorted(s: seq<Schedule>) {
    forall i, j :: 0 <= i < j < |s| ==> KeyLe(s[i], s[j])
  }

  /** `date` is not the greatest date of the records: a cell with it stops `re_align`'s unbounded inner loop. */
  ghost predicate Sentinel(records: multiset<Schedule>, date: string) {
    forall r <- records :: r.date == date ==> exists q :: q in records && !Le(q.date, date)
  }

  /** Reordered: out holds the records of ms, in key order. */
  ghost predicate SortOf(ms: multiset<Schedule>, out: seq<Schedule>) {
    multiset(out) == ms && Sorted(out)
  }

  function Swapped(s: seq<Schedule>, i: nat, j: nat): (r: seq<Schedule>)
    requires i < |s| && j < |s|
    ensures |r| == |s| && multiset(r) == multiset(s)
  {
    s[i := s[j]][j := s[i]]
  }

  function Without(s: seq<Schedule>, i: nat): seq<Schedule>
    requires i < |s|
  {
    s[..i] + s[i + 1..]
  }

  lemma WithoutMultiset(s: seq<Schedule>, i: nat)
    requires i < |s|
    ensures multiset(s) == multiset(Without(s, i)) + multiset{s[i]}
  {
    assert s == s[..i] + ([s[i]] + s[i + 1..]);
  }

  lemma SameRest(s: seq<Schedule>, t: seq<Schedule>, i: nat)
    requires multiset(s) == multiset(t) && s != [] && i < |t| && t[i] == s[0]
    ensures multiset(s[1..]) == multiset(Without(t, i))
  {
    WithoutMultiset(t, i);
    assert s == [s[0]] + s[1..];
    assert multiset(s[1..]) == multiset(s) - multiset{s[0]};
  }

  method Swap(a: array<Schedule>, i: nat, j: nat, ghost n: nat)
    requires i < n && j < n && n <= a.Length
    modifies a
    ensures a[..n] == Swapped(old(a[..n]), i, j) && a[n..] == old(a[n..])
  {
    var tmp := a[i];
    a[i] := a[j];
    a[j] := tmp;
    assert a[..n] == Swapped(old(a[..n]), i, j);
  }

  // ----- what the two loop nests compute -----

  function DateStepped(s: seq<Schedule>, i: nat, j: nat): (r: seq<Schedule>)
    requires i < |s| && j < |s|
    ensures |r| == |s| && multiset(r) == multiset(s)
  {
    if StrCmp(s[i].date, s[j].date) > 0 then Swapped(s, i, j) else s
  }

  /** The first phase's inner loop, from j on. */
  function DatePass(s: seq<Schedule>, i: nat, j: nat): (r: seq<Schedule>)
    requires i < |s|
    ensures |r| == |s| && multiset(r) == multiset(s)
    decreases |s| - j
  {
    if j < |s| then DatePass(DateStepped(s, i, j), i, j + 1) else s
  }

  function DatePhase(s: seq<Schedule>, i: nat): (r: seq<Schedule>)
    ensures |r| == |s| && multiset(r) == multiset(s)
    decreases |s| - i
  {
    if i < |s| then DatePhase(DatePass(s, i, i + 1), i + 1) else s
  }

  function TimeStepped(s: seq<Schedule>, i: nat, j: nat): (r: seq<Schedule>)
    requires i < |s| && j < |s|
    ensures |r| == |s| && multiset(r) == multiset(s)
  {
    if StrCmp(s[i].time, s[j].time) > 0 then Swapped(s, i, j) else s
  }

  /** The second phase's inner loop, from j on: the sentinel behind the records ends the last run. */
  function TimePass(s: seq<Schedule>, i: nat, j: nat): (r: seq<Schedule>)
    requires i < |s|
    ensures |r| == |s| && multiset(r) == multiset(s)
    decreases |s| - j
  {
    if j < |s| && s[i].date == s[j].date then TimePass(TimeStepped(s, i, j), i, j + 1) else s
  }

  function TimePhase(s: seq<Schedule>, i: nat): (r: seq<Schedule>)
    ensures |r| == |s| && multiset(r) == multiset(s)
    decreases |s| - i
  {
    if i < |s| then TimePhase(TimePass(s, i, i + 1), i + 1) else s
  }

  /** The very list `re_align` leaves, records with equal keys included. */
  function Realigned(s: seq<Schedule>): seq<Schedule> { TimePhase(DatePhase(s, 0), 0) }

  // ----- the first phase sorts by date alone -----

  /** Positions below i hold the least dates, in order. */
  ghost predicate DatesPlaced(s: seq<Schedule>, i: int) {
    forall p, q :: 0 <= p < i && p < q < |s| ==> Le(s[p].date, s[q].date)
  }

  /** Position i holds the least date of i..j. */
  ghost predicate LeastDate(s: seq<Schedule>, i: nat, j: int) {
    i < |s| && forall q :: i < q < j && q < |s| ==> Le(s[i].date, s[q].date)
  }

  lemma LeBelow(x: string, y: string)
    requires StrCmp(y, x) > 0
    ensures Le(x, y) && forall z: string :: Le(y, z) ==> Le(x, z)
  {
    CmpSwap(x, y);
    forall z: string | Le(y, z) ensures Le(x, z) { LeTrans(x, y, z); }
  }

  lemma DateStep(s: seq<Schedule>, i: nat, j: nat)
    requires i < j < |s| && DatesPlaced(s, i) && LeastDate(s, i, j)
    ensures DatesPlaced(DateStepped(s, i, j), i) && LeastDate(DateStepped(s, i, j), i, j + 1)
  {
    if StrCmp(s[i].date, s[j].date) > 0 {
      LeBelow(s[j].date, s[i].date);
    } else {
      assert Le(s[i].date, s[j].date);
    }
  }

  lemma {:induction false} DatePassPlaces(s: seq<Schedule>, i: nat, j: nat)
    requires i < j <= |s| && DatesPlaced(s, i) && LeastDate(s, i, j)
    ensures DatesPlaced(DatePass(s, i, j), i + 1)
    decreases |s| - j
  {
    hide DateStepped;
    if j < |s| {
      DateStep(s, i, j);
      DatePassPlaces(DateStepped(s, i, j), i, j + 1);
    }
  }

  lemma {:induction false} DatePhaseSorts(s: seq<Schedule>, i: nat)
    requires i <= |s| && DatesPlaced(s, i)
    ensures DatesPlaced(DatePhase(s, i), |s|)
    decreases |s| - i
  {
    hide DatesPlaced, DatePass;
    if i < |s| {
      assert LeastDate(s, i, i + 1);
      DatePassPlaces(s, i, i + 1);
      DatePhaseSorts(DatePass(s, i, i + 1), i + 1);
    }
  }

  // ----- the second phase sorts each run of equal dates by time -----

  /** Below i, every record is no later than the records of its date behind it. */
  ghost predicate TimesPlaced(s: seq<Schedule>, i: int) {
    forall p, q :: 0 <= p < i && p < q < |s| && s[p].date == s[q].date ==> Le(s[p].time, s[q].time)
  }

  /** The records i..j have one date, and the one at i has the least time. */
  ghost predicate LeastTime(s: seq<Schedule>, i: nat, j: int) {
    i < |s| && forall q :: i < q < j && q < |s| ==> s[q].date == s[i].date && Le(s[i].time, s[q].time)
  }

  /** The inner loop's state: j is next to compare with i, and the last record has date `last`. */
  ghost predicate Placing(s: seq<Schedule>, i: nat, j: nat, last: string) {
    && i < j <= |s| && DatesPlaced(s, |s|) && TimesPlaced(s, i) && LeastTime(s, i, j)
    && s[|s| - 1].date == last
  }

  lemma TimeStep(s: seq<Schedule>, i: nat, j: nat, last: string)
    requires Placing(s, i, j, last) && j < |s| && s[i].date == s[j].date
    ensures Placing(TimeStepped(s, i, j), i, j + 1, last)
  {
    if StrCmp(s[i].time, s[j].time) > 0 {
      LeBelow(s[j].time, s[i].time);
      var t := Swapped(s, i, j);
      assert forall k :: 0 <= k < |s| ==> t[k].date == s[k].date;
    } else {
      assert Le(s[i].time, s[j].time);
    }
  }

  lemma OneIsLeast(s: seq<Schedule>, i: nat)
    requires i < |s|
    ensures LeastTime(s, i, i + 1)
  {
  }

  lemma RunEndsAtSentinel(s: seq<Schedule>, i: nat, last: string)
    requires Placing(s, i, |s|, last)
    ensures s[i].date == last
  {
  }

  lemma TimeDone(s: seq<Schedule>, i: nat, j: nat, last: string)
    requires Placing(s, i, j, last)
    requires j < |s| ==> s[i].date != s[j].date
    ensures TimesPlaced(s, i + 1)
  {
    forall q | j <= q < |s| ensures s[q].date != s[i].date {
      if s[q].date == s[i].date { LeAntisym(s[i].date, s[j].date); }
    }
  }

  lemma {:induction false} TimePassPlaces(s: seq<Schedule>, i: nat, j: nat, last: string)
    requires Placing(s, i, j, last)
    ensures var r := TimePass(s, i, j); DatesPlaced(r, |r|) && TimesPlaced(r, i + 1) && r[|r| - 1].date == last
    decreases |s| - j
  {
    hide TimeStepped;
    if j < |s| && s[i].date == s[j].date {
      TimeStep(s, i, j, last);
      TimePassPlaces(TimeStepped(s, i, j), i, j + 1, last);
    } else {
      TimeDone(s, i, j, last);
    }
  }

  lemma {:induction false} TimePhaseSorts(s: seq<Schedule>, i: nat)
    requires i <= |s| && DatesPlaced(s, |s|) && TimesPlaced(s, i)
    ensures Sorted(TimePhase(s, i))
    decreases |s| - i
  {
    hide TimePass;
    if i < |s| {
      TimePassPlaces(s, i, i + 1, s[|s| - 1].date);
      TimePhaseSorts(TimePass(s, i, i + 1), i + 1);
    }
  }

  /** The list `re_align` leaves is a sorted permutation. */
  lemma RealignedSorts(s: seq<Schedule>)
    ensures SortOf(multiset(s), Realigned(s))
  {
    hide DatePhase, TimePhase;
    DatePhaseSorts(s, 0);
    TimePhaseSorts(DatePhase(s, 0), 0);
  }

  // ----- a sorted list stays as it is, records with equal keys included -----

  lemma {:induction false} DatePassStays(s: seq<Schedule>, i: nat, j: nat)
    requires i < j <= |s| && DatesPlaced(s, |s|)
    ensures DatePass(s, i, j) == s
    decreases |s| - j
  {
    if j < |s| {
      assert Le(s[i].date, s[j].date);
      DatePassStays(s, i, j + 1);
    }
  }

  lemma {:induction false} DatePhaseStays(s: seq<Schedule>, i: nat)
    requires DatesPlaced(s, |s|)
    ensures DatePhase(s, i) == s
    decreases |s| - i
  {
    hide DatePass;
    if i < |s| {
      DatePassStays(s, i, i + 1);
      DatePhaseStays(s, i + 1);
    }
  }

  lemma {:induction false} TimePassStays(s: seq<Schedule>, i: nat, j: nat)
    requires i < j <= |s| && Sorted(s)
    ensures TimePass(s, i, j) == s
    decreases |s| - j
  {
    if j < |s| && s[i].date == s[j].date {
      assert KeyLe(s[i], s[j]);
      TimePassStays(s, i, j + 1);
    }
  }

  lemma {:induction false} TimePhaseStays(s: seq<Schedule>, i: nat)
    requires Sorted(s)
    ensures TimePhase(s, i) == s
    decreases |s| - i
  {
    hide TimePass;
    if i < |s| {
      TimePassStays(s, i, i + 1);
      TimePhaseStays(s, i + 1);
    }
  }

  /** `re_align` leaves a list alone exactly when it is sorted already. */
  lemma RealignedStaysIff(s: seq<Schedule>)
    ensures Realigned(s) == s <==> Sorted(s)
  {
    hide DatePhase, TimePhase;
    RealignedSorts(s);
    if Sorted(s) {
      DatePhaseStays(s, 0);
      TimePhaseStays(s, 0);
    }
  }

  /** Equal keys may trade places: the swap that brings an earlier record to the front carries one past the other. */
  lemma TiesCanTurn(x: Schedule, y: Schedule, z: Schedule)
    requires x.date == y.date && x.time == y.time
    requires StrCmp(z.date, x.date) < 0 || (z.date == x.date && StrCmp(z.time, x.time) < 0)
    ensures Realigned([x, y, z]) == [z, y, x]
  {
    hide StrCmp, DatePhase, TimePhase;
    var s, t := [x, y, z], [z, y, x];
    CmpZero(x.date, x.date);
    CmpZero(x.time, x.time);
    CmpSwap(z.date, x.date);
    CmpSwap(z.time, x.time);
    assert Swapped(s, 0, 2) == t;
    TurnedIsSorted(x, y, z);
    TimePhaseStays(t, 0);
    TimePhaseStays(t, 1);
    if z.date == x.date {
      DatePhaseStays(s, 0);
      TurnedByTime(s);
    } else {
      DatePhaseStays(t, 1);
      TurnedByDate(s);
    }
  }

  lemma TurnedIsSorted(x: Schedule, y: Schedule, z: Schedule)
    requires x.date == y.date && x.time == y.time
    requires StrCmp(z.date, x.date) < 0 || (z.date == x.date && StrCmp(z.time, x.time) < 0)
    ensures Sorted([z, y, x]) && DatesPlaced([z, y, x], 3) && (z.date == x.date ==> DatesPlaced([x, y, z], 3))
  {
    hide StrCmp;
    CmpZero(x.date, x.date);
    CmpZero(x.time, x.time);
  }

  lemma TurnedByDate(s: seq<Schedule>)
    requires |s| == 3 && StrCmp(s[0].date, s[1].date) == 0 && StrCmp(s[0].date, s[2].date) > 0
    ensures DatePhase(s, 0) == DatePhase(Swapped(s, 0, 2), 1)
  {
    hide StrCmp;
    var t := Swapped(s, 0, 2);
    assert DatePass(s, 0, 1) == DatePass(s, 0, 2);
    assert DatePass(s, 0, 2) == DatePass(t, 0, 3) == t;
  }

  lemma TurnedByTime(s: seq<Schedule>)
    requires |s| == 3 && s[0].date == s[1].date == s[2].date
    requires StrCmp(s[0].time, s[1].time) == 0 && StrCmp(s[0].time, s[2].time) > 0
    ensures TimePhase(s, 0) == TimePhase(Swapped(s, 0, 2), 1)
  {
    hide StrCmp;
    var t := Swapped(s, 0, 2);
    assert TimePass(s, 0, 1) == TimePass(s, 0, 2);
    assert TimePass(s, 0, 2) == TimePass(t, 0, 3) == t;
  }

  // ----- the program -----

  method CompareDates(a: array<Schedule>, i: nat, j: nat, n: nat)
    requires i < n && j < n && n <= a.Length
    modifies a
    ensures a[..n] == DateStepped(old(a[..n]), i, j) && a[n..] == old(a[n..])
  {
    if StrCmp(a[i].date, a[j].date) > 0 {
      Swap(a, i, j, n);
    }
  }

  method PlaceDate(a: array<Schedule>, i: nat, n: nat)
    requires i < n <= a.Length && DatesPlaced(a[..n], i)
    modifies a
    ensures a[..n] == DatePass(old(a[..n]), i, i + 1) && a[n..] == old(a[n..])
    ensures DatesPlaced(a[..n], i + 1)
  {
    hide DateStepped;
    assert LeastDate(a[..n], i, i + 1);
    DatePassPlaces(a[..n], i, i + 1);
    for j := i + 1 to n
      invariant DatePass(a[..n], i, j) == DatePass(old(a[..n]), i, i + 1) && a[n..] == old(a[n..])
    {
      CompareDates(a, i, j, n);
    }
  }

  /** The first loop nest. */
  method SortByDate(a: array<Schedule>, n: nat)
    requires n <= a.Length
    modifies a
    ensures a[..n] == DatePhase(old(a[..n]), 0) && a[n..] == old(a[n..])
    ensures DatesPlaced(a[..n], n)
  {
    hide DatePass;
    for i := 0 to n
      invariant DatePhase(a[..n], i) == DatePhase(old(a[..n]), 0) && a[n..] == old(a[n..])
      invariant DatesPlaced(a[..n], i)
    {
      PlaceDate(a, i, n);
    }
  }

  method CompareTimes(a: array<Schedule>, i: nat, j: nat, n: nat)
    requires i < n && j < n && n <= a.Length
    modifies a
    ensures a[..n] == TimeStepped(old(a[..n]), i, j) && a[n..] == old(a[n..])
  {
    if StrCmp(a[i].time, a[j].time) > 0 {
      Swap(a, i, j, n);
    }
  }

  /** The inner loop of the source has no bound; the sentinel ends the last run at n. */
  method PlaceTime(a: array<Schedule>, i: nat, n: nat)
    requires i < n < a.Length && a[n - 1].date != a[n].date
    requires DatesPlaced(a[..n], n) && TimesPlaced(a[..n], i)
    modifies a
    ensures a[..n] == TimePass(old(a[..n]), i, i + 1) && a[n..] == old(a[n..])
    ensures DatesPlaced(a[..n], n) && TimesPlaced(a[..n], i + 1)
    ensures a[n - 1].date == old(a[n - 1].date)
  {
    hide TimeStepped, DatesPlaced, TimesPlaced, LeastTime;
    ghost var last, next := a[n - 1].date, a[n].date;
    assert LeastTime(a[..n], i, i + 1) by { OneIsLeast(a[..n], i); }
    TimePassPlaces(a[..n], i, i + 1, last);
    var j := i + 1;
    while a[i].date == a[j].date
      invariant i < j <= n
      invariant TimePass(a[..n], i, j) == TimePass(old(a[..n]), i, i + 1) && a[n..] == old(a[n..])
      invariant Placing(a[..n], i, j, last)
      invariant a[n].date == next
      decreases n - j
    {
      if j == n { RunEndsAtSentinel(a[..n], i, last); }
      TimeStep(a[..n], i, j, last);
      CompareTimes(a, i, j, n);
      assert a[n] == a[n..][0];
      j := j + 1;
    }
  }

  /** The second loop nest. */
  method SortTimes(a: array<Schedule>, n: nat)
    requires n > 0 ==> n < a.Length && a[n - 1].date != a[n].date
    requires n <= a.Length && DatesPlaced(a[..n], n)
    modifies a
    ensures a[..n] == TimePhase(old(a[..n]), 0) && a[n..] == old(a[n..])
    ensures Sorted(a[..n])
  {
    hide TimePass;
    TimePhaseSorts(a[..n], 0);
    for i := 0 to n
      invariant TimePhase(a[..n], i) == TimePhase(old(a[..n]), 0) && a[n..] == old(a[n..])
      invariant DatesPlaced(a[..n], n) && TimesPlaced(a[..n], i)
      invariant n > 0 ==> a[n - 1].date == old(a[n - 1].date)
    {
      assert a[n] == a[n..][0] == old(a[n..])[0];
      PlaceTime(a, i, n);
    }
  }

  /** `re_align(a, n)` */
  method ReAlign(a: array<Schedule>, n: nat)
    requires n <= a.Length && (n > 0 ==> n < a.Length)
    requires n > 0 ==> Sentinel(multiset(a[..n]), a[n].date)
    modifies a
    ensures a[..n] == Realigned(old(a[..n])) && a[n..] == old(a[n..])
    ensures SortOf(multiset(old(a[..n])), a[..n])
    ensures Sorted(old(a[..n])) ==> a[..n] == old(a[..n])
  {
    hide DatePhase, TimePhase, Sorted;
    RealignedSorts(a[..n]);
    RealignedStaysIff(a[..n]);
    SortByDate(a, n);
    if n > 0 {
      assert a[n] == a[n..][0] == old(a[n..])[0];
      LastIsGreatest(a[..n], a[n].date);
    }
    SortTimes(a, n);
  }

  lemma LastIsGreatest(s: seq<Schedule>, date: string)
    requires s != [] && DatesPlaced(s, |s|) && Sentinel(multiset(s), date)
    ensures s[|s| - 1].date != date
  {
    assert s[|s| - 1] in multiset(s);
    if s[|s| - 1].date == date {
      var q :| q in multiset(s) && !Le(q.date, date);
      var k :| 0 <= k < |s| && s[k] == q;
      CmpZero(date, date);
      assert false;
    }
  }
}
