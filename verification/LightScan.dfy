/** The light controller's own reading of the schedule file: one pass over the lines, with the clock read again at
    each line. */
module LightScan {
  import opened Text
  import opened ScheduleSort
  import opened ScheduleText
  import opened ScheduleQuery
  import opened ScheduleStore
  import opened ScheduleHistory

  lemma LineIsThreeWords(r: Schedule)
    requires Scannable(r)
    ensures Split(Line(r)) == [r.date, r.name, r.time]
  {
    hide Split;
    var pad1 := Spaces(6 - |r.date|);
    var pad2 := " " + Spaces(4 - |r.time|);
    var s2 := pad2 + r.time + "\n";
    var s1 := " " + r.name + s2;
    assert Line(r) == pad1 + r.date + s1;
    SplitOne(pad1, r.date, s1);
    SplitOne(" ", r.name, s2);
    SplitOne(pad2, r.time, "\n");
    SplitBlank("\n");
  }

  lemma LineIsOneLine(r: Schedule, rest: string)
    requires Scannable(r)
    ensures LineLen(Line(r) + rest) == |Line(r)|
  {
    hide LineLen;
    var line := PadLeft(r.date, 6) + " " + r.name + " " + PadLeft(r.time, 4);
    assert Line(r) + rest == line + "\n" + rest;
    LineLenIs(line, rest);
  }

  /** `readline` and `split` on what is left of a canonical file. */
  lemma ReadsFields(rs: seq<Schedule>, rest: string)
    requires AllRegistered(rs) && rest == Render(rs)
    ensures var n := LineLen(rest); var fields := Split(rest[..n]);
      if rs == [] then fields == []
      else
        && fields == [rs[0].date, rs[0].name, rs[0].time] && FieldsKey(fields) == Key(rs[0])
        && rest[n..] == Render(rs[1..])
  {
    hide LineLen, Split, Line;
    if rs == [] {
      SplitBlank("");
      assert rest[..LineLen(rest)] == "";
    } else {
      LineIsThreeWords(rs[0]);
      LineIsOneLine(rs[0], Render(rs[1..]));
      assert rest[..|Line(rs[0])|] == Line(rs[0]);
    }
  }

  /** Python's key is the first word and the third one, joined. */
  function FieldsKey(fields: seq<string>): string
    requires |fields| >= 3
  {
    fields[0] + fields[2]
  }

  /** The clock samples, one for each line read, never going back. */
  ghost predicate Monotone(clock: seq<string>) {
    forall i, j :: 0 <= i <= j < |clock| ==> Le(clock[i], clock[j])
  }

  /** The scan of `handle_user_input` over a canonical file: the subject it asks the brightness for, which line that
      subject stands on, and how many clock samples it took. */
  method ChooseSubject(file: string, clock: seq<string>, ghost rs: seq<Schedule>)
    returns (subject: string, ghost chosen: nat, samples: nat)
    requires Canonical(file, rs) && |rs| <= |clock|
    ensures samples <= |rs| && (rs == [] ==> subject == "0" && samples == 0)
    ensures rs != [] ==> samples > 0 && chosen < |rs| && subject == rs[chosen].name
    ensures rs != [] ==> Chosen(rs, clock, chosen, samples)
  {
    hide LineLen, Split, Render, Key, FieldsKey, Chosen, Registered;
    var rest := file;
    var prev: seq<string> := [];   // the previous line's words; none yet stands for "0000000000"
    var alreadyExist := false;
    chosen, samples, subject := 0, 0, "0";
    while !alreadyExist
      invariant samples <= |rs| && (samples == 0 ==> subject == "0" && !alreadyExist)
      invariant !alreadyExist ==> rest == Render(rs[samples..]) && |prev| == (if samples == 0 then 0 else 3)
      invariant !alreadyExist && samples > 0 ==> prev[1] == rs[samples - 1].name
      invariant !alreadyExist ==> forall k :: 1 <= k < samples ==> Le(Key(rs[k]), clock[k])
      invariant alreadyExist ==>
        rs != [] && chosen < |rs| && subject == rs[chosen].name && Chosen(rs, clock, chosen, samples)
      decreases |rs| - samples, !alreadyExist
    {
      ReadsFields(rs[samples..], rest);
      assert samples < |rs| ==> rs[samples..][1..] == rs[samples + 1..];
      var n := LineLen(rest);
      var fields := Split(rest[..n]);
      if fields == [] { break; }
      rest := rest[n..];
      var now := clock[samples];
      samples := samples + 1;
      CmpSwap(now, FieldsKey(fields));
      if StrCmp(now, FieldsKey(fields)) < 0 {
        if prev != [] {
          subject := prev[1];
          chosen := samples - 2;
          alreadyExist := true;
          assert Chosen(rs, clock, chosen, samples) by { StopsAt(rs, clock, samples); }
        }
      }
      prev := fields;
    }
    if !alreadyExist && prev != [] {
      subject := prev[1];
      chosen := samples - 1;
      StopsAtEnd(rs, clock, samples);
    }
  }

  /** Where the scan stops: at the first line but the first that lies after its clock sample, with the line before it,
      or at the end with the last line. */
  ghost predicate Chosen(rs: seq<Schedule>, clock: seq<string>, chosen: nat, samples: nat) {
    && 0 < samples <= |rs| <= |clock| && chosen < |rs|
    && (forall k :: 1 <= k < samples - 1 ==> Le(Key(rs[k]), clock[k]))
    && if 1 < samples && !Le(Key(rs[samples - 1]), clock[samples - 1]) then chosen == samples - 2
       else samples == |rs| && chosen == samples - 1
  }

  lemma StopsAt(rs: seq<Schedule>, clock: seq<string>, samples: nat)
    requires 1 < samples <= |rs| <= |clock| && !Le(Key(rs[samples - 1]), clock[samples - 1])
    requires forall k :: 1 <= k < samples - 1 ==> Le(Key(rs[k]), clock[k])
    ensures Chosen(rs, clock, samples - 2, samples)
  {
  }

  lemma StopsAtEnd(rs: seq<Schedule>, clock: seq<string>, samples: nat)
    requires 0 < samples == |rs| <= |clock|
    requires forall k :: 1 <= k < samples ==> Le(Key(rs[k]), clock[k])
    ensures Chosen(rs, clock, samples - 1, samples)
  {
  }

  /** On a sorted file the scan agrees with the C query at the last clock sample it took, exactly when some entry has
      started by then. Before the first entry it picks that entry, where `cur_subject` says "NOTHING". */
  lemma ScanAgreesIff(rs: seq<Schedule>, clock: seq<string>, chosen: nat, samples: nat)
    requires AllRegistered(rs) && Sorted(rs) && Monotone(clock) && Chosen(rs, clock, chosen, samples)
    ensures var now := clock[samples - 1];
      && (IsPredecessor(multiset(rs), now, rs[chosen]) <==> !NothingYet(multiset(rs), now))
      && (NothingYet(multiset(rs), now) ==> chosen == 0)
      && (NothingYet(multiset(rs), now) <==> !Le(Key(rs[0]), now))
  {
    var now := clock[samples - 1];
    assert rs[0] in multiset(rs) && rs[chosen] in multiset(rs);
    if Le(Key(rs[0]), now) {
      if chosen > 0 { LeTrans(Key(rs[chosen]), clock[chosen], now); }
      PredecessorAt(rs, now, chosen + 1);
    } else {
      PredecessorAt(rs, now, 0);
      if chosen > 0 {
        LeTrans(Key(rs[chosen]), clock[chosen], now);
      }
    }
  }

  /** In step with `StartedLen`: the entry taken is the last one that has started, ties included, as soon as one has. */
  lemma ChosenIsLastStarted(rs: seq<Schedule>, clock: seq<string>, chosen: nat, samples: nat)
    requires Monotone(clock) && Chosen(rs, clock, chosen, samples)
    ensures var now := clock[samples - 1]; var n := StartedLen(rs, now);
      if n > 0 then chosen == n - 1 else !Le(Key(rs[0]), now)
  {
    hide Key;
    var now := clock[samples - 1];
    if Le(Key(rs[0]), now) {
      forall k | 0 <= k <= chosen ensures Le(Key(rs[k]), now) {
        if k > 0 { LeTrans(Key(rs[k]), clock[k], now); }
      }
      StartedLenIs(rs, now, chosen + 1);
    }
  }

  /** On a sorted canonical file the light controller asks for the very subject `cur_subject` returns at the last clock
      sample, if and only if some entry has started by then (or the first entry happens to be called "NOTHING"). */
  lemma SameSubjectIff(file: string, rs: seq<Schedule>, clock: seq<string>, chosen: nat, samples: nat)
    requires Canonical(file, rs) && Sorted(rs) && Monotone(clock) && Chosen(rs, clock, chosen, samples)
    ensures var now := clock[samples - 1];
      rs[chosen].name == CurrentSubject(Realigned(ScanAll(file)), now) <==>
      StartedLen(rs, now) > 0 || rs[0].name == "NOTHING"
    ensures StartedLen(rs, clock[samples - 1]) > 0 <==> !NothingYet(multiset(rs), clock[samples - 1])
  {
    hide ScanAll, Realigned, Key, CleanTail, NothingYet, IsAnswer;
    var now := clock[samples - 1];
    CanonicalReads(rs);
    RealignedStaysIff(rs);
    ChosenIsLastStarted(rs, clock, chosen, samples);
    ScanAgreesIff(rs, clock, chosen, samples);
    CurrentSubjectAnswers(rs, now);
  }

  /** Both programs at work on one file: the controller scans it, and the desk asks at the controller's last sample. */
  method AskBoth(store: Store, clock: seq<string>, tmpSched: array<Schedule>, ghost rs: seq<Schedule>)
    returns (light: string, desk: string, samples: nat)
    requires Canonical(store.file, rs) && Sorted(rs) && rs != [] && |rs| <= |clock| && Monotone(clock)
    requires SafeToSort(store.file, tmpSched[..])
    modifies tmpSched
    ensures 0 < samples <= |rs|
    ensures light == desk <==> StartedLen(rs, clock[samples - 1]) > 0 || rs[0].name == "NOTHING"
  {
    hide ScanAll, Realigned, CurrentSubject, IsAnswer, SafeToSort, Sorted, Monotone, StartedLen;
    ghost var chosen: nat;
    light, chosen, samples := ChooseSubject(store.file, clock, rs);
    SameSubjectIff(store.file, rs, clock, chosen, samples);
    desk := store.CurSubject(clock[samples - 1], tmpSched);
  }

  // ----- a file that is not sorted -----

  /** `change_sched` writes a new time without sorting again: moving the first of two subjects of a day behind the
      second leaves the file out of order. */
  lemma ChangeUnsorts(x: Schedule, y: Schedule, entry: Entry, file': string)
    requires AllRegistered([x, y]) && x.date == y.date && StrCmp(x.time, y.time) < 0 && x.name != y.name
    requires Registered(Schedule(x.date, entry.name, entry.time)) && StrCmp(y.time, entry.time) < 0
    requires ChangeStep(Render([x, y]), x.date, x.name, entry, file')
    ensures Sorted([x, y]) && file' == Render([Schedule(x.date, entry.name, entry.time), y])
    ensures StrCmp(Key(y), Key(Schedule(x.date, entry.name, entry.time))) < 0
  {
    hide Render, ScanAll, CleanTail;
    CanonicalReads([x, y]);
    var moved := Schedule(x.date, entry.name, entry.time);
    CmpZero(x.date, y.date);
    CmpSwap(x.time, y.time);
    CmpConcat(y.date, x.date, y.time, entry.time);
    var s: seq<Schedule>, i: nat :|
      SortOf(multiset([x, y]), s) && i < |s| && Latest(multiset([x, y]), x.date, x.name, s[i]) &&
      file' == Render(s[i := moved]);
    OnlyOrder(x, y, s);
    assert s[i := moved] == [moved, y];
  }

  lemma OnlyOrder(x: Schedule, y: Schedule, s: seq<Schedule>)
    requires x.date == y.date && StrCmp(x.time, y.time) < 0 && SortOf(multiset([x, y]), s)
    ensures s == [x, y]
  {
    assert |s| == |multiset(s)| == |multiset([x, y])| == 2;
    assert s == [s[0], s[1]];
    assert s[0] in multiset(s) && s[1] in multiset(s);
    assert multiset(s) == multiset{s[0], s[1]} && multiset([x, y]) == multiset{x, y};
    CmpSwap(x.time, y.time);
  }

  /** On two lines out of order that have both started, the scan takes the second where `cur_subject` takes the
      first. */
  lemma UnsortedMisleads(x: Schedule, y: Schedule, clock: seq<string>, chosen: nat, samples: nat)
    requires StrCmp(Key(y), Key(x)) < 0 && |clock| >= 2 && Le(Key(x), clock[0]) && Monotone(clock)
    requires Chosen([x, y], clock, chosen, samples)
    ensures samples == 2 && chosen == 1
    ensures IsPredecessor(multiset([x, y]), clock[1], x) && !IsPredecessor(multiset([x, y]), clock[1], y)
    ensures |x.date| <= 6 && |y.date| <= 6 ==> CurrentSubject(Realigned([x, y]), clock[1]) == x.name
  {
    hide Realigned, CurrentSubject;
    var now := clock[1];
    LeTrans(Key(x), clock[0], now);
    LeTrans(Key(y), Key(x), now);
    CmpSwap(Key(y), Key(x));
    CmpZero(Key(x), Key(x));
    assert x in multiset([x, y]);
    forall q | q in multiset([x, y]) ensures q == x || q == y { assert q in [x, y]; }
    if |x.date| <= 6 && |y.date| <= 6 {
      var s := Realigned([x, y]);
      RealignedSorts([x, y]);
      forall k | 0 <= k < |s| ensures |s[k].date| <= 6 { assert s[k] in multiset(s); }
      CurrentSubjectAnswers(s, now);
    }
  }
}
