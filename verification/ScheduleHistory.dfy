/** Whole histories of the schedule file: register, delete and change refine operations on a multiset of records. */
module ScheduleHistory {
  import opened Text
  import opened ScheduleSort
  import opened ScheduleText
  import opened ScheduleStore

  /** A record as the prompts let it in. */
  predicate Registered(r: Schedule) {
    Scannable(r) && |r.date| == 6 && |r.name| <= 19 && |r.time| == 4
  }

  predicate AllRegistered(rs: seq<Schedule>) { forall i :: 0 <= i < |rs| ==> Registered(rs[i]) }

  ghost predicate Canonical(file: string, rs: seq<Schedule>) { AllRegistered(rs) && file == Render(rs) }

  datatype Op =
    | Register(date: string, entries: seq<Entry>)
    | Delete(date: string, name: string)
    | Change(date: string, name: string, entry: Entry)
  {
    /** What the prompts check before going on. */
    predicate Valid() {
      match this
      case Register(date, entries) =>
        forall i :: 0 <= i < |entries| ==> Registered(Schedule(date, entries[i].name, entries[i].time))
      case Delete(date, name) => true
      case Change(date, name, entry) => Registered(Schedule(date, entry.name, entry.time))
    }
  }

  /** One operation on the file, as the methods of `Store` guarantee it. */
  ghost predicate Step(file: string, op: Op, file': string) {
    match op
    case Register(date, entries) => RegisterStep(file, date, entries, file')
    case Delete(date, name) => DeleteStep(file, date, name, file')
    case Change(date, name, entry) => ChangeStep(file, date, name, entry, file')
  }

  /** The same operation on the multiset of records. */
  ghost predicate AbstractStep(ms: multiset<Schedule>, op: Op, ms': multiset<Schedule>) {
    match op
    case Register(date, entries) => ms' == ms + multiset(Records(date, entries))
    case Delete(date, name) =>
      || (ms' == ms && (NoneOn(ms, date) || exists r :: Earliest(ms, date, r) && r.name != name))
      || (exists r :: Earliest(ms, date, r) && r.name == name && ms' == ms - multiset{r})
    case Change(date, name, entry) =>
      || (ms == ms' == multiset{})
      || (exists r :: Latest(ms, date, name, r) &&
            ms' == ms - multiset{r} + multiset{Schedule(date, entry.name, entry.time)})
  }

  lemma CanonicalReads(rs: seq<Schedule>)
    requires AllRegistered(rs)
    ensures ScanAll(Render(rs)) == rs && CleanTail(Render(rs))
  {
    hide ScanAll, CleanTail, Render;
    RenderScansBack(rs, "");
    EmptyScan();
    assert Render(rs) + "" == Render(rs);
  }

  lemma EmptyScan()
    ensures ScanAll("") == [] && CleanTail("")
  {
  }

  lemma NewAreRegistered(rs: seq<Schedule>, date: string, entries: seq<Entry>)
    requires AllRegistered(rs) && Register(date, entries).Valid()
    ensures AllRegistered(rs + Records(date, entries))
  {
    hide Registered;
  }

  lemma StillRegistered(rs: seq<Schedule>, out: seq<Schedule>)
    requires AllRegistered(rs) && multiset(out) <= multiset(rs)
    ensures AllRegistered(out)
  {
    forall i | 0 <= i < |out| ensures Registered(out[i]) {
      assert out[i] in multiset(out);
      assert out[i] in multiset(rs);
    }
  }

  /** The entries that make the record r. */
  ghost function Entered(date: string, entries: seq<Entry>, r: Schedule): set<int> {
    set i | 0 <= i < |entries| && date == r.date && entries[i].name == r.name && entries[i].time == r.time
  }

  lemma {:induction false} CountRecords(date: string, entries: seq<Entry>, r: Schedule)
    ensures multiset(Records(date, entries))[r] == |Entered(date, entries, r)|
    decreases |entries|
  {
    hide Records, Entered;
    if entries == [] {
      NothingEntered(date, r);
      assert Records(date, entries) == [];
    } else {
      var n := |entries| - 1;
      CountRecords(date, entries[..n], r);
      var last := Records(date, entries)[n];
      assert Records(date, entries) == Records(date, entries[..n]) + [last];
      assert last == r <==> date == r.date && entries[n].name == r.name && entries[n].time == r.time;
      EnteredAppend(date, entries, r, n);
    }
  }

  lemma NothingEntered(date: string, r: Schedule)
    ensures Entered(date, [], r) == {}
  {
  }

  lemma EnteredAppend(date: string, entries: seq<Entry>, r: Schedule, n: nat)
    requires |entries| == n + 1
    ensures |Entered(date, entries, r)| == |Entered(date, entries[..n], r)| +
              if date == r.date && entries[n].name == r.name && entries[n].time == r.time then 1 else 0
  {
    var before, last := Entered(date, entries[..n], r), Entered(date, entries, r);
    assert n !in before;
    assert forall i :: i in before <==> i in last && i != n;
    assert last == if n in last then before + {n} else before;
  }

  /** Registering on a canonical file leaves exactly the rendering of the sorted old and new records: nothing stale. */
  lemma RegisterRefines(file: string, rs: seq<Schedule>, date: string, entries: seq<Entry>, file': string)
    returns (rs': seq<Schedule>)
    requires Canonical(file, rs) && Register(date, entries).Valid()
    requires RegisterStep(file, date, entries, file')
    ensures Canonical(file', rs') && Sorted(rs') && multiset(rs') == multiset(rs) + multiset(Records(date, entries))
    ensures forall r :: multiset(rs')[r] == multiset(rs)[r] + |Entered(date, entries, r)|
  {
    hide AllRegistered, Sorted, Render, ScanAll, CleanTail, Overwrite, Records;
    forall r ensures multiset(Records(date, entries))[r] == |Entered(date, entries, r)| {
      CountRecords(date, entries, r);
    }
    var all := rs + Records(date, entries);
    NewAreRegistered(rs, date, entries);
    RenderAppend(rs, Records(date, entries));
    CanonicalReads(all);
    rs' :| SortOf(multiset(all), rs') && file' == Overwrite(Render(all), 0, Render(rs'));
    RenderLength(all, rs');
    NoStaleTailIff(Render(all), Render(rs'));
    StillRegistered(all, rs');
  }

  /** On any file whatever, registering leaves exactly a rendering of all the records if and only if the file with the
      new lines was no longer than that rendering. */
  lemma RegisterLeavesNoTailIff(file: string, date: string, entries: seq<Entry>, file': string)
    requires RegisterStep(file, date, entries, file')
    ensures var appended := file + Render(Records(date, entries));
      Rewritten(multiset(ScanAll(appended)), file') <==> |appended| <= |Render(ScanAll(appended))|
  {
    hide Render, Sorted, ScanAll, Overwrite;
    var appended := file + Render(Records(date, entries));
    var all := ScanAll(appended);
    var out :| SortOf(multiset(all), out) && file' == Overwrite(appended, 0, Render(out));
    RenderLength(all, out);
    NoStaleTailIff(appended, Render(out));
    if Rewritten(multiset(all), file') {
      var out' :| SortOf(multiset(all), out') && file' == Render(out');
      RenderLength(all, out');
    }
  }

  /** A blank line in the file is enough: its records are read all the same, and a stale newline stays at the end. */
  lemma BlankLineLeavesTail(rs: seq<Schedule>, date: string, entries: seq<Entry>, file': string)
    requires AllRegistered(rs) && Register(date, entries).Valid()
    requires RegisterStep(Render(rs) + "\n", date, entries, file')
    ensures ScanAll(Render(rs) + "\n" + Render(Records(date, entries))) == rs + Records(date, entries)
    ensures !Rewritten(multiset(rs + Records(date, entries)), file')
  {
    hide AllRegistered, Render, ScanAll, CleanTail, RegisterStep, Rewritten, Records;
    var records := Records(date, entries);
    NewAreRegistered(rs, date, entries);
    StillRegistered(rs + records, records);
    CanonicalReads(records);
    FitsScan(rs);
    RenderScansBack(rs, "\n" + Render(records));
    PastNewline(Render(records));
    RenderAppend(rs, records);
    assert Render(rs) + "\n" + Render(records) == Render(rs) + ("\n" + Render(records));
    RegisterLeavesNoTailIff(Render(rs) + "\n", date, entries, file');
  }

  lemma FitsScan(rs: seq<Schedule>)
    requires AllRegistered(rs)
    ensures AllScannable(rs)
  {
  }

  lemma RewrittenIsCanonical(rs: seq<Schedule>, ms: multiset<Schedule>, file': string) returns (rs': seq<Schedule>)
    requires AllRegistered(rs) && ms <= multiset(rs) && Rewritten(ms, file')
    ensures Canonical(file', rs') && Sorted(rs') && multiset(rs') == ms
  {
    hide AllRegistered, Sorted, Render;
    rs' :| SortOf(ms, rs') && file' == Render(rs');
    StillRegistered(rs, rs');
  }

  /** One record of the date and subject is taken out. */
  ghost predicate OneGone(ms: multiset<Schedule>, date: string, name: string, ms': multiset<Schedule>) {
    exists r :: r in ms && r.date == date && r.name == name && ms' == ms - multiset{r}
  }

  lemma EarliestIsThere(ms: multiset<Schedule>, date: string, r: Schedule)
    requires Earliest(ms, date, r)
    ensures r in ms && r.date == date
  {
  }

  lemma DeleteRefines(file: string, rs: seq<Schedule>, date: string, name: string, file': string)
    returns (rs': seq<Schedule>)
    requires Canonical(file, rs) && DeleteStep(file, date, name, file')
    ensures Canonical(file', rs') && (rs' == rs || Sorted(rs'))
    ensures AbstractStep(multiset(rs), Delete(date, name), multiset(rs'))
    ensures rs' == rs || OneGone(multiset(rs), date, name, multiset(rs'))
  {
    hide AllRegistered, Sorted, Render, Rewritten, Earliest, NoneOn, ScanAll, CleanTail;
    CanonicalReads(rs);
    var ms := multiset(rs);
    if r :| Earliest(ms, date, r) && r.name == name && Rewritten(ms - multiset{r}, file') {
      EarliestIsThere(ms, date, r);
      rs' := RewrittenIsCanonical(rs, ms - multiset{r}, file');
    } else {
      rs' := rs;
    }
  }

  lemma ChangeRefines(file: string, rs: seq<Schedule>, date: string, name: string, entry: Entry, file': string)
    returns (rs': seq<Schedule>)
    requires Canonical(file, rs) && Registered(Schedule(date, entry.name, entry.time))
    requires ChangeStep(file, date, name, entry, file')
    ensures Canonical(file', rs') && AbstractStep(multiset(rs), Change(date, name, entry), multiset(rs'))
    ensures rs == rs' == [] ||
      exists ms :: OneGone(multiset(rs), date, name, ms) &&
        multiset(rs') == ms + multiset{Schedule(date, entry.name, entry.time)}
  {
    hide Sorted, Render, ScanAll, CleanTail;
    CanonicalReads(rs);
    var ms, changed := multiset(rs), Schedule(date, entry.name, entry.time);
    if ms == multiset{} && file' == file {
      rs' := rs;
    } else {
      var s: seq<Schedule>, i: nat :|
        SortOf(ms, s) && i < |s| && Latest(ms, date, name, s[i]) && file' == Render(s[i := changed]);
      StillRegistered(rs, s);
      rs' := s[i := changed];
      ReplaceMultiset(s, i, changed);
      assert OneGone(ms, date, name, ms - multiset{s[i]});
    }
  }

  lemma ReplaceMultiset(s: seq<Schedule>, i: nat, r: Schedule)
    requires i < |s|
    ensures multiset(s[i := r]) == multiset(s) - multiset{s[i]} + multiset{r}
  {
  }

  /** Every history of valid operations from a canonical file keeps the file canonical and follows the multiset;
      after a registration, and after a deletion that took effect, it is sorted as well. */
  lemma {:induction false} HistoryRefines(files: seq<string>, ops: seq<Op>, rs: seq<Schedule>)
    returns (states: seq<seq<Schedule>>)
    requires |files| == |ops| + 1 && Canonical(files[0], rs)
    requires forall i :: 0 <= i < |ops| ==> ops[i].Valid() && Step(files[i], ops[i], files[i + 1])
    ensures |states| == |files| && states[0] == rs
    ensures forall i :: 0 <= i < |files| ==> Canonical(files[i], states[i])
    ensures forall i :: 0 <= i < |ops| ==> AbstractStep(multiset(states[i]), ops[i], multiset(states[i + 1]))
    ensures forall i :: 0 <= i < |ops| && !ops[i].Change? ==>
      Sorted(states[i + 1]) || (ops[i].Delete? && states[i + 1] == states[i])
    decreases |ops|
  {
    hide Canonical, AbstractStep, Sorted;
    if ops == [] {
      states := [rs];
    } else {
      var rs' := StepRefines(files[0], ops[0], files[1], rs);
      var tail := HistoryRefines(files[1..], ops[1..], rs');
      states := [rs] + tail;
      forall i | 0 <= i < |ops| ensures AbstractStep(multiset(states[i]), ops[i], multiset(states[i + 1])) {
        if i > 0 { assert ops[i] == ops[1..][i - 1] && states[i + 1] == tail[i] && states[i] == tail[i - 1]; }
      }
      forall i | 0 <= i < |ops| && !ops[i].Change?
        ensures Sorted(states[i + 1]) || (ops[i].Delete? && states[i + 1] == states[i]) {
        if i > 0 { assert ops[i] == ops[1..][i - 1] && states[i + 1] == tail[i] && states[i] == tail[i - 1]; }
      }
    }
  }

  lemma StepRefines(file: string, op: Op, file': string, rs: seq<Schedule>) returns (rs': seq<Schedule>)
    requires Canonical(file, rs) && op.Valid() && Step(file, op, file')
    ensures Canonical(file', rs') && AbstractStep(multiset(rs), op, multiset(rs'))
    ensures !op.Change? ==> Sorted(rs') || (op.Delete? && rs' == rs)
  {
    hide RegisterStep, DeleteStep, ChangeStep, Registered, Sorted, Render;
    match op
    case Register(date, entries) => rs' := RegisterRefines(file, rs, date, entries, file');
    case Delete(date, name) => rs' := DeleteRefines(file, rs, date, name, file');
    case Change(date, name, entry) => rs' := ChangeRefines(file, rs, date, name, entry, file');
  }

  // ----- histories to the record -----

  /** A change names an entry that is there, as the source's uninitialised index demands. */
  ghost predicate Possible(rs: seq<Schedule>, op: Op) {
    op.Valid() && (op.Change? ==> HasMatch(rs, op.date, op.name))
  }

  /** The file each operation leaves. */
  ghost function Applied(file: string, op: Op): string
    requires Possible(ScanAll(file), op)
  {
    match op
    case Register(date, entries) => Registering(file, date, entries)
    case Delete(date, name) => Deleting(file, date, name)
    case Change(date, name, entry) => Changing(file, date, name, entry)
  }

  /** The same operation on the list of records. */
  function Edited(rs: seq<Schedule>, op: Op): seq<Schedule> {
    match op
    case Register(date, entries) => Realigned(rs + Records(date, entries))
    case Delete(date, name) =>
      var s := Realigned(rs);
      var i := FirstPos(s, date);
      if i == |s| || s[i].name != name then rs else Without(s, i)
    case Change(date, name, entry) =>
      var s := Realigned(rs);
      var i := LastPos(s, date, name);
      if i == |s| then rs else s[i := Schedule(date, entry.name, entry.time)]
  }

  lemma AppliedIsStep(file: string, op: Op)
    requires Possible(ScanAll(file), op)
    ensures Step(file, op, Applied(file, op))
  {
    hide RegisterStep, DeleteStep, ChangeStep, ScanAll, HasMatch;
    match op
    case Register(date, entries) => RegisteringSteps(file, date, entries);
    case Delete(date, name) => DeletingSteps(file, date, name);
    case Change(date, name, entry) => ChangingSteps(file, date, name, entry);
  }

  lemma AppliedIsEdited(rs: seq<Schedule>, op: Op)
    requires AllRegistered(rs) && Possible(rs, op)
    ensures ScanAll(Render(rs)) == rs && Applied(Render(rs), op) == Render(Edited(rs, op))
    ensures AllRegistered(Edited(rs, op))
  {
    hide ScanAll, Render, CleanTail, Realigned, AllRegistered, Overwrite, Registered, Sorted;
    CanonicalReads(rs);
    match op
    case Register(date, entries) => RegisteredIsEdited(rs, date, entries);
    case Delete(date, name) =>
      RealignedSorts(rs);
      var i := FirstPos(Realigned(rs), date);
      if i < |Realigned(rs)| { WithoutMultiset(Realigned(rs), i); }
      StillRegistered(rs, Edited(rs, op));
    case Change(date, name, entry) => ChangedIsEdited(rs, date, name, entry);
  }

  lemma RegisteredIsEdited(rs: seq<Schedule>, date: string, entries: seq<Entry>)
    requires AllRegistered(rs) && Register(date, entries).Valid()
    ensures var all := Realigned(rs + Records(date, entries));
      Registering(Render(rs), date, entries) == Render(all) && AllRegistered(all)
  {
    hide ScanAll, Render, CleanTail, Realigned, AllRegistered, Overwrite, Registered, Sorted, Records;
    var all := rs + Records(date, entries);
    NewAreRegistered(rs, date, entries);
    RenderAppend(rs, Records(date, entries));
    CanonicalReads(all);
    RealignedSorts(all);
    RenderLength(all, Realigned(all));
    NoStaleTailIff(Render(all), Render(Realigned(all)));
    StillRegistered(all, Realigned(all));
  }

  lemma ChangedIsEdited(rs: seq<Schedule>, date: string, name: string, entry: Entry)
    requires AllRegistered(rs) && Possible(rs, Change(date, name, entry))
    ensures ScanAll(Render(rs)) == rs
    ensures Changing(Render(rs), date, name, entry) == Render(Edited(rs, Change(date, name, entry)))
    ensures AllRegistered(Edited(rs, Change(date, name, entry)))
  {
    hide ScanAll, Render, Realigned, Registered, Sorted, CleanTail;
    CanonicalReads(rs);
    RealignedSorts(rs);
    StillRegistered(rs, Realigned(rs));
    if rs != [] {
      assert exists r <- rs :: Matches(r, date, name) && r in multiset(Realigned(rs));
    }
  }

  /** The list after all the operations. */
  function Edits(rs: seq<Schedule>, ops: seq<Op>): seq<Schedule>
    decreases |ops|
  {
    if ops == [] then rs else Edits(Edited(rs, ops[0]), ops[1..])
  }

  /** Each file is what its operation makes of the one before. */
  ghost predicate Follows(files: seq<string>, ops: seq<Op>) {
    |files| == |ops| + 1 && forall i :: 0 <= i < |ops| ==>
      Possible(ScanAll(files[i]), ops[i]) && files[i + 1] == Applied(files[i], ops[i])
  }

  /** From a canonical file every history determines every file to the byte: it is the rendering of the list that the
      operations make, the order of records with equal keys included. */
  lemma {:induction false} HistoryIsExact(files: seq<string>, ops: seq<Op>, rs: seq<Schedule>)
    requires Follows(files, ops) && Canonical(files[0], rs)
    ensures forall i :: 0 <= i <= |ops| ==> Canonical(files[i], Edits(rs, ops[..i]))
    decreases |ops|
  {
    hide AllRegistered, Possible, Applied, Edited, Render, ScanAll;
    if ops != [] {
      CanonicalReads(rs);
      AppliedIsEdited(rs, ops[0]);
      var rest := ops[1..];
      assert Follows(files[1..], rest);
      HistoryIsExact(files[1..], rest, Edited(rs, ops[0]));
      forall i | 0 < i <= |ops| ensures Canonical(files[i], Edits(rs, ops[..i])) {
        assert ops[..i][0] == ops[0] && ops[..i][1..] == rest[..i - 1] && files[i] == files[1..][i - 1];
      }
    }
  }
}
