/** The schedule file and the operations that rewrite it or query it. The array `tmpSched` stands for the
    uninitialised local array of the source: its contents are whatever the stack held. */
module ScheduleStore {
  import opened Text
  import opened ScheduleSort
  import opened ScheduleText
  import opened ScheduleQuery

  const CAPACITY := 10000

  /** A subject and a time, as prompted for. */
  datatype Entry = Entry(name: string, time: string)

  /** One record for each entry, in order, all of the same date. */
  function Records(date: string, entries: seq<Entry>): (rs: seq<Schedule>)
    ensures |rs| == |entries|
    ensures forall i :: 0 <= i < |rs| ==>
      rs[i].date == date && rs[i].name == entries[i].name && rs[i].time == entries[i].time
  {
    seq(|entries|, i requires 0 <= i < |entries| => Schedule(date, entries[i].name, entries[i].time))
  }

  /** `a[count]` after the read loop, when it held `before`: its failing `fscanf` may have assigned a few fields. */
  function CellAfterRead(text: string, before: Schedule): Schedule {
    ScanRecord(ScanTail(text), before).record
  }

  /** `re_align` may be called on what the loop read from `text` into `a`. */
  ghost predicate SafeToSort(text: string, a: seq<Schedule>) {
    |ScanAll(text)| < |a| && Sentinel(multiset(ScanAll(text)), CellAfterRead(text, a[|ScanAll(text)|]).date)
  }

  /** `delete_sched` zeroes its array. What the loop leaves behind the records must be a sentinel for both sorts: that
      of all the records, and that of the records left when one of them goes. */
  ghost predicate SafeToDelete(text: string, date: string, name: string) {
    var ms, cell := multiset(ScanAll(text)), CellAfterRead(text, ZERO);
    && |ScanAll(text)| < CAPACITY && Sentinel(ms, cell.date)
    && forall r :: Earliest(ms, date, r) && r.name == name ==> Sentinel(ms - multiset{r}, cell.date)
  }

  // ----- what the operations do, on the records of the file -----

  /** r is a first record of its date. */
  ghost predicate Earliest(ms: multiset<Schedule>, date: string, r: Schedule) {
    r in ms && r.date == date && forall q <- ms :: q.date == date ==> Le(r.time, q.time)
  }

  /** r is a last record with this date and subject. */
  ghost predicate Latest(ms: multiset<Schedule>, date: string, name: string, r: Schedule) {
    && r in ms && r.date == date && r.name == name
    && forall q <- ms :: q.date == date && q.name == name ==> Le(q.time, r.time)
  }

  ghost predicate NoneOn(ms: multiset<Schedule>, date: string) { forall q <- ms :: q.date != date }

  /** `out` is what the file holds now. */
  ghost predicate Rewritten(ms: multiset<Schedule>, file': string) {
    exists out :: SortOf(ms, out) && file' == Render(out)
  }

  /** Append the new lines, read all, sort, and overwrite from the start without truncating. */
  ghost predicate RegisterStep(file: string, date: string, entries: seq<Entry>, file': string) {
    var appended := file + Render(Records(date, entries));
    exists out :: SortOf(multiset(ScanAll(appended)), out) && file' == Overwrite(appended, 0, Render(out))
  }

  /** Only a first record of the date is looked at. It goes if its subject is the one given. */
  ghost predicate DeleteStep(file: string, date: string, name: string, file': string) {
    var ms := multiset(ScanAll(file));
    || (file' == file && (NoneOn(ms, date) || exists r :: Earliest(ms, date, r) && r.name != name))
    || (exists r :: Earliest(ms, date, r) && r.name == name && Rewritten(ms - multiset{r}, file'))
  }

  /** A last record of the date and subject gets a new subject and time, in its place in the sorted list. */
  ghost predicate ChangeStep(file: string, date: string, name: string, entry: Entry, file': string) {
    var ms := multiset(ScanAll(file));
    || (ms == multiset{} && file' == file)
    || (exists s: seq<Schedule>, i: nat ::
          && SortOf(ms, s) && i < |s| && Latest(ms, date, name, s[i])
          && file' == Render(s[i := Schedule(date, entry.name, entry.time)]))
  }

  // ----- the file each operation leaves, to the byte -----

  /** The first position with the date, or the length. */
  function FirstPos(s: seq<Schedule>, date: string): (i: nat)
    ensures i <= |s| && (i < |s| ==> s[i].date == date)
    ensures forall k :: 0 <= k < i ==> s[k].date != date
  {
    if s == [] || s[0].date == date then 0 else 1 + FirstPos(s[1..], date)
  }

  predicate Matches(r: Schedule, date: string, name: string) { r.date == date && r.name == name }

  /** The last position with the date and the subject, or the length. */
  function LastPos(s: seq<Schedule>, date: string, name: string): (i: nat)
    ensures i <= |s| && (i < |s| ==> Matches(s[i], date, name))
    ensures forall k :: 0 <= k < |s| && Matches(s[k], date, name) ==> k <= i < |s|
  {
    if s == [] then 0
    else
      var n := |s| - 1;
      if Matches(s[n], date, name) then n
      else if LastPos(s[..n], date, name) < n then LastPos(s[..n], date, name)
      else |s|
  }

  function Registering(file: string, date: string, entries: seq<Entry>): string {
    var appended := file + Render(Records(date, entries));
    Overwrite(appended, 0, Render(Realigned(ScanAll(appended))))
  }

  function Deleting(file: string, date: string, name: string): string {
    var s := Realigned(ScanAll(file));
    var i := FirstPos(s, date);
    if i == |s| || s[i].name != name then file else Render(Without(s, i))
  }

  ghost predicate HasMatch(s: seq<Schedule>, date: string, name: string) {
    s == [] || exists r <- s :: Matches(r, date, name)
  }

  function Changing(file: string, date: string, name: string, entry: Entry): string
    requires HasMatch(ScanAll(file), date, name)
  {
    var s := Realigned(ScanAll(file));
    RealignedSorts(ScanAll(file));
    assert s != [] ==> exists r <- ScanAll(file) :: Matches(r, date, name) && r in multiset(s);
    if s == [] then file else Render(s[LastPos(s, date, name) := Schedule(date, entry.name, entry.time)])
  }

  lemma RegisteringSteps(file: string, date: string, entries: seq<Entry>)
    ensures RegisterStep(file, date, entries, Registering(file, date, entries))
  {
    hide ScanAll, Overwrite, Render, Realigned, Sorted;
    RealignedSorts(ScanAll(file + Render(Records(date, entries))));
  }

  /** With several records at the earliest time of the date, the one that sorting leaves first decides. */
  lemma DeletingSteps(file: string, date: string, name: string)
    ensures DeleteStep(file, date, name, Deleting(file, date, name))
  {
    hide ScanAll, Render, Realigned, Sorted, Earliest, NoneOn;
    var ms, s := multiset(ScanAll(file)), Realigned(ScanAll(file));
    RealignedSorts(ScanAll(file));
    var i := FirstPos(s, date);
    if i == |s| {
      NoneBelow(s, date);
    } else {
      FirstIsEarliest(s, date, i);
      WithoutMultiset(s, i);
      WithoutSorted(s, i);
      assert multiset(Without(s, i)) == ms - multiset{s[i]};
    }
  }

  lemma ChangingSteps(file: string, date: string, name: string, entry: Entry)
    requires HasMatch(ScanAll(file), date, name)
    ensures ChangeStep(file, date, name, entry, Changing(file, date, name, entry))
  {
    hide ScanAll, Render, Realigned, Sorted, Latest;
    var s := Realigned(ScanAll(file));
    RealignedSorts(ScanAll(file));
    if s != [] {
      assert exists r <- ScanAll(file) :: Matches(r, date, name) && r in multiset(s);
      LastIsLatest(s, date, name, LastPos(s, date, name));
    }
  }

  lemma WithoutSorted(s: seq<Schedule>, i: nat)
    requires Sorted(s) && i < |s|
    ensures Sorted(Without(s, i))
  {
  }

  lemma ReadStep(s: string, before: Schedule)
    ensures var r := ScanRecord(s, before);
      if r.n == 3 then ScanAll(s) == [r.record] + ScanAll(r.rest) && ScanTail(s) == ScanTail(r.rest)
      else ScanAll(s) == [] && ScanTail(s) == s
  {
    ScanIgnoresBefore(s, before, ZERO);
  }

  lemma RenderNone()
    ensures Render([]) == ""
  {
  }

  lemma RenderNext(s: seq<Schedule>, i: nat)
    requires i < |s|
    ensures Render(s[..i + 1]) == Render(s[..i]) + Line(s[i])
  {
    RenderAppend(s[..i], [s[i]]);
    RenderOne(s[i]);
    assert s[..i + 1] == s[..i] + [s[i]];
  }

  class Store {
    var file: string

    /** `txt_read(a)` */
    method TxtRead(a: array<Schedule>) returns (count: nat)
      requires |ScanAll(file)| < a.Length
      modifies a
      ensures count == |ScanAll(file)| && a[..count] == ScanAll(file)
      ensures a[count] == CellAfterRead(file, old(a[|ScanAll(file)|]))
      ensures a[count + 1..] == old(a[|ScanAll(file)| + 1..])
    {
      hide ScanRecord, ScanAll, ScanTail;
      var rest := file;
      count := 0;
      while true
        invariant count + |ScanAll(rest)| == |ScanAll(file)|
        invariant a[..count] + ScanAll(rest) == ScanAll(file) && ScanTail(rest) == ScanTail(file)
        invariant a[count..] == old(a[..])[count..]
        decreases |rest|
      {
        ReadStep(rest, a[count]);
        ghost var done, tail := a[..count], a[count + 1..];
        assert a[count] == a[count..][0] && tail == old(a[..])[count + 1..];
        var r := ScanRecord(rest, a[count]);
        a[count] := r.record;
        assert a[..count] == done && a[count + 1..] == tail;
        if r.n != 3 { break; }
        assert a[..count + 1] == done + [r.record];
        rest := r.rest;
        count := count + 1;
      }
    }

    /** Read the file and `re_align`, as every operation begins. */
    method ReadSorted(a: array<Schedule>) returns (count: nat)
      requires SafeToSort(file, a[..])
      modifies a
      ensures count == |ScanAll(file)| < a.Length && a[..count] == Realigned(ScanAll(file))
      ensures SortOf(multiset(ScanAll(file)), a[..count])
      ensures a[count] == CellAfterRead(file, old(a[|ScanAll(file)|]))
    {
      hide ScanRecord, ScanAll, ScanTail, Realigned;
      count := TxtRead(a);
      ghost var cell := a[count];
      assert a[count..][0] == cell;
      ReAlign(a, count);
      assert a[count] == a[count..][0];
    }

    /** `txt_write(a, n)`: the file is truncated, then written line by line. */
    method TxtWrite(a: array<Schedule>, n: nat)
      requires n <= a.Length
      modifies this
      ensures file == Render(a[..n])
    {
      file := "";
      for i := 0 to n
        invariant file == Render(a[..i])
      {
        RenderNext(a[..], i);
        assert a[..][..i] == a[..i] && a[..][..i + 1] == a[..i + 1];
        file := file + Line(a[i]);
      }
    }

    /** The lines of the new records, written to the end of the file. */
    method Append(date: string, entries: seq<Entry>)
      modifies this
      ensures file == old(file) + Render(Records(date, entries))
    {
      hide Line, Render;
      ghost var records := Records(date, entries);
      RenderNone();
      for i := 0 to |entries|
        invariant file == old(file) + Render(records[..i])
      {
        RenderNext(records, i);
        file := file + Line(Schedule(date, entries[i].name, entries[i].time));
      }
      assert records[..|entries|] == records;
    }

    /** `rewind(fp)` on a file open for update, then one `fprintf` a record. */
    method Rewrite(a: array<Schedule>, n: nat)
      requires n <= a.Length
      modifies this
      ensures file == Overwrite(old(file), 0, Render(a[..n]))
    {
      hide Line, Render;
      RenderNone();
      var pos := 0;
      for i := 0 to n
        invariant pos == |Render(a[..i])| <= |file|
        invariant file == Overwrite(old(file), 0, Render(a[..i]))
      {
        RenderNext(a[..], i);
        assert a[..][..i] == a[..i] && a[..][..i + 1] == a[..i + 1];
        OverwriteTwice(old(file), 0, Render(a[..i]), Line(a[i]));
        file := Overwrite(file, pos, Line(a[i]));
        pos := pos + |Line(a[i])|;
      }
    }

    /** `register_sched`. The prompts see to the shape of the date and the entries; nothing here depends on it. */
    method RegisterSched(date: string, entries: seq<Entry>, tmpSched: array<Schedule>)
      requires SafeToSort(file + Render(Records(date, entries)), tmpSched[..])
      modifies this, tmpSched
      ensures file == Registering(old(file), date, entries)
      ensures RegisterStep(old(file), date, entries, file)
    {
      hide ScanAll, SafeToSort, Overwrite, RegisterStep;
      RegisteringSteps(file, date, entries);
      Append(date, entries);
      var count := ReadSorted(tmpSched);
      Rewrite(tmpSched, count);
    }

    /** `delete_sched`. */
    method DeleteSched(date: string, name: string)
      requires SafeToDelete(file, date, name)
      modifies this
      ensures file == Deleting(old(file), date, name)
      ensures DeleteStep(old(file), date, name, file)
    {
      hide ScanAll, Sentinel, Realigned, CellAfterRead, DeleteStep;
      DeletingSteps(file, date, name);
      var tmpSched := new Schedule[CAPACITY](_ => ZERO);
      assert tmpSched[|ScanAll(file)|] == ZERO;
      var count := ReadSorted(tmpSched);
      var i := FirstOn(tmpSched, count, date);
      if i == count || tmpSched[i].name != name { return; }
      ghost var s := tmpSched[..count];
      assert s[i] == tmpSched[i];
      WithoutSorted(s, i);
      RealignedStaysIff(Without(s, i));
      RemoveAndWrite(tmpSched, i, count);
    }

    /** The first position with the date, or `count`. */
    method FirstOn(a: array<Schedule>, count: nat, date: string) returns (i: nat)
      requires count <= a.Length && Sorted(a[..count])
      ensures i == FirstPos(a[..count], date)
      ensures i == count ==> NoneOn(multiset(a[..count]), date)
      ensures i < count ==> Earliest(multiset(a[..count]), date, a[i])
    {
      i := 0;
      while i < count && a[i].date != date
        invariant i <= count && forall k :: 0 <= k < i ==> a[..count][k].date != date
      {
        i := i + 1;
      }
      if i == count { NoneBelow(a[..count], date); } else { FirstIsEarliest(a[..count], date, i); }
    }

    method RemoveAndWrite(a: array<Schedule>, i: nat, count: nat)
      requires i < count < a.Length
      requires Sentinel(multiset(a[..count]) - multiset{a[i]}, a[count].date)
      modifies this, a
      ensures file == Render(Realigned(Without(old(a[..count]), i)))
      ensures Rewritten(multiset(old(a[..count])) - multiset{old(a[i])}, file)
    {
      hide Sentinel, SortOf, Render, Without, Realigned;
      ghost var s := a[..count];
      assert s[i] == a[i];
      ShiftedSlices(a[..], i, count);
      ShiftDown(a, i, count);
      assert a[..][..count - 1] == a[..count - 1] && old(a[..])[..count] == s;
      WithoutMultiset(s, i);
      assert multiset(a[..count - 1]) == multiset(s) - multiset{s[i]};
      ReAlign(a, count - 1);
      TxtWrite(a, count - 1);
    }

    /** `change_sched`. With no match the source writes an uninitialised index; callers must name an entry
        that is there. */
    method ChangeSched(date: string, name: string, entry: Entry, tmpSched: array<Schedule>)
      requires SafeToSort(file, tmpSched[..])
      requires HasMatch(ScanAll(file), date, name)
      modifies this, tmpSched
      ensures file == Changing(old(file), date, name, entry)
      ensures ChangeStep(old(file), date, name, entry, file)
    {
      hide ScanAll, SafeToSort, Render, Latest, Sorted, Realigned, ChangeStep;
      ChangingSteps(file, date, name, entry);
      var count := ReadSorted(tmpSched);
      if count == 0 { return; }
      ghost var s := tmpSched[..count];
      ghost var r :| r in ScanAll(file) && Matches(r, date, name);
      assert r in multiset(s);
      var change := LastMatch(tmpSched, count, date, name);
      tmpSched[change] := Schedule(date, entry.name, entry.time);
      assert tmpSched[..count] == s[change := Schedule(date, entry.name, entry.time)];
      TxtWrite(tmpSched, count);
    }

    method LastMatch(a: array<Schedule>, count: nat, date: string, name: string) returns (change: nat)
      requires count <= a.Length && Sorted(a[..count])
      requires exists r :: r in multiset(a[..count]) && Matches(r, date, name)
      ensures change == LastPos(a[..count], date, name) < count
      ensures Latest(multiset(a[..count]), date, name, a[change])
    {
      ghost var s := a[..count];
      ghost var found := false;
      change := 0;
      for i := 0 to count
        invariant found ==> change < i && s[change].date == date && s[change].name == name
        invariant forall k :: 0 <= k < i && s[k].date == date && s[k].name == name ==> found && k <= change
      {
        if a[i].date == date && a[i].name == name {
          change := i;
          found := true;
        }
      }
      ghost var r :| r in multiset(s) && Matches(r, date, name);
      LastIsLatest(s, date, name, change);
    }

    /** `cur_subject`, called with the count it then reads again. */
    method CurSubject(now: string, tmpSched: array<Schedule>) returns (buf: string)
      requires SafeToSort(file, tmpSched[..])
      modifies tmpSched
      ensures buf == CurrentSubject(Realigned(ScanAll(file)), now)
      ensures IsAnswer(multiset(ScanAll(file)), now, buf)
    {
      hide ScanAll, SafeToSort, Key, Sorted, Realigned, IsAnswer;
      var n := ReadSorted(tmpSched);
      ghost var s := tmpSched[..n];
      DatesFit(file, s);
      CurrentSubjectAnswers(s, now);
      var schedTime := OutputSchedtime(tmpSched, n);
      var i := Started(schedTime, now);
      StartedLenIs(s, now, i);
      buf := if i == 0 then "NOTHING" else tmpSched[i - 1].name;
    }

    /** The scan for the first key after `now`. */
    method Started(schedTime: array<string>, now: string) returns (i: nat)
      ensures i <= schedTime.Length
      ensures forall k :: 0 <= k < i ==> Le(schedTime[k], now)
      ensures i < schedTime.Length ==> !Le(schedTime[i], now)
    {
      i := 0;
      while i < schedTime.Length && StrCmp(schedTime[i], now) <= 0
        invariant i <= schedTime.Length && forall k :: 0 <= k < i ==> Le(schedTime[k], now)
      {
        i := i + 1;
      }
    }

    method OutputSchedtime(a: array<Schedule>, n: nat) returns (buf: array<string>)
      requires n <= a.Length
      ensures buf.Length == n && fresh(buf) && forall k :: 0 <= k < n ==> buf[k] == Key(a[k])
    {
      buf := new string[n];
      for i := 0 to n
        invariant forall k :: 0 <= k < i ==> buf[k] == Key(a[k])
      {
        buf[i] := Key(a[i]);
      }
    }

    /** Moves the cells behind i one down, the one at `count` included. */
    method ShiftDown(a: array<Schedule>, i: nat, count: nat)
      requires i < count < a.Length
      modifies a
      ensures a[..] == ShiftedDown(old(a[..]), i, count)
    {
      for j := i to count
        invariant a[..] == ShiftedDown(old(a[..]), i, j)
      {
        ghost var before := a[..];
        ShiftOne(old(a[..]), i, j);
        a[j] := a[j + 1];
        assert a[..] == before[j := before[j + 1]];
      }
    }
  }

  function ShiftedDown(s: seq<Schedule>, i: nat, j: nat): (r: seq<Schedule>)
    requires i <= j < |s|
    ensures |r| == |s|
  {
    seq(|s|, k requires 0 <= k < |s| => if i <= k < j then s[k + 1] else s[k])
  }

  lemma ShiftOne(s: seq<Schedule>, i: nat, j: nat)
    requires i <= j < |s| - 1
    ensures ShiftedDown(s, i, i) == s
    ensures var t := ShiftedDown(s, i, j); t[j := t[j + 1]] == ShiftedDown(s, i, j + 1)
  {
  }

  lemma ShiftedSlices(s: seq<Schedule>, i: nat, count: nat)
    requires i < count < |s|
    ensures var t := ShiftedDown(s, i, count); t[..count - 1] == Without(s[..count], i) && t[count - 1] == s[count]
  {
  }

  /** A file with nothing but blanks behind its records is always safe: the zeroed cell is the sentinel. */
  lemma CleanIsSafeToDelete(text: string, date: string, name: string)
    requires CleanTail(text) && |ScanAll(text)| < 10000
    ensures SafeToDelete(text, date, name)
  {
    hide ScanAll;
    CleanCell(text);
    ScannedIsScannable(text);
    NoRecordIsBlank(ScanAll(text));
  }

  lemma CleanCell(text: string)
    requires CleanTail(text)
    ensures CellAfterRead(text, ZERO) == ZERO
  {
    hide ScanTail;
  }

  lemma NoRecordIsBlank(s: seq<Schedule>)
    requires AllScannable(s)
    ensures forall ms: multiset<Schedule> :: ms <= multiset(s) ==> Sentinel(ms, "")
  {
    forall ms: multiset<Schedule> | ms <= multiset(s) ensures Sentinel(ms, "") {
      forall r | r in ms ensures r.date != "" { assert r in multiset(s); }
    }
  }

  lemma DatesFit(text: string, s: seq<Schedule>)
    requires multiset(s) == multiset(ScanAll(text))
    ensures forall k :: 0 <= k < |s| ==> |s[k].date| <= 6
  {
    hide ScanAll;
    ScannedIsScannable(text);
    forall k | 0 <= k < |s| ensures |s[k].date| <= 6 { assert s[k] in multiset(ScanAll(text)); }
  }

  lemma NoneBelow(s: seq<Schedule>, date: string)
    requires forall k :: 0 <= k < |s| ==> s[k].date != date
    ensures NoneOn(multiset(s), date)
  {
  }

  lemma FirstIsEarliest(s: seq<Schedule>, date: string, i: nat)
    requires Sorted(s) && i < |s| && s[i].date == date && forall k :: 0 <= k < i ==> s[k].date != date
    ensures Earliest(multiset(s), date, s[i])
  {
    forall q | q in multiset(s) && q.date == date ensures Le(s[i].time, q.time) {
      var k :| 0 <= k < |s| && s[k] == q;
      CmpZero(q.time, q.time);
    }
  }

  lemma LastIsLatest(s: seq<Schedule>, date: string, name: string, i: nat)
    requires Sorted(s) && i < |s| && s[i].date == date && s[i].name == name
    requires forall k :: 0 <= k < |s| && s[k].date == date && s[k].name == name ==> k <= i
    ensures Latest(multiset(s), date, name, s[i])
  {
    forall q | q in multiset(s) && q.date == date && q.name == name ensures Le(q.time, s[i].time) {
      var k :| 0 <= k < |s| && s[k] == q;
      CmpZero(q.time, q.time);
    }
  }
}
