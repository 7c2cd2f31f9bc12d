/** `schedule_info.txt`: how records are printed and how they are scanned back. */
module ScheduleText {
  import opened Text
  import opened ScheduleSort

  // ----- printing -----

  /** `fprintf(fp, "%6s %s %4s\n", date, name, time)` */
  function Line(r: Schedule): string {
    PadLeft(r.date, 6) + " " + r.name + " " + PadLeft(r.time, 4) + "\n"
  }

  function Render(rs: seq<Schedule>): string {
    if rs == [] then "" else Line(rs[0]) + Render(rs[1..])
  }

  // ----- scanning -----

  /** One `fscanf(fp, "%6s%s%4s", ...)`: its return value, the record as assigned so far, and the input left. */
  datatype Scan = Scan(n: int, record: Schedule, rest: string)

  /** Fields that are not reached keep what `old` holds; nothing to read at all gives EOF, which is -1. */
  function ScanRecord(s: string, before: Schedule): (r: Scan)
    ensures r.n == 3 ==> |r.rest| < |s|
  {
    match ScanWord(s, 6)
    case NoInput => Scan(-1, before, "")
    case Word(date, s1) =>
      match ScanAnyWord(s1)
      case NoInput => Scan(1, before.(date := date), "")
      case Word(name, s2) =>
        match ScanWord(s2, 4)
        case NoInput => Scan(2, before.(date := date, name := name), "")
        case Word(time, s3) => Scan(3, Schedule(date, name, time), s3)
  }

  /** The records that the loop `while (fscanf(...) == 3)` reads. */
  function ScanAll(s: string): seq<Schedule>
    decreases |s|
  {
    var r := ScanRecord(s, ZERO);
    if r.n == 3 then [r.record] + ScanAll(r.rest) else []
  }

  /** The input that loop leaves to its last, failing `fscanf`. */
  function ScanTail(s: string): string
    decreases |s|
  {
    var r := ScanRecord(s, ZERO);
    if r.n == 3 then ScanTail(r.rest) else s
  }

  lemma ScanIgnoresBefore(s: string, x: Schedule, y: Schedule)
    ensures ScanRecord(s, x).n == ScanRecord(s, y).n && ScanRecord(s, x).rest == ScanRecord(s, y).rest
    ensures ScanRecord(s, x).n == 3 ==> ScanRecord(s, x) == ScanRecord(s, y)
  {
    hide ScanWord, ScanAnyWord;
  }

  // ----- the round trip -----

  /** What `fscanf` can ever deliver: blank-free words, the date and time within their widths. */
  predicate Scannable(r: Schedule) {
    && 0 < |r.date| <= 6 && NoBlank(r.date)
    && r.name != "" && NoBlank(r.name)
    && 0 < |r.time| <= 4 && NoBlank(r.time)
  }

  predicate AllScannable(rs: seq<Schedule>) { forall i :: 0 <= i < |rs| ==> Scannable(rs[i]) }

  lemma {:induction false} ScannedIsScannable(s: string)
    ensures AllScannable(ScanAll(s))
    decreases |s|
  {
    hide ScanWord, ScanAnyWord;
    var r := ScanRecord(s, ZERO);
    if r.n == 3 {
      ScannedWordHasNoBlank(s, 6);
      var s1 := ScanWord(s, 6).rest;
      ScannedWordHasNoBlank(s1, 1);
      ScannedWordHasNoBlank(ScanAnyWord(s1).rest, 4);
      ScannedIsScannable(r.rest);
    }
  }

  /** A printed line scans back to its record, whatever follows it. */
  lemma LineScansBack(r: Schedule, tail: string, before: Schedule)
    requires Scannable(r)
    ensures ScanRecord(Line(r) + tail, before) == Scan(3, r, "\n" + tail)
  {
    hide ScanWord, ScanAnyWord;
    var pad1 := Spaces(6 - |r.date|);
    var pad2 := " " + Spaces(4 - |r.time|);
    var s3 := "\n" + tail;
    var s2 := pad2 + r.time + s3;
    var s1 := " " + r.name + s2;
    assert Line(r) + tail == pad1 + r.date + s1;
    ScanBack(pad1, r.date, s1, 6);
    ScanBackAny(" ", r.name, s2);
    ScanBack(pad2, r.time, s3, 4);
  }

  lemma LeadingNewline(s: string, before: Schedule)
    ensures ScanRecord("\n" + s, before) == ScanRecord(s, before)
  {
    hide ScanWord, ScanAnyWord;
    ScanPastBlanks("\n", s);
  }

  /** The newline that ends a line is skipped by the next scan; a file of blanks alone stays one. */
  lemma PastNewline(s: string)
    ensures ScanAll("\n" + s) == ScanAll(s) && CleanTail("\n" + s) == CleanTail(s)
  {
    LeadingNewline(s, ZERO);
    SkipBlanksOver("\n", s);
  }

  lemma LineThenAll(r: Schedule, tail: string)
    requires Scannable(r)
    ensures ScanAll(Line(r) + tail) == [r] + ScanAll(tail) && CleanTail(Line(r) + tail) == CleanTail(tail)
  {
    LineScansBack(r, tail, ZERO);
    PastNewline(tail);
  }

  /** Nothing but blanks is left behind the records, so the failing `fscanf` assigns nothing. */
  predicate CleanTail(s: string) { SkipBlanks(ScanTail(s)) == "" }

  lemma {:induction false} RenderScansBack(rs: seq<Schedule>, tail: string)
    requires AllScannable(rs)
    ensures ScanAll(Render(rs) + tail) == rs + ScanAll(tail) && CleanTail(Render(rs) + tail) == CleanTail(tail)
  {
    hide ScanAll, CleanTail;
    if rs == [] {
      assert Render(rs) + tail == tail;
    } else {
      var rest := Render(rs[1..]) + tail;
      assert Render(rs) + tail == Line(rs[0]) + rest;
      LineThenAll(rs[0], rest);
      RenderScansBack(rs[1..], tail);
    }
  }

  /** `txt_read` after `txt_write` gives the records back exactly when every field is a word that fits its width. */
  lemma RoundTripIff(rs: seq<Schedule>)
    ensures ScanAll(Render(rs)) == rs <==> AllScannable(rs)
  {
    ScannedIsScannable(Render(rs));
    if AllScannable(rs) {
      RenderScansBack(rs, "");
      assert Render(rs) + "" == Render(rs);
    }
  }

  // ----- lines that are not as printed -----

  /** A file that breaks off inside a record: the words it still has are assigned, the other fields keep what they
      held, and the loop ends. */
  lemma BrokenRecord(date: string, name: string, c: string, before: Schedule)
    requires 0 < |date| <= 6 && NoBlank(date) && name != "" && NoBlank(name) && AllBlank(c)
    ensures ScanRecord(c, before).n == -1 && ScanRecord(c, before).record == before
    ensures var r := ScanRecord(date + c, before); r.n == 1 && r.record == Schedule(date, before.name, before.time)
    ensures var r := ScanRecord(date + (" " + name + c), before);
      r.n == 2 && r.record == Schedule(date, name, before.time)
  {
    hide ScanWord, ScanAnyWord, WordLen, SkipBlanks;
    NothingLeft(c);
    ScanBack("", date, c, 6);
    assert "" + date + c == date + c;
    ScanBack("", date, " " + name + c, 6);
    assert "" + date + (" " + name + c) == date + (" " + name + c);
    ScanBackAny(" ", name, c);
  }

  lemma NothingLeft(c: string)
    requires AllBlank(c)
    ensures ScanAnyWord(c) == NoInput && forall width :: width > 0 ==> ScanWord(c, width) == NoInput
  {
    SkipBlanksOver(c, "");
    assert c + "" == c;
  }

  // ----- lengths -----

  lemma {:induction false} RenderAppend(rs: seq<Schedule>, more: seq<Schedule>)
    ensures Render(rs + more) == Render(rs) + Render(more)
  {
    if rs == [] {
      assert rs + more == more;
    } else {
      assert (rs + more)[1..] == rs[1..] + more;
      RenderAppend(rs[1..], more);
    }
  }

  lemma RenderOne(r: Schedule)
    ensures Render([r]) == Line(r)
  {
    assert Render([r]) == Line(r) + Render([]);
  }

  lemma RenderWithout(rs: seq<Schedule>, i: nat)
    requires i < |rs|
    ensures |Render(rs)| == |Line(rs[i])| + |Render(Without(rs, i))|
  {
    assert rs == rs[..i] + ([rs[i]] + rs[i + 1..]);
    RenderAppend(rs[..i], [rs[i]] + rs[i + 1..]);
    RenderAppend([rs[i]], rs[i + 1..]);
    RenderOne(rs[i]);
    RenderAppend(rs[..i], rs[i + 1..]);
  }

  /** The length of a rendering does not depend on the order of the records. */
  lemma {:induction false} RenderLength(rs: seq<Schedule>, ts: seq<Schedule>)
    requires multiset(rs) == multiset(ts)
    ensures |Render(rs)| == |Render(ts)|
  {
    hide Line;
    if rs == [] {
      assert |multiset(ts)| == 0;
    } else {
      assert rs[0] in multiset(ts);
      var i :| 0 <= i < |ts| && ts[i] == rs[0];
      SameRest(rs, ts, i);
      RenderWithout(ts, i);
      RenderLength(rs[1..], Without(ts, i));
    }
  }
}
