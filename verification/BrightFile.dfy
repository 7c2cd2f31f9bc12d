/** `light_bright_info.txt`: fixed-width records that the C side overwrites in place and both sides look up. */
module BrightFile {
  import opened Text
  import opened Decimal

  datatype Subject = Subject(name: string, bright: int)

  const SUB_STR: seq<string> := ["Korean", "Math", "English", "Science", "History"]
  const BUF_SIZE := 1024
  const WIDTH := 25

  /** `fprintf(fp, "%-20s %03d\n", name, bright)` */
  function Record(x: Subject): string { PadRight(x.name, 20) + " " + Fmt03(x.bright) + "\n" }

  function Render(xs: seq<Subject>): string {
    if xs == [] then "" else Record(xs[0]) + Render(xs[1..])
  }

  // ----- the C look-up -----

  datatype ScannedSubject = Short | Both(subject: Subject, rest: string)

  /** `%s%d`; `Short` when fewer than two conversions succeed. */
  function ScanSubject(s: string): (r: ScannedSubject)
    ensures r.Both? ==> |r.rest| < |s|
  {
    match ScanAnyWord(s)
    case NoInput => Short
    case Word(name, s1) =>
      match ScanInt(s1)
      case NoInt => Short
      case Int(v, s2) => Both(Subject(name, v), s2)
  }

  function ScanSubjects(s: string): seq<Subject>
    decreases |s|
  {
    match ScanSubject(s)
    case Short => []
    case Both(x, rest) => [x] + ScanSubjects(rest)
  }

  /** The brightness of the first entry with the name, or -1. */
  function Lookup(xs: seq<Subject>, name: string): int {
    if xs == [] then -1 else if xs[0].name == name then xs[0].bright else Lookup(xs[1..], name)
  }

  // ----- the Python look-up -----

  datatype Found = NotFound | IndexError | Text(text: string)

  /** The second word of the first line whose first word is the name; an empty line ends the search. */
  function PyFind(file: string, name: string): Found
    decreases |file|
  {
    var n := LineLen(file);
    var fields := Split(file[..n]);
    if fields == [] || n == 0 then NotFound
    else if fields[0] != name then PyFind(file[n..], name)
    else if |fields| < 2 then IndexError
    else Text(fields[1])
  }

  // ----- lines as fgets sees them -----

  function FgetsLen(s: string): (n: nat)
    ensures n <= |s| && (s != "" ==> n > 0)
  {
    if LineLen(s) < BUF_SIZE then LineLen(s) else BUF_SIZE - 1
  }

  /** Where line i begins, or the end of the file. */
  function LineStart(file: string, i: nat): (n: nat)
    ensures n <= |file|
    decreases i
  {
    if i == 0 || file == "" then 0
    else FgetsLen(file) + LineStart(file[FgetsLen(file)..], i - 1)
  }

  predicate HasLine(file: string, i: nat) { LineStart(file, i) < |file| }

  function LineText(file: string, i: nat): string {
    var tail := file[LineStart(file, i)..];
    tail[..FgetsLen(tail)]
  }

  datatype Change = Changed | NoSuchLine | ScanFailed

  /** The outcome of changing line i, and the file after it. */
  function ChangeResult(file: string, subjectNo: int): Change {
    if subjectNo < 0 || !HasLine(file, subjectNo) then NoSuchLine
    else if ScanSubject(LineText(file, subjectNo)).Short? then ScanFailed
    else Changed
  }

  class BrightInfo {
    var file: string

    /** `get_subject_bright(subject_name)` */
    method GetSubjectBright(name: string) returns (bright: int)
      ensures bright == Lookup(ScanSubjects(file), name)
    {
      hide ScanSubject;
      var rest := file;
      while true
        invariant Lookup(ScanSubjects(file), name) == Lookup(ScanSubjects(rest), name)
        decreases |rest|
      {
        var r := ScanSubject(rest);
        if r.Short? { return -1; }
        if r.subject.name == name { return r.subject.bright; }
        rest := r.rest;
      }
    }

    /** `change_subject_bright(subject_no)` with the prompted brightness. Its table holds five names: a line past the
        fifth has no name to write. A failing `sscanf` makes the source exit. */
    method ChangeSubjectBright(subjectNo: int, newBright: int) returns (r: Change)
      requires ChangeResult(file, subjectNo) == Changed ==> subjectNo < |SUB_STR|
      modifies this
      ensures r == ChangeResult(old(file), subjectNo)
      ensures file == if r != Changed then old(file)
                      else Overwrite(old(file), LineStart(old(file), subjectNo),
                                     Record(Subject(SUB_STR[subjectNo], newBright)))
    {
      hide FgetsLen, ScanSubject, Record, Overwrite;
      var pos, i := 0, 0;
      while pos < |file|
        invariant 0 <= i && pos <= |file| && (subjectNo >= 0 ==> i <= subjectNo)
        invariant subjectNo >= 0 ==> LineStart(file, subjectNo) == pos + LineStart(file[pos..], subjectNo - i)
        invariant file == old(file)
        decreases |file| - pos
      {
        var n := FgetsLen(file[pos..]);
        var buf := file[pos..][..n];
        pos := pos + n;
        if i != subjectNo {
          assert file[pos..] == file[pos - n..][n..];
          i := i + 1;
          continue;
        }
        if ScanSubject(buf).Short? { return ScanFailed; }
        file := Overwrite(file, pos - |buf|, Record(Subject(SUB_STR[i], newBright)));
        return Changed;
      }
      return NoSuchLine;
    }
  }

  // ----- fixed-width files -----

  predicate Fixed(x: Subject) { 0 < |x.name| < 20 && NoBlank(x.name) && -99 <= x.bright <= 999 }

  predicate AllFixed(xs: seq<Subject>) { forall k :: 0 <= k < |xs| ==> Fixed(xs[k]) }

  /** Overwriting a stretch of `len` bytes replaces just that stretch, exactly when the text is as long, or when the
      stretch ends the file and the text is no shorter. */
  lemma OverwriteReplacesIff(file: string, start: nat, len: nat, text: string)
    requires start + len <= |file|
    ensures Overwrite(file, start, text) == file[..start] + text + file[start + len..] <==>
            |text| == len || (start + len == |file| && |text| >= len)
  {
    var over, want := Overwrite(file, start, text), file[..start] + text + file[start + len..];
    if |text| > len && start + len < |file| {
      assert |over| != |want|;
    } else if |text| < len {
      assert |over| != |want|;
    } else {
      assert over == want;
    }
  }

  lemma RecordWidth(x: Subject)
    requires Fixed(x)
    ensures |Record(x)| == WIDTH
  {
    Fmt03WidthIff(x.bright);
  }

  lemma RecordScansBack(x: Subject, rest: string)
    requires Fixed(x)
    ensures |Record(x)| == WIDTH
    ensures ScanSubject(Record(x) + rest) == Both(x, "\n" + rest)
    ensures LineLen(Record(x) + rest) == WIDTH
    ensures Split(Record(x)) == [x.name, Fmt03(x.bright)]
  {
    hide ScanAnyWord, ScanInt, Fmt03, LineLen, Split;
    Fmt03WidthIff(x.bright);
    Fmt03IsWord(x.bright);
    var pad := Spaces(20 - |x.name|) + " ";
    var s1 := pad + Fmt03(x.bright) + ("\n" + rest);
    assert Record(x) + rest == "" + x.name + s1;
    ScanBackAny("", x.name, s1);
    PrintedIntScansBack(pad, x.bright, "\n" + rest);
    var line := x.name + pad + Fmt03(x.bright);
    assert Record(x) + rest == line + "\n" + rest;
    LineLenIs(line, rest);
    var s2 := pad + Fmt03(x.bright) + "\n";
    assert Record(x) == "" + x.name + s2;
    SplitOne("", x.name, s2);
    SplitOne(pad, Fmt03(x.bright), "\n");
    SplitBlank("\n");
  }

  lemma BlanksFirst(b: string, s: string)
    requires AllBlank(b)
    ensures ScanSubjects(b + s) == ScanSubjects(s)
  {
    hide ScanWord, ScanAnyWord, ScanInt;
    ScanPastBlanks(b, s);
  }

  lemma NewlineFirst(s: string)
    ensures ScanSubjects("\n" + s) == ScanSubjects(s)
  {
    BlanksFirst("\n", s);
  }

  /** Both sides read a fixed-width file as the records it holds. */
  lemma {:induction false} RenderReadsBack(xs: seq<Subject>)
    requires AllFixed(xs)
    ensures ScanSubjects(Render(xs)) == xs
  {
    hide ScanSubject, Record;
    if xs == [] {
      NothingToScan();
    } else {
      RecordScansBack(xs[0], Render(xs[1..]));
      NewlineFirst(Render(xs[1..]));
      RenderReadsBack(xs[1..]);
      assert ScanSubjects(Render(xs)) == [xs[0]] + ScanSubjects("\n" + Render(xs[1..]));
    }
  }

  lemma NothingToScan()
    ensures ScanSubject("") == Short && ScanSubject("\n") == Short
  {
  }

  lemma PyFindStep(x: Subject, rest: string, name: string)
    requires Fixed(x)
    ensures PyFind(Record(x) + rest, name) == if x.name == name then Text(Fmt03(x.bright)) else PyFind(rest, name)
  {
    hide LineLen, Split, Record, Fmt03;
    RecordScansBack(x, rest);
    var file := Record(x) + rest;
    assert file[..WIDTH] == Record(x) && file[WIDTH..] == rest;
  }

  lemma PyFindNothing(name: string)
    ensures PyFind("", name) == NotFound
  {
    SplitBlank("");
  }

  /** The light controller's look-up finds the text of the very brightness the C look-up returns. */
  lemma {:induction false} PyFindAgrees(xs: seq<Subject>, name: string)
    requires AllFixed(xs)
    ensures PyFind(Render(xs), name) ==
            if exists x <- xs :: x.name == name then Text(Fmt03(Lookup(xs, name))) else NotFound
  {
    hide PyFind, Record, Fmt03;
    if xs == [] {
      PyFindNothing(name);
    } else {
      PyFindStep(xs[0], Render(xs[1..]), name);
      PyFindAgrees(xs[1..], name);
      assert forall x :: x in xs <==> x == xs[0] || x in xs[1..];
    }
  }

  lemma LineStartStep(x: Subject, rest: string, i: nat)
    requires Fixed(x)
    ensures LineStart(Record(x) + rest, i + 1) == WIDTH + LineStart(rest, i)
    ensures FgetsLen(Record(x) + rest) == WIDTH
  {
    hide Record, LineLen;
    RecordScansBack(x, rest);
    assert (Record(x) + rest)[WIDTH..] == rest;
  }

  lemma {:induction false} LineStartFixed(xs: seq<Subject>, tail: string)
    requires AllFixed(xs)
    ensures LineStart(Render(xs) + tail, |xs|) == |Render(xs)| == WIDTH * |xs|
  {
    hide Record, LineStart, FgetsLen, Fixed;
    if xs == [] {
      assert Render(xs) + tail == tail;
      StartOfFile(tail);
    } else {
      var rest := Render(xs[1..]) + tail;
      RecordWidth(xs[0]);
      assert Render(xs) + tail == Record(xs[0]) + rest;
      LineStartStep(xs[0], rest, |xs| - 1);
      LineStartFixed(xs[1..], tail);
    }
  }

  lemma StartOfFile(s: string)
    ensures LineStart(s, 0) == 0
  {
  }

  lemma {:induction false} RenderConcat(xs: seq<Subject>, ys: seq<Subject>)
    ensures Render(xs + ys) == Render(xs) + Render(ys)
  {
    hide Record;
    if xs == [] {
      assert xs + ys == ys;
    } else {
      assert (xs + ys)[1..] == xs[1..] + ys;
      RenderConcat(xs[1..], ys);
    }
  }

  lemma RenderSplit(xs: seq<Subject>, i: nat, x: Subject)
    requires i < |xs|
    ensures Render(xs[i := x]) == Render(xs[..i]) + Record(x) + Render(xs[i + 1..])
  {
    assert xs[i := x] == xs[..i] + ([x] + xs[i + 1..]);
    RenderConcat(xs[..i], [x] + xs[i + 1..]);
    RenderConcat([x], xs[i + 1..]);
    assert Render([x]) == Record(x) + Render([]);
  }

  /** Changing line i of a fixed-width file updates that record and leaves every other byte alone, exactly when the
      value prints in three characters or the line is the last one. */
  lemma ChangeIsUpdateIff(xs: seq<Subject>, i: nat, v: int)
    requires AllFixed(xs) && i < |xs| && i < |SUB_STR|
    ensures ChangeResult(Render(xs), i) == Changed
    ensures (Overwrite(Render(xs), LineStart(Render(xs), i), Record(Subject(SUB_STR[i], v))) ==
             Render(xs[i := Subject(SUB_STR[i], v)]))
            <==> -99 <= v <= 999 || i == |xs| - 1
  {
    hide Record, Render, ScanSubject, LineStart, FgetsLen, Overwrite;
    var changed := Subject(SUB_STR[i], v);
    RenderSplit(xs, i, changed);
    RecordWidth(xs[i]);
    ChangedWidth(i, v);
    SplitAt(xs, i);
    EndsFileIff(xs, i);
    OverwriteReplacesIff(Render(xs), WIDTH * i, WIDTH, Record(changed));
  }

  lemma ChangedWidth(i: nat, v: int)
    requires i < |SUB_STR|
    ensures |Record(Subject(SUB_STR[i], v))| >= WIDTH
    ensures |Record(Subject(SUB_STR[i], v))| == WIDTH <==> -99 <= v <= 999
  {
    Fmt03WidthIff(v);
  }

  lemma EndsFileIff(xs: seq<Subject>, i: nat)
    requires AllFixed(xs) && i < |xs|
    ensures WIDTH * i + WIDTH == |Render(xs)| <==> i == |xs| - 1
  {
    hide Render, LineStart;
    LineStartFixed(xs, "");
  }

  /** So it is for every value that prints in three characters; the file keeps its length and its shape. */
  lemma ChangeIsUpdate(xs: seq<Subject>, i: nat, v: int)
    requires AllFixed(xs) && i < |xs| && i < |SUB_STR| && -99 <= v <= 999
    ensures ChangeResult(Render(xs), i) == Changed
    ensures Overwrite(Render(xs), LineStart(Render(xs), i), Record(Subject(SUB_STR[i], v))) ==
            Render(xs[i := Subject(SUB_STR[i], v)])
    ensures |Render(xs[i := Subject(SUB_STR[i], v)])| == |Render(xs)|
    ensures AllFixed(xs[i := Subject(SUB_STR[i], v)])
  {
    hide Record, Render, LineStart, Overwrite, ChangeResult, Fixed;
    ChangeIsUpdateIff(xs, i, v);
    NameFits(i, v);
    LineStartFixed(xs, "");
    LineStartFixed(xs[i := Subject(SUB_STR[i], v)], "");
  }

  /** A brightness of four digits eats the first letter of the subject on the next line. */
  lemma FourDigitsEatALetter(xs: seq<Subject>, i: nat, v: int)
    requires AllFixed(xs) && i + 1 < |xs| && i < |SUB_STR| && 1000 <= v <= 9999
    ensures Overwrite(Render(xs), LineStart(Render(xs), i), Record(Subject(SUB_STR[i], v))) ==
            Render(xs[..i]) + Record(Subject(SUB_STR[i], v)) + Render(xs[i + 1..])[1..]
  {
    hide Record, Render, LineStart, LineText, ScanSubject;
    var file, text, start := Render(xs), Record(Subject(SUB_STR[i], v)), WIDTH * i;
    SplitAt(xs, i);
    LineStartFixed(xs, "");
    LineStartFixed(xs[i + 1..], "");
    FourDigitsWide(i, v);
    assert file[start + WIDTH..][1..] == file[start + WIDTH + 1..];
  }

  lemma FourDigitsWide(i: nat, v: int)
    requires i < |SUB_STR| && 1000 <= v <= 9999
    ensures |Record(Subject(SUB_STR[i], v))| == WIDTH + 1
  {
    assert |Digits(v)| == 1 + |Digits(v / 10)|;
  }

  /** Line i of a fixed-width file, and what stands before and behind it. */
  lemma SplitAt(xs: seq<Subject>, i: nat)
    requires AllFixed(xs) && i < |xs|
    ensures var file, start := Render(xs), WIDTH * i;
      && start + WIDTH <= |file| && LineStart(file, i) == start
      && file[..start] == Render(xs[..i]) && file[start + WIDTH..] == Render(xs[i + 1..])
      && LineText(file, i) == Record(xs[i]) && ScanSubject(LineText(file, i)).Both?
  {
    hide Record, Render, ScanSubject, LineStart, FgetsLen, Fixed;
    var pre, post := Render(xs[..i]), Render(xs[i + 1..]);
    assert xs == xs[i := xs[i]];
    RenderSplit(xs, i, xs[i]);
    var file, line := Render(xs), Record(xs[i]);
    assert file == pre + (line + post);
    LineStartFixed(xs[..i], line + post);
    LineStartStep(xs[i], post, 0);
    RecordWidth(xs[i]);
    assert file[WIDTH * i..] == line + post && (line + post)[..WIDTH] == line;
    RecordScansBack(xs[i], "");
    assert line == line + "";
  }

  /** The look-up gives the first entry with the name, and -1 if there is none. */
  lemma {:induction false} LookupFirst(xs: seq<Subject>, k: nat)
    requires k < |xs| && forall j :: 0 <= j < k ==> xs[j].name != xs[k].name
    ensures Lookup(xs, xs[k].name) == xs[k].bright
  {
    if k > 0 {
      assert xs[1..][k - 1] == xs[k];
      LookupFirst(xs[1..], k - 1);
    }
  }

  lemma {:induction false} LookupUnknown(xs: seq<Subject>, name: string)
    requires forall x <- xs :: x.name != name
    ensures Lookup(xs, name) == -1
  {
    if xs != [] { LookupUnknown(xs[1..], name); }
  }

  /** Where the C scan fails it ends: what stands behind a malformed line is never found. */
  lemma {:induction false} MalformedEndsScan(xs: seq<Subject>, bad: string)
    requires AllFixed(xs) && ScanSubject(bad).Short?
    ensures ScanSubjects(Render(xs) + bad) == xs
  {
    hide ScanSubject, Record;
    if xs == [] {
      assert Render(xs) + bad == bad;
    } else {
      var rest := Render(xs[1..]) + bad;
      assert Render(xs) + bad == Record(xs[0]) + rest;
      RecordScansBack(xs[0], rest);
      NewlineFirst(rest);
      MalformedEndsScan(xs[1..], bad);
      assert ScanSubjects(Render(xs) + bad) == [xs[0]] + ScanSubjects("\n" + rest);
    }
  }

  /** In Python an empty line ends the search, and a line with the name alone raises. */
  lemma {:induction false} PyFindStops(xs: seq<Subject>, name: string, rest: string)
    requires AllFixed(xs) && (forall x <- xs :: x.name != name) && name != "" && NoBlank(name)
    ensures PyFind(Render(xs) + ("\n" + rest), name) == NotFound
    ensures PyFind(Render(xs) + (name + "\n" + rest), name) == IndexError
  {
    hide PyFind, Record, Fmt03;
    if xs == [] {
      assert Render(xs) + ("\n" + rest) == "\n" + rest && Render(xs) + (name + "\n" + rest) == name + "\n" + rest;
      PyFindStopsHere(name, rest);
    } else {
      PyFindStops(xs[1..], name, rest);
      assert xs[0] in xs;
      PyFindStep(xs[0], Render(xs[1..]) + ("\n" + rest), name);
      PyFindStep(xs[0], Render(xs[1..]) + (name + "\n" + rest), name);
      assert Render(xs) + ("\n" + rest) == Record(xs[0]) + (Render(xs[1..]) + ("\n" + rest));
      assert Render(xs) + (name + "\n" + rest) == Record(xs[0]) + (Render(xs[1..]) + (name + "\n" + rest));
    }
  }

  lemma PyFindStopsHere(name: string, rest: string)
    requires name != "" && NoBlank(name)
    ensures PyFind("\n" + rest, name) == NotFound && PyFind(name + "\n" + rest, name) == IndexError
  {
    hide LineLen, Split;
    LineLenIs("", rest);
    assert "" + "\n" + rest == "\n" + rest && ("\n" + rest)[..1] == "\n";
    SplitBlank("\n");
    LineLenIs(name, rest);
    assert (name + "\n" + rest)[..|name| + 1] == "" + name + "\n";
    SplitOne("", name, "\n");
  }

  /** In a fixed-width file the lines that can be changed are just its records. */
  lemma ChangesIff(xs: seq<Subject>, i: int)
    requires AllFixed(xs)
    ensures ChangeResult(Render(xs), i) == if 0 <= i < |xs| then Changed else NoSuchLine
  {
    hide Render, LineStart, ScanSubject, Record, Fixed;
    if 0 <= i < |xs| {
      SplitAt(xs, i);
      LineStartFixed(xs, "");
      assert Render(xs) + "" == Render(xs);
    } else if i >= |xs| {
      PastTheEnd(xs, i);
    }
  }

  lemma {:induction false} PastTheEnd(xs: seq<Subject>, i: nat)
    requires AllFixed(xs) && i >= |xs|
    ensures LineStart(Render(xs), i) == |Render(xs)|
  {
    hide Record, Fixed, FgetsLen;
    if xs != [] {
      RecordWidth(xs[0]);
      LineStartStep(xs[0], Render(xs[1..]), i - 1);
      PastTheEnd(xs[1..], i - 1);
    }
  }

  /** `fgets` cuts a longer line after 1023 characters. */
  lemma FgetsCuts(s: string)
    requires |s| >= 1023 && forall k :: 0 <= k < 1023 ==> s[k] != '\n'
    ensures FgetsLen(s) == 1023
  {
  }

  ghost predicate DistinctNames(xs: seq<Subject>) {
    forall j, k :: 0 <= j < k < |xs| ==> xs[j].name != xs[k].name
  }

  lemma {:induction false} LookupOther(xs: seq<Subject>, i: nat, x: Subject, name: string)
    requires i < |xs| && name != xs[i].name && name != x.name
    ensures Lookup(xs[i := x], name) == Lookup(xs, name)
  {
    if i > 0 {
      assert xs[i := x][1..] == xs[1..][i - 1 := x];
      LookupOther(xs[1..], i - 1, x, name);
    } else {
      assert xs[i := x][1..] == xs[1..];
    }
  }

  /** After the change both look-ups give the new value for the subject of line i and the old one for every other. */
  lemma ChangeThenLookup(xs: seq<Subject>, i: nat, v: int, other: string)
    requires AllFixed(xs) && DistinctNames(xs) && i < |xs| && i < |SUB_STR| && -99 <= v <= 999
    requires xs[i].name == SUB_STR[i] && other != SUB_STR[i]
    ensures var before := Render(xs);
      var after := Overwrite(before, LineStart(before, i), Record(Subject(SUB_STR[i], v)));
      && Lookup(ScanSubjects(after), SUB_STR[i]) == v
      && PyFind(after, SUB_STR[i]) == Text(Fmt03(v)) && ParseInt(Fmt03(v)) == IntValue(v)
      && Lookup(ScanSubjects(after), other) == Lookup(ScanSubjects(before), other)
      && PyFind(after, other) == PyFind(before, other)
  {
    hide Render, Record, ScanSubjects, PyFind, LineStart, Lookup, Fixed, Fmt03, ParseInt;
    var ys := xs[i := Subject(SUB_STR[i], v)];
    ChangeIsUpdate(xs, i, v);
    RenderReadsBack(xs);
    RenderReadsBack(ys);
    PyFindAgrees(ys, SUB_STR[i]);
    PyFindAgrees(ys, other);
    PyFindAgrees(xs, other);
    LookupFirst(ys, i);
    LookupOther(xs, i, ys[i], other);
    PrintedIntParses(v);
    assert ys[i] in ys;
    forall x: Subject | x.name == other ensures x in ys <==> x in xs {
      if x in xs { var k :| 0 <= k < |xs| && xs[k] == x; assert ys[k] == x; }
      if x in ys { var k :| 0 <= k < |ys| && ys[k] == x; assert xs[k] == x; }
    }
  }

  /** A line that scans but is one byte too long: the change takes place, its old newline survives as an empty line, and
      the next change of the line behind it makes the program exit. */
  lemma LongLineLeavesBlank(xs: seq<Subject>, long: string, post: string, v: int)
    requires AllFixed(xs) && |xs| < |SUB_STR| && -99 <= v <= 999
    requires |long| == WIDTH + 1 && ScanSubject(long).Both? && LineLen(long) == |long| && long[WIDTH] == '\n'
    ensures var file, changed := Render(xs) + (long + post), Subject(SUB_STR[|xs|], v);
      var after := Overwrite(file, LineStart(file, |xs|), Record(changed));
      && ChangeResult(file, |xs|) == Changed
      && after == Render(xs + [changed]) + ("\n" + post)
      && ChangeResult(after, |xs| + 1) == ScanFailed
  {
    hide Record, Render, LineStart, LineLen, Fixed, Overwrite, ChangeResult, ScanSubject;
    NameFits(|xs|, v);
    LongLineChanged(xs, long, post, Subject(SUB_STR[|xs|], v));
  }

  lemma LongLineChanged(xs: seq<Subject>, long: string, post: string, x: Subject)
    requires AllFixed(xs) && Fixed(x)
    requires |long| == WIDTH + 1 && ScanSubject(long).Both? && LineLen(long) == |long| && long[WIDTH] == '\n'
    ensures var file := Render(xs) + (long + post);
      var after := Overwrite(file, LineStart(file, |xs|), Record(x));
      && ChangeResult(file, |xs|) == Changed
      && after == Render(xs + [x]) + ("\n" + post)
      && ChangeResult(after, |xs| + 1) == ScanFailed
  {
    hide Record, Render, LineStart, LineLen, Fixed, Overwrite, ChangeResult, ScanSubject;
    LongLineScans(xs, long, post);
    LineStartFixed(xs, long + post);
    AfterLongLine(xs, long, post, x);
    BlankLineFails(xs + [x], post);
  }

  lemma AfterLongLine(xs: seq<Subject>, long: string, post: string, x: Subject)
    requires Fixed(x) && |long| == WIDTH + 1 && long[WIDTH] == '\n'
    ensures Overwrite(Render(xs) + (long + post), |Render(xs)|, Record(x)) == Render(xs + [x]) + ("\n" + post)
  {
    hide Record, Render, Overwrite;
    RecordWidth(x);
    RenderConcat(xs, [x]);
    RenderOne(x);
    OverwriteMiddle(Render(xs), long + post, Record(x));
    assert (long + post)[WIDTH..] == "\n" + post;
  }

  lemma LongLineScans(xs: seq<Subject>, long: string, post: string)
    requires AllFixed(xs) && |long| == WIDTH + 1 && ScanSubject(long).Both?
    requires LineLen(long) == |long| && long[WIDTH] == '\n'
    ensures ChangeResult(Render(xs) + (long + post), |xs|) == Changed
  {
    hide Record, Render, LineStart, LineLen, FgetsLen, Fixed, ScanSubject;
    LineStartFixed(xs, long + post);
    LongLineIsRead(long, post);
    assert (Render(xs) + (long + post))[|Render(xs)|..] == long + post;
  }

  lemma LongLineIsRead(long: string, post: string)
    requires |long| == WIDTH + 1 && LineLen(long) == |long| && long[WIDTH] == '\n'
    ensures FgetsLen(long + post) == |long| && (long + post)[..|long|] == long
  {
    hide LineLen;
    var line := long[..WIDTH];
    assert forall k :: 0 <= k < WIDTH ==> line[k] == long[k];
    LineLenIs(line, post);
    assert long + post == line + "\n" + post;
  }

  const SHIPPED_KOREAN := "Korean               100\n"
  const SHIPPED_MATH := "Math                 075\n"
  const SHIPPED_ENGLISH := "English              050 \n"

  const SHIPPED_SCIENCE := "Science              025\n"
  const SHIPPED_HISTORY := "History              002\n"

  /** The C scan reads the shipped file, and its subjects are those of the program's table, in order. */
  lemma ShippedFileReads()
    ensures ScanSubjects(SHIPPED_KOREAN + (SHIPPED_MATH + (SHIPPED_ENGLISH + (SHIPPED_SCIENCE + SHIPPED_HISTORY)))) ==
            [Subject(SUB_STR[0], 100), Subject(SUB_STR[1], 75), Subject(SUB_STR[2], 50), Subject(SUB_STR[3], 25),
             Subject(SUB_STR[4], 2)]
  {
    hide ScanSubjects, Fmt03, Digits;
    var k, m, e := Subject("Korean", 100), Subject("Math", 75), Subject("English", 50);
    var s, h := Subject("Science", 25), Subject("History", 2);
    ShippedKorean(k);
    ShippedMath(m);
    ShippedEnglish(e);
    ShippedScience(s);
    ShippedHistory(h);
    ReadsOne(h, "\n", "");
    NothingLeftToScan();
    ReadsOne(s, "\n", SHIPPED_HISTORY);
    ReadsOne(e, " \n", SHIPPED_SCIENCE + SHIPPED_HISTORY);
    ReadsOne(m, "\n", SHIPPED_ENGLISH + (SHIPPED_SCIENCE + SHIPPED_HISTORY));
    ReadsOne(k, "\n", SHIPPED_MATH + (SHIPPED_ENGLISH + (SHIPPED_SCIENCE + SHIPPED_HISTORY)));
    assert SHIPPED_HISTORY + "" == SHIPPED_HISTORY;
  }

  lemma NothingLeftToScan()
    ensures ScanSubjects("") == []
  {
    NothingToScan();
  }

  /** One entry, blanks behind it, and the rest. */
  lemma ReadsOne(x: Subject, b: string, rest: string)
    requires Fixed(x) && b != "" && AllBlank(b)
    ensures ScanSubjects(PadRight(x.name, 20) + " " + Fmt03(x.bright) + b + rest) == [x] + ScanSubjects(rest)
  {
    hide ScanAnyWord, ScanInt, Fmt03;
    var pad, tail := Spaces(20 - |x.name|) + " ", b + rest;
    var text := PadRight(x.name, 20) + " " + Fmt03(x.bright) + b + rest;
    Fmt03IsWord(x.bright);
    var s1 := pad + Fmt03(x.bright) + tail;
    assert text == "" + x.name + s1;
    ScanBackAny("", x.name, s1);
    assert IsBlank(tail[0]);
    PrintedIntScansBack(pad, x.bright, tail);
    BlanksFirst(b, rest);
    assert ScanSubject(text) == Both(x, tail);
  }

  lemma ShippedScience(x: Subject)
    requires x == Subject("Science", 25)
    ensures Record(x) == SHIPPED_SCIENCE
  {
    hide Digits;
    SmallDigits();
    var pad := Spaces(13);
    assert Zeros(1) == "0";
    assert PadRight(x.name, 20) == "Science" + pad;
    var line := "Science" + pad + " " + "025" + "\n";
    assert forall k :: 0 <= k < 25 ==> line[k] == SHIPPED_SCIENCE[k];
  }

  lemma ShippedHistory(x: Subject)
    requires x == Subject("History", 2)
    ensures Record(x) == SHIPPED_HISTORY
  {
    hide Digits;
    SmallDigits();
    var pad := Spaces(13);
    assert Zeros(2) == "00";
    assert PadRight(x.name, 20) == "History" + pad;
    var line := "History" + pad + " " + "002" + "\n";
    assert forall k :: 0 <= k < 25 ==> line[k] == SHIPPED_HISTORY[k];
  }

  /** The shipped file: its third line carries a blank before the newline. Changing English leaves an empty line, and
      then changing Science makes the program exit. */
  lemma ShippedThirdLine(post: string, v: int)
    requires -99 <= v <= 999
    ensures var file := SHIPPED_KOREAN + SHIPPED_MATH + (SHIPPED_ENGLISH + post);
      var after := Overwrite(file, LineStart(file, 2), Record(Subject("English", v)));
      ChangeResult(file, 2) == Changed && ChangeResult(after, 3) == ScanFailed
  {
    hide ChangeResult, LineStart, Overwrite, ScanSubject, LineLen, Render, Record, Fmt03, Digits;
    var xs := [Subject("Korean", 100), Subject("Math", 75)];
    ShippedHead(xs[0], xs[1]);
    assert xs == [xs[0], xs[1]];
    var english := Subject("English", 50);
    ShippedEnglish(english);
    BlankBeforeNewline(english);
    LongLineLeavesBlank(xs, SHIPPED_ENGLISH, post, v);
    assert |xs| == 2 && SUB_STR[2] == "English";
  }

  lemma ShippedHead(x: Subject, y: Subject)
    requires x == Subject("Korean", 100) && y == Subject("Math", 75)
    ensures Render([x, y]) == SHIPPED_KOREAN + SHIPPED_MATH
  {
    hide Record, Render;
    ShippedKorean(x);
    ShippedMath(y);
    RenderConcat([x], [y]);
    RenderOne(x);
    RenderOne(y);
    assert [x] + [y] == [x, y];
  }

  lemma ShippedKorean(x: Subject)
    requires x == Subject("Korean", 100)
    ensures Record(x) == SHIPPED_KOREAN
  {
    hide Digits;
    SmallDigits();
    var pad := Spaces(14);
    assert Zeros(1) == "0";
    assert PadRight(x.name, 20) == "Korean" + pad;
    var line := "Korean" + pad + " " + "100" + "\n";
    assert forall k :: 0 <= k < 25 ==> line[k] == SHIPPED_KOREAN[k];
  }

  lemma ShippedMath(x: Subject)
    requires x == Subject("Math", 75)
    ensures Record(x) == SHIPPED_MATH
  {
    hide Digits;
    SmallDigits();
    var pad := Spaces(16);
    assert Zeros(1) == "0";
    assert PadRight(x.name, 20) == "Math" + pad;
    var line := "Math" + pad + " " + "075" + "\n";
    assert forall k :: 0 <= k < 25 ==> line[k] == SHIPPED_MATH[k];
  }

  lemma ShippedEnglish(x: Subject)
    requires x == Subject("English", 50)
    ensures PadRight(x.name, 20) + " " + Fmt03(x.bright) + " \n" == SHIPPED_ENGLISH
  {
    hide Digits;
    SmallDigits();
    assert Zeros(1) == "0";
    assert Fmt03(x.bright) == "050";
    var pad := Spaces(13);
    assert PadRight(x.name, 20) == "English" + pad;
    var long := "English" + pad + " " + "050" + " \n";
    assert forall k :: 0 <= k < 26 ==> long[k] == SHIPPED_ENGLISH[k];
  }

  lemma SmallDigits()
    ensures Digits(100) == "100" && Digits(75) == "75" && Digits(50) == "50"
    ensures Digits(25) == "25" && Digits(2) == "2"
  {
    assert Digits(10) == Digits(1) + "0";
  }

  lemma BlankBeforeNewline(x: Subject)
    requires Fixed(x)
    ensures var long := PadRight(x.name, 20) + " " + Fmt03(x.bright) + " \n";
      |long| == WIDTH + 1 && long[WIDTH] == '\n' && ScanSubject(long).Both? && LineLen(long) == |long|
  {
    hide ScanAnyWord, ScanInt, Fmt03, LineLen;
    Fmt03WidthIff(x.bright);
    Fmt03IsWord(x.bright);
    var long := PadRight(x.name, 20) + " " + Fmt03(x.bright) + " \n";
    var pad := Spaces(20 - |x.name|) + " ";
    var s1 := pad + Fmt03(x.bright) + " \n";
    assert long == "" + x.name + s1;
    ScanBackAny("", x.name, s1);
    PrintedIntScansBack(pad, x.bright, " \n");
    var line := x.name + pad + Fmt03(x.bright) + " ";
    assert long == line + "\n" + "";
    LineLenIs(line, "");
  }

  lemma BlankLineFails(xs: seq<Subject>, post: string)
    requires AllFixed(xs)
    ensures ChangeResult(Render(xs) + ("\n" + post), |xs|) == ScanFailed
  {
    hide Record, Render, LineStart, FgetsLen, Fixed, ScanSubject;
    LineStartFixed(xs, "\n" + post);
    BlankLine(post);
    NothingToScan();
  }

  lemma NameFits(i: nat, v: int)
    requires i < |SUB_STR| && -99 <= v <= 999
    ensures Fixed(Subject(SUB_STR[i], v))
  {
  }

  lemma RenderOne(x: Subject)
    ensures Render([x]) == Record(x)
  {
  }

  lemma OverwriteMiddle(pre: string, tail: string, text: string)
    requires |text| <= |tail|
    ensures Overwrite(pre + tail, |pre|, text) == pre + text + tail[|text|..]
  {
  }

  lemma BlankLine(post: string)
    ensures ("\n" + post)[..FgetsLen("\n" + post)] == "\n"
  {
  }
}
