/** The peek behind each newline eats the first byte of the next line. A row with a one-letter name and no space before
    it loses that name: which tables are read back all the same, and what is stored for the others. */
module BatMisread {
  import opened BatTable
  import opened BatTheorems
  import Text

  /** A row as `batctl n` prints it: an interface name shorter than a MAC, a MAC without blanks, and whatever stands
      behind it on its line, such as when the neighbour was last seen. */
  ghost predicate Printed(r: Row) {
    r.head.Valid() && NoSpace(r.head.mac) && |r.head.name| < MAC_LEN && NoNewline(r.junk)
  }

  ghost predicate AllPrinted(rows: seq<Row>) { forall i :: 0 <= i < |rows| ==> Printed(rows[i]) }

  /** What the peek leaves of the row has a name. */
  predicate KeepsName(h: Head) { |h.lead| + |h.name| >= 2 }

  function DropWhile(s: seq<byte>, space: bool): (r: seq<byte>)
    ensures |r| <= |s| && r == s[|s| - |r|..]
    ensures r != [] ==> IsSpace(r[0]) != space
  {
    if s == [] || IsSpace(s[0]) != space then s else DropWhile(s[1..], space)
  }

  /** The rest of a line from the first word that is not run together with the MAC: the last-seen column. */
  function LastSeen(junk: seq<byte>): seq<byte> { DropWhile(DropWhile(junk, false), true) }

  /** A row read as it should be: its name outlives the peek, or else its MAC stands in the next column again. */
  predicate Survives(r: Row) { KeepsName(r.head) || r.head.mac <= LastSeen(r.junk) }

  predicate Survive(rows: seq<Row>, n: nat)
    requires n <= |rows|
  {
    forall i :: 0 <= i < n ==> Survives(rows[i])
  }

  // ----- a row that lost its name -----

  lemma {:induction false} SkipDrops(s: seq<byte>, rest: seq<byte>, end: Ending, space: bool)
    ensures SkipWhile(More(s + rest, end), space) ==
            if DropWhile(s, space) == [] then SkipWhile(More(rest, end), space)
            else More(DropWhile(s, space) + rest, end)
  {
    if s == [] {
      assert s + rest == rest;
    } else if IsSpace(s[0]) == space {
      assert (s + rest)[1..] == s[1..] + rest;
      SkipDrops(s[1..], rest, end, space);
    }
  }

  lemma {:induction false} DropsAll(s: seq<byte>)
    requires NoSpace(s)
    ensures DropWhile(s, false) == []
  {
    if s != [] { DropsAll(s[1..]); }
  }

  /** The cursor at x, or, if there is none, at the next word behind it. */
  function NextWord(x: seq<byte>, after: seq<byte>, end: Ending): Cursor {
    if x == [] then SkipWhile(More(after, end), true) else More(x + after, end)
  }

  /** Its MAC is skipped as a name, with all that is run together with it. The next word is taken for the MAC, be it on
      this line or on a later one. */
  lemma NamelessSkips(h: Head, junk: seq<byte>, after: seq<byte>, end: Ending)
    requires h.Valid() && NoSpace(h.mac) && !KeepsName(h) && (after == [] || IsSpace(after[0]))
    ensures ToMac(Next(More(h.Text() + (junk + after), end))) == NextWord(LastSeen(junk), after, end)
  {
    assert (h.Text() + (junk + after))[1..] == h.gap + (h.mac + (junk + after));
    SkipWhileOver(h.gap, h.mac + (junk + after), end, true);
    DropsAll(h.mac);
    SkipDrops(h.mac, junk + after, end, false);
    WordSkips(junk, after, end);
  }

  lemma WordSkips(junk: seq<byte>, after: seq<byte>, end: Ending)
    requires after == [] || IsSpace(after[0])
    ensures SkipWhile(SkipWhile(More(junk + after, end), false), true) == NextWord(LastSeen(junk), after, end)
  {
    var y := DropWhile(junk, false);
    SkipDrops(junk, after, end, false);
    if y == [] {
      assert y + after == after;
    }
    SkipDrops(y, after, end, true);
  }

  /** What a nameless row reads as its MAC when there is a last-seen column: the column and what follows it. */
  lemma NamelessReadsColumn(r: Row, rest: seq<byte>, end: Ending)
    requires Printed(r) && !KeepsName(r.head) && LastSeen(r.junk) != []
    ensures var c, text := Next(More(r.Text() + rest, end)), LastSeen(r.junk) + ([NEWLINE] + rest);
      ReadRow(c) == if |text| < MAC_LEN then Broken(Ended(end))
                    else Read(text[..MAC_LEN], Next(SkipLine(More(text[MAC_LEN..], end))))
  {
    hide SkipWhile, SkipLine, LastSeen;
    assert r.Text() + rest == r.head.Text() + (r.junk + ([NEWLINE] + rest));
    NamelessSkips(r.head, r.junk, [NEWLINE] + rest, end);
  }

  /** A column as long as a MAC is read in its place, and the next row as usual. */
  lemma LongColumn(r: Row, rest: seq<byte>, end: Ending)
    requires Printed(r) && !KeepsName(r.head) && |LastSeen(r.junk)| >= MAC_LEN
    ensures ReadRow(Next(More(r.Text() + rest, end))) == Read(LastSeen(r.junk)[..MAC_LEN], Next(More(rest, end)))
  {
    hide SkipWhile, SkipLine, DropWhile, ReadRow;
    var x := LastSeen(r.junk);
    NamelessReadsColumn(r, rest, end);
    var text := x + ([NEWLINE] + rest);
    assert text[..MAC_LEN] == x[..MAC_LEN] && text[MAC_LEN..] == x[MAC_LEN..] + [NEWLINE] + rest;
    SkipLineOver(x[MAC_LEN..], rest, end);
  }

  function FromName(h: Head): seq<byte> { h.name + (h.gap + h.mac) }

  /** Without a last-seen column: 17 bytes from the next line's name on. */
  lemma NamelessReadsNext(r: Row, next: Row, rest: seq<byte>, end: Ending)
    requires Printed(r) && !KeepsName(r.head) && Printed(next)
    ensures LastSeen(r.junk) == [] ==>
      ReadRow(Next(More(r.Text() + (next.Text() + rest), end))) ==
        Read(FromName(next.head)[..MAC_LEN],
             Next(SkipLine(More(FromName(next.head)[MAC_LEN..] + (next.junk + [NEWLINE] + rest), end))))
  {
    hide SkipWhile, SkipLine, LastSeen;
    var h, tail := next.head, next.junk + [NEWLINE] + rest;
    assert r.Text() + (next.Text() + rest) == r.head.Text() + (r.junk + ([NEWLINE] + (next.Text() + rest)));
    NamelessSkips(r.head, r.junk, [NEWLINE] + (next.Text() + rest), end);
    var lead := [NEWLINE] + h.lead;
    assert [NEWLINE] + (next.Text() + rest) == lead + (FromName(h) + tail);
    assert FromName(h)[0] == h.name[0];
    SkipWhileOver(lead, FromName(h) + tail, end, true);
    assert (FromName(h) + tail)[..MAC_LEN] == FromName(h)[..MAC_LEN];
    assert (FromName(h) + tail)[MAC_LEN..] == FromName(h)[MAC_LEN..] + tail;
  }

  lemma NamelessLast(r: Row, end: Ending)
    requires Printed(r) && !KeepsName(r.head)
    ensures LastSeen(r.junk) == [] ==> ReadRow(Next(More(r.Text(), end))) == Broken(Ended(end))
  {
    hide LastSeen;
    assert r.Text() == r.head.Text() + (r.junk + [NEWLINE]);
    NamelessSkips(r.head, r.junk, [NEWLINE], end);
    SkipWhileToEnd([NEWLINE], end, true);
  }

  /** No row of such a table has that for its MAC. */
  lemma FromNameHasSpace(h: Head)
    requires h.Valid() && |h.name| < MAC_LEN
    ensures !NoSpace(FromName(h)[..MAC_LEN])
  {
    assert FromName(h)[..MAC_LEN][|h.name|] == h.gap[0];
  }

  lemma SurvivorIsRead(r: Row, rest: seq<byte>, end: Ending)
    requires Printed(r) && Survives(r)
    ensures ReadRow(Next(More(r.Text() + rest, end))) == Read(r.head.mac, Next(More(rest, end)))
  {
    hide ReadRow, LastSeen, SkipLine;
    if KeepsName(r.head) { RowIsRead(r, rest, end); } else { LongColumn(r, rest, end); }
  }

  lemma VictimIsMisread(r: Row, behind: seq<Row>)
    requires Printed(r) && !Survives(r) && AllPrinted(behind)
    ensures var read := ReadRow(Next(More(r.Text() + Lines(behind), EndOfFile))); read.Read? ==> read.mac != r.head.mac
  {
    hide ReadRow, LastSeen, SkipLine;
    var x, rest := LastSeen(r.junk), Lines(behind);
    if |x| >= MAC_LEN {
      LongColumn(r, rest, EndOfFile);
    } else if x != [] {
      NamelessReadsColumn(r, rest, EndOfFile);
      var text := x + ([NEWLINE] + rest);
      assert text[|x|] == NEWLINE;
    } else if behind == [] {
      assert r.Text() + rest == r.Text();
      NamelessLast(r, EndOfFile);
    } else {
      var next := behind[0];
      NamelessReadsNext(r, next, Lines(behind[1..]), EndOfFile);
      FromNameHasSpace(next.head);
    }
  }

  // ----- whole tables -----

  function RowsAsked(rows: seq<Row>, room: int): (n: nat)
    ensures n <= |rows|
  {
    if room <= 0 then 0 else if room < |rows| then room else |rows|
  }

  ghost predicate ReadBack(o: Outcome, rows: seq<Row>, room: int) {
    o.macs == Macs(rows)[..RowsAsked(rows, room)] && o.stop != InRow
  }

  lemma ReadBackStep(o: Outcome, rows: seq<Row>, room: int)
    requires rows != [] && room > 0
    ensures ReadBack(o.Prepend([rows[0].head.mac]), rows, room) <==> ReadBack(o, rows[1..], room - 1)
    ensures Survives(rows[0]) ==>
      (Survive(rows, RowsAsked(rows, room)) <==> Survive(rows[1..], RowsAsked(rows[1..], room - 1)))
  {
    hide Survives;
    var n := RowsAsked(rows[1..], room - 1);
    assert Macs(rows)[..n + 1] == [rows[0].head.mac] + Macs(rows[1..])[..n];
    assert ([rows[0].head.mac] + o.macs)[1..] == o.macs;
    assert ([rows[0].head.mac] + Macs(rows[1..])[..n])[1..] == Macs(rows[1..])[..n];
    assert forall i :: 0 < i < n + 1 ==> rows[i] == rows[1..][i - 1];
  }

  lemma VictimFails(rows: seq<Row>, ndev: int, maxdev: int)
    requires AllPrinted(rows) && rows != [] && !Survives(rows[0]) && ndev < maxdev
    ensures !ReadBack(Rows(Next(More(Lines(rows), EndOfFile)), ndev, maxdev), rows, maxdev - ndev)
  {
    hide ReadRow, Survives;
    VictimIsMisread(rows[0], rows[1..]);
    assert Macs(rows)[0] == rows[0].head.mac;
  }

  lemma {:induction false} RowsReadBackIff(rows: seq<Row>, ndev: int, maxdev: int)
    requires AllPrinted(rows) && rows != []
    ensures ReadBack(Rows(Next(More(Lines(rows), EndOfFile)), ndev, maxdev), rows, maxdev - ndev) <==>
            Survive(rows, RowsAsked(rows, maxdev - ndev))
  {
    hide ReadBack, ReadRow, Survives;
    if ndev >= maxdev {
      NoneAsked(rows, Next(More(Lines(rows), EndOfFile)), ndev, maxdev);
    } else if !Survives(rows[0]) {
      VictimFails(rows, ndev, maxdev);
    } else {
      SurvivorIsRead(rows[0], Lines(rows[1..]), EndOfFile);
      var behind := Next(More(Lines(rows[1..]), EndOfFile));
      if |rows| == 1 {
        var none := Outcome([], AfterRow, behind);
        assert rows[1..] == [] && Lines([]) == [] && behind == Ended(EndOfFile);
        ReadBackStep(none, rows, maxdev - ndev);
        NoneLeft(none, maxdev - ndev - 1);
        assert none.Prepend([rows[0].head.mac]) == Outcome([rows[0].head.mac], AfterRow, behind);
      } else {
        RowsReadBackIff(rows[1..], ndev + 1, maxdev);
        ReadBackStep(Rows(behind, ndev + 1, maxdev), rows, maxdev - ndev);
      }
    }
  }

  lemma NoneAsked(rows: seq<Row>, c: Cursor, ndev: int, maxdev: int)
    requires ndev >= maxdev
    ensures ReadBack(Rows(c, ndev, maxdev), rows, maxdev - ndev)
  {
  }

  lemma NoneLeft(o: Outcome, room: int)
    requires o.macs == [] && o.stop != InRow
    ensures ReadBack(o, [], room)
  {
  }

  /** The input of two header lines and these rows. */
  function Table(header1: seq<byte>, header2: seq<byte>, rows: seq<Row>): Cursor {
    More(header1 + [NEWLINE] + (header2 + [NEWLINE] + Lines(rows)), EndOfFile)
  }

  /** For every table of printed rows, whatever stands behind the MACs, and every limit: the call returns the number of
      rows asked for and stores their MACs in order, exactly when each of those rows has a name of two letters or a
      blank before it, or repeats its MAC as the next column. */
  lemma TableIsReadIff(header1: seq<byte>, header2: seq<byte>, rows: seq<Row>, maxdev: int)
    requires NoNewline(header1) && NoNewline(header2) && AllPrinted(rows)
    ensures var o, n := Parse(Table(header1, header2, rows), maxdev), RowsAsked(rows, maxdev);
      (o.Ret() == n && o.macs == Macs(rows)[..n]) <==> Survive(rows, n)
  {
    hide Rows, AllPrinted, NoNewline, SkipLine, Survives;
    HeaderOver(header1, header2, Lines(rows));
    if rows != [] {
      RowsReadBackIff(rows, 0, maxdev);
      RowsAccount(Next(More(Lines(rows), EndOfFile)), 0, maxdev);
    }
  }

  /** With last-seen columns shorter than a MAC only the names matter. */
  lemma ShortColumnsReadIff(header1: seq<byte>, header2: seq<byte>, rows: seq<Row>, maxdev: int)
    requires NoNewline(header1) && NoNewline(header2) && AllPrinted(rows)
    requires forall i :: 0 <= i < |rows| ==> |LastSeen(rows[i].junk)| < MAC_LEN
    ensures var o, n := Parse(Table(header1, header2, rows), maxdev), RowsAsked(rows, maxdev);
      (o.Ret() == n && o.macs == Macs(rows)[..n]) <==> forall i :: 0 <= i < n ==> KeepsName(rows[i].head)
  {
    hide LastSeen;
    TableIsReadIff(header1, header2, rows, maxdev);
    assert forall i :: 0 <= i < |rows| ==> Printed(rows[i]);
  }

  // ----- the failing tables -----

  /** What is stored for r in front of next. */
  function WrongMac(r: Row, next: Row): (wrong: seq<byte>)
    requires |next.head.mac| == MAC_LEN
    ensures |wrong| == MAC_LEN
  {
    var x := LastSeen(r.junk);
    (if x == [] then FromName(next.head) else x + ([NEWLINE] + next.Text()))[..MAC_LEN]
  }

  /** A nameless row before another makes one of the two: one row is counted, and what is stored as its MAC is the
      last-seen column, the newline and the start of the next line, or part of that line alone. */
  lemma NamelessSwallowsNext(header1: seq<byte>, header2: seq<byte>, r: Row, next: Row, maxdev: int)
    requires NoNewline(header1) && NoNewline(header2) && maxdev >= 1
    requires Printed(r) && !KeepsName(r.head) && |LastSeen(r.junk)| < MAC_LEN
    requires Printed(next) && NoNewline(next.head.lead) && NoNewline(next.head.gap)
    ensures var o := Parse(Table(header1, header2, [r, next]), maxdev);
      && o.Ret() == 1 && o.macs == [WrongMac(r, next)]
      && WrongMac(r, next) != r.head.mac && WrongMac(r, next) != next.head.mac
  {
    hide ReadRow, SkipLine, SkipWhile, LastSeen;
    var rows := [r, next];
    assert rows[1..] == [next] && [next][1..] == [];
    assert Lines([next]) == next.Text() + [];
    assert next.Text() + [] == next.Text();
    HeaderOver(header1, header2, Lines(rows));
    SwallowedRow(r, next);
  }

  lemma SwallowedRow(r: Row, next: Row)
    requires Printed(r) && !KeepsName(r.head) && |LastSeen(r.junk)| < MAC_LEN
    requires Printed(next) && NoNewline(next.head.lead) && NoNewline(next.head.gap)
    ensures ReadRow(Next(More(r.Text() + next.Text(), EndOfFile))) == Read(WrongMac(r, next), Ended(EndOfFile))
    ensures !NoSpace(WrongMac(r, next))
  {
    hide ReadRow, SkipLine, LastSeen, NoNewline;
    var x, h := LastSeen(r.junk), next.head;
    assert next.Text() + [] == next.Text();
    if x == [] {
      NamelessReadsNext(r, next, [], EndOfFile);
      FromNameHasSpace(h);
      LineEnds(next, FromName(h)[MAC_LEN..], |h.lead| + MAC_LEN);
    } else {
      NamelessReadsColumn(r, next.Text(), EndOfFile);
      var text, k := x + ([NEWLINE] + next.Text()), MAC_LEN - 1 - |x|;
      assert text[|x|] == NEWLINE && text[MAC_LEN..] == next.Text()[k..];
      assert next.Text()[k..] == h.Text()[k..] + (next.junk + [NEWLINE] + []);
      LineEnds(next, h.Text()[k..], k);
    }
  }

  /** From anywhere in its head, the rest of the line is skipped to the end of the file. */
  lemma LineEnds(next: Row, tail: seq<byte>, k: nat)
    requires Printed(next) && NoNewline(next.head.lead) && NoNewline(next.head.gap)
    requires k <= |next.head.Text()| && tail == next.head.Text()[k..]
    ensures Next(SkipLine(More(tail + (next.junk + [NEWLINE] + []), EndOfFile))) == Ended(EndOfFile)
  {
    hide SkipLine;
    SpacelessIsNoNewline(next.head.name);
    SpacelessIsNoNewline(next.head.mac);
    assert tail + (next.junk + [NEWLINE] + []) == tail + next.junk + [NEWLINE] + [];
    SkipLineOver(tail + next.junk, [], EndOfFile);
  }

  lemma SpacelessIsNoNewline(s: seq<byte>)
    requires NoSpace(s)
    ensures NoNewline(s)
  {
  }

  /** The parser's own `isspace` is that of the C library but for the form feed. */
  lemma KernelSpaces(b: byte)
    ensures IsSpace(b) <==> Text.IsBlank(b as char) && b != 12
    ensures IsSpace(b) <==> b == 32 || 9 <= b <= 11 || b == 13
  {
  }

  // ----- the shape of the sample table -----

  function Ascii(s: string): seq<byte>
    requires forall k :: 0 <= k < |s| ==> s[k] < 128 as char
  {
    seq(|s|, k requires 0 <= k < |s| => s[k] as int)
  }

  function SampleMac(): seq<byte> { Ascii("90:9f:33:ec:04:8a") }

  /** The row of the sample table. */
  function SampleRow(): Row {
    Row(Head(Ascii("        "), Ascii("wlan0"), Ascii("   "), SampleMac()), Ascii("    ") + Ascii("0.190s"))
  }

  /** The same with a one-letter name and no blank before it. */
  function NamelessRow(): Row {
    Row(Head([], Ascii("w"), Ascii("   "), SampleMac()), Ascii("    ") + Ascii("0.190s"))
  }

  lemma {:induction false} DropsRun(run: seq<byte>, rest: seq<byte>)
    requires AllSpace(run) && rest != [] && !IsSpace(rest[0])
    ensures DropWhile(run + rest, true) == rest
  {
    if run == [] {
      assert run + rest == rest;
    } else {
      assert (run + rest)[1..] == run[1..] + rest;
      DropsRun(run[1..], rest);
    }
  }

  lemma SampleColumn()
    ensures LastSeen(Ascii("    ") + Ascii("0.190s")) == Ascii("0.190s")
  {
    DropsRun(Ascii("    "), Ascii("0.190s"));
  }

  lemma SamplesArePrinted()
    ensures Printed(SampleRow()) && KeepsName(SampleRow().head) && SampleRow().head.mac == SampleMac()
    ensures NoNewline(SampleRow().head.lead) && NoNewline(SampleRow().head.gap)
    ensures Printed(NamelessRow()) && !KeepsName(NamelessRow().head)
  {
  }

  lemma SampleColumns()
    ensures |LastSeen(SampleRow().junk)| < MAC_LEN && |LastSeen(NamelessRow().junk)| < MAC_LEN
  {
    hide LastSeen;
    SampleColumn();
  }

  /** The last-seen column, the newline, the blanks of the next line and two letters. */
  function StoredInstead(): seq<byte> { Ascii("0.190s") + [NEWLINE] + Ascii("        ") + Ascii("wl") }

  lemma SampleWrong()
    ensures WrongMac(NamelessRow(), SampleRow()) == StoredInstead()
  {
    hide LastSeen;
    SampleColumn();
    var row := SampleRow();
    var rest := Ascii("an0") + row.head.gap + row.head.mac + row.junk + [NEWLINE];
    assert Ascii("wlan0") == Ascii("wl") + Ascii("an0");
    assert Ascii("0.190s") + ([NEWLINE] + row.Text()) == StoredInstead() + rest;
    assert |StoredInstead()| == MAC_LEN;
  }

  /** The sample table is read. With a nameless row in front of it the same number of rows is counted, and no MAC of
      either is stored. */
  lemma SampleTables(header1: seq<byte>, header2: seq<byte>, nameless: Row, row: Row, maxdev: int)
    requires NoNewline(header1) && NoNewline(header2) && maxdev >= 1
    requires nameless == NamelessRow() && row == SampleRow()
    ensures var o := Parse(Table(header1, header2, [row]), maxdev);
      o.Ret() == 1 && o.macs == [SampleMac()]
    ensures var o := Parse(Table(header1, header2, [nameless, row]), maxdev);
      o.Ret() == 1 && o.macs == [StoredInstead()]
  {
    hide Printed, LastSeen, Parse, Survives, NoNewline, SampleRow, NamelessRow, SampleMac, StoredInstead, WrongMac;
    SamplesArePrinted();
    SampleColumns();
    ShortColumnsReadIff(header1, header2, [row], maxdev);
    assert Macs([row])[..1] == [row.head.mac];
    NamelessSwallowsNext(header1, header2, nameless, row, maxdev);
    SampleWrong();
  }

  // ----- a lone row -----

  /** The only row of a table, with anything behind its MAC and with or without its newline. */
  lemma SingleRowIff(header1: seq<byte>, header2: seq<byte>, h: Head, junk: seq<byte>, newline: bool, maxdev: int)
    requires NoNewline(header1) && NoNewline(header2) && maxdev >= 1
    requires h.Valid() && NoSpace(h.mac) && NoNewline(junk)
    ensures var after := if newline then [NEWLINE] else [];
      var x := if LastSeen(junk) == [] then [] else LastSeen(junk) + after;
      var line := h.Text() + (junk + after);
      var o := Parse(More(header1 + [NEWLINE] + (header2 + [NEWLINE] + line), EndOfFile), maxdev);
      if KeepsName(h) then o.Ret() == 1 && o.macs == [h.mac]
      else if |x| >= MAC_LEN then o.Ret() == 1 && o.macs == [x[..MAC_LEN]]
      else o.Ret() == -EINVAL && o.macs == []
  {
    hide ReadRow, LastSeen;
    var after: seq<byte> := if newline then [NEWLINE] else [];
    HeaderOver(header1, header2, h.Text() + (junk + after));
    if KeepsName(h) { LoneIsRead(h, junk, after); } else { LoneNameless(h, junk, after); }
  }

  lemma LoneIsRead(h: Head, junk: seq<byte>, after: seq<byte>)
    requires h.Valid() && KeepsName(h) && NoNewline(junk) && after in {[], [NEWLINE]}
    ensures ReadRow(Next(More(h.Text() + (junk + after), EndOfFile))) == Read(h.mac, Ended(EndOfFile))
  {
    hide SkipLine, ReadRow;
    assert (h.Text() + (junk + after))[1..] == Eaten(h).Text() + (junk + after);
    HeadIsRead(Eaten(h), junk + after, EndOfFile);
    LoneLineEnds(junk, after);
  }

  lemma LoneLineEnds(line: seq<byte>, after: seq<byte>)
    requires NoNewline(line) && after in {[], [NEWLINE]}
    ensures Next(SkipLine(More(line + after, EndOfFile))) == Ended(EndOfFile)
  {
    hide SkipLine;
    if after == [] {
      assert line + after == line;
      SkipLineToEnd(line, EndOfFile);
    } else {
      assert line + after == line + [NEWLINE] + [];
      SkipLineOver(line, [], EndOfFile);
    }
  }

  lemma LoneNameless(h: Head, junk: seq<byte>, after: seq<byte>)
    requires h.Valid() && NoSpace(h.mac) && !KeepsName(h) && NoNewline(junk) && after in {[], [NEWLINE]}
    ensures var x := if LastSeen(junk) == [] then [] else LastSeen(junk) + after;
      ReadRow(Next(More(h.Text() + (junk + after), EndOfFile))) ==
      if |x| >= MAC_LEN then Read(x[..MAC_LEN], Ended(EndOfFile)) else Broken(Ended(EndOfFile))
  {
    hide SkipLine, DropWhile;
    var column := LastSeen(junk);
    NamelessSkips(h, junk, after, EndOfFile);
    if column == [] {
      SkipWhileToEnd(after, EndOfFile, true);
    } else if |column + after| >= MAC_LEN {
      if |column| >= MAC_LEN {
        assert (column + after)[MAC_LEN..] == column[MAC_LEN..] + after;
        LoneLineEnds(column[MAC_LEN..], after);
      } else {
        assert (column + after)[MAC_LEN..] == [] + [];
        LoneLineEnds([], []);
      }
    }
  }
}
