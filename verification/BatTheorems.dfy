/** What `parsebat` promises about whole inputs: cutting the input into blocks never matters, every
    `batctl n` table is read back, and every outcome is accounted for. */
module BatTheorems {
  import opened BatTable
  import opened ParseBat

  // ----- cutting into blocks -----

  function Joined(blocks: seq<seq<byte>>): seq<byte> {
    if blocks == [] then [] else blocks[0] + Joined(blocks[1..])
  }

  /** The reads that deliver these blocks and then `end`. */
  function Delivery(blocks: seq<seq<byte>>, end: Ending): seq<ReadResult> {
    if blocks == [] then
      (match end case EndOfFile => [] case ReadError(code) => [Fail(code)])
    else [Data(blocks[0])] + Delivery(blocks[1..], end)
  }

  lemma {:induction false} StreamOfBlocks(blocks: seq<seq<byte>>, end: Ending)
    requires forall i :: 0 <= i < |blocks| ==> blocks[i] != []
    ensures Stream(Delivery(blocks, end)) == More(Joined(blocks), end)
  {
    if blocks != [] {
      StreamOfBlocks(blocks[1..], end);
      assert Delivery(blocks, end)[1..] == Delivery(blocks[1..], end);
    }
  }

  /** Two cuts of the same bytes give the same outcome, whatever the block sizes. */
  lemma ChunkIndependence(first: seq<seq<byte>>, second: seq<seq<byte>>, end: Ending, maxdev: int)
    requires forall i :: 0 <= i < |first| ==> first[i] != []
    requires forall i :: 0 <= i < |second| ==> second[i] != []
    requires Joined(first) == Joined(second)
    ensures Parse(Stream(Delivery(first, end)), maxdev) == Parse(Stream(Delivery(second, end)), maxdev)
  {
    StreamOfBlocks(first, end);
    StreamOfBlocks(second, end);
  }

  // ----- the grammar of a row -----

  datatype Head = Head(lead: seq<byte>, name: seq<byte>, gap: seq<byte>, mac: seq<byte>) {
    function Text(): seq<byte> { lead + name + gap + mac }

    ghost predicate Valid() {
      && AllSpace(lead)
      && name != [] && NoSpace(name)
      && gap != [] && AllSpace(gap)
      && |mac| == MAC_LEN && !IsSpace(mac[0])
    }
  }

  lemma {:induction false} SkipWhileOver(run: seq<byte>, rest: seq<byte>, end: Ending, space: bool)
    requires forall k :: 0 <= k < |run| ==> IsSpace(run[k]) == space
    requires rest != [] && IsSpace(rest[0]) != space
    ensures SkipWhile(More(run + rest, end), space) == More(rest, end)
  {
    if run == [] {
      assert run + rest == rest;
    } else {
      assert (run + rest)[1..] == run[1..] + rest;
      SkipWhileOver(run[1..], rest, end, space);
    }
  }

  /** Every well-formed head at the front of the input is read, and its MAC is the one stored. */
  lemma HeadIsRead(h: Head, tail: seq<byte>, end: Ending)
    requires h.Valid()
    ensures ReadRow(More(h.Text() + tail, end)) == Read(h.mac, Next(SkipLine(More(tail, end))))
  {
    var fromMac := h.mac + tail;
    var fromGap := h.gap + fromMac;
    var fromName := h.name + fromGap;
    assert h.Text() + tail == h.lead + fromName;
    SkipWhileOver(h.lead, fromName, end, true);
    SkipWhileOver(h.name, fromGap, end, false);
    SkipWhileOver(h.gap, fromMac, end, true);
    assert fromMac[..MAC_LEN] == h.mac && fromMac[MAC_LEN..] == tail;
  }

  lemma {:induction false} SkipWhileSplits(c: Cursor, space: bool) returns (run: seq<byte>)
    requires SkipWhile(c, space).More?
    ensures c.More? && c.rest == run + SkipWhile(c, space).rest
    ensures forall k :: 0 <= k < |run| ==> IsSpace(run[k]) == space
    ensures c.rest != [] && IsSpace(c.rest[0]) == space ==> run != []
    decreases Size(c)
  {
    if Peek(c) == -1 || IsSpace(Peek(c)) != space {
      run := [];
    } else {
      var tail := SkipWhileSplits(Next(c), space);
      run := [c.rest[0]] + tail;
    }
  }

  /** A row that is read begins with a well-formed head. */
  lemma ReadHasHead(c: Cursor) returns (h: Head)
    requires ReadRow(c).Read?
    ensures c.More? && h.Valid() && h.Text() <= c.rest && ReadRow(c).mac == h.mac
  {
    var c1 := SkipWhile(c, true);
    var c2 := SkipWhile(c1, false);
    var c3 := SkipWhile(c2, true);
    var gap := SkipWhileSplits(c2, true);
    var name := SkipWhileSplits(c1, false);
    var lead := SkipWhileSplits(c, true);
    var mac, tail := c3.rest[..MAC_LEN], c3.rest[MAC_LEN..];
    h := Head(lead, name, gap, mac);
    assert c3.rest == mac + tail;
    assert c.rest == lead + (name + (gap + (mac + tail)));
    assert h.Text() + tail == lead + (name + (gap + (mac + tail)));
  }

  ghost predicate HasHead(s: seq<byte>) { exists h: Head :: h.Valid() && h.Text() <= s }

  /** A row is complete exactly when the input begins with a well-formed head. */
  lemma CompleteIffHead(s: seq<byte>, end: Ending)
    ensures ReadRow(More(s, end)).Read? <==> HasHead(s)
  {
    if ReadRow(More(s, end)).Read? {
      var h := ReadHasHead(More(s, end));
    }
    if h: Head :| h.Valid() && h.Text() <= s {
      assert h.Text() + s[|h.Text()|..] == s;
      HeadIsRead(h, s[|h.Text()|..], end);
    }
  }

  // ----- the grammar of the whole input -----

  /** A newline is byte 10. */
  predicate NoNewline(s: seq<byte>) { forall k :: 0 <= k < |s| ==> s[k] != 10 }

  /** s is a complete row to the end of its line, the byte the peek eats, and t. */
  ghost predicate RowThen(s: seq<byte>, t: seq<byte>) {
    exists h: Head, junk: seq<byte>, eaten: byte ::
      h.Valid() && NoNewline(junk) && s == h.Text() + (junk + [10] + ([eaten] + t))
  }

  /** s is two header lines, the byte the peek eats, and t. */
  ghost predicate HeaderThen(s: seq<byte>, t: seq<byte>) {
    exists line1: seq<byte>, line2: seq<byte>, eaten: byte ::
      NoNewline(line1) && NoNewline(line2) && s == line1 + [10] + (line2 + [10] + ([eaten] + t))
  }

  /** Among the next `room` rows there is one that breaks off before the end of its MAC. */
  ghost predicate BreaksOff(s: seq<byte>, room: int)
    decreases room
  {
    room > 0 && (!HasHead(s) || exists t :: RowThen(s, t) && BreaksOff(t, room - 1))
  }

  /** The next `room` rows are complete, and each has something behind its line. */
  ghost predicate Supplies(s: seq<byte>, room: int)
    decreases room
  {
    room <= 0 || exists t :: RowThen(s, t) && Supplies(t, room - 1)
  }

  /** The MACs of the complete rows in front, at most `room` of them. */
  ghost predicate Holds(s: seq<byte>, room: int, macs: seq<seq<byte>>)
    decreases room
  {
    if room <= 0 || !HasHead(s) then macs == []
    else
      && macs != []
      && (exists h: Head :: h.Valid() && h.Text() <= s && h.mac == macs[0])
      && (if exists t :: RowThen(s, t) then exists t :: RowThen(s, t) && Holds(t, room - 1, macs[1..])
          else macs[1..] == [])
  }

  lemma {:induction false} SkipLineOver(line: seq<byte>, rest: seq<byte>, end: Ending)
    requires NoNewline(line)
    ensures SkipLine(More(line + [NEWLINE] + rest, end)) == More(rest, end)
  {
    if line == [] {
      assert line + [NEWLINE] + rest == [NEWLINE] + rest;
    } else {
      assert (line + [NEWLINE] + rest)[1..] == line[1..] + [NEWLINE] + rest;
      SkipLineOver(line[1..], rest, end);
    }
  }

  lemma {:induction false} SkipLineSplits(c: Cursor) returns (line: seq<byte>)
    requires SkipLine(c).More?
    ensures c.More? && NoNewline(line) && c.rest == line + [NEWLINE] + SkipLine(c).rest
    decreases Size(c)
  {
    if Peek(c) == -1 || Peek(c) == NEWLINE {
      line := [];
    } else {
      var tail := SkipLineSplits(Next(c));
      line := [c.rest[0]] + tail;
    }
  }

  lemma RowThenIff(s: seq<byte>, t: seq<byte>, end: Ending)
    ensures RowThen(s, t) <==> ReadRow(More(s, end)).Read? && ReadRow(More(s, end)).at == More(t, end)
  {
    hide SkipLine;
    var c := More(s, end);
    if h: Head, junk: seq<byte>, eaten: byte :|
      h.Valid() && NoNewline(junk) && s == h.Text() + (junk + [NEWLINE] + ([eaten] + t))
    {
      HeadIsRead(h, junk + [NEWLINE] + ([eaten] + t), end);
      SkipLineOver(junk, [eaten] + t, end);
    }
    if ReadRow(c).Read? && ReadRow(c).at == More(t, end) {
      var h := ReadHasHead(c);
      var tail := s[|h.Text()|..];
      assert s == h.Text() + tail;
      HeadIsRead(h, tail, end);
      var junk := SkipLineSplits(More(tail, end));
      var u := SkipLine(More(tail, end)).rest;
      assert u == [u[0]] + t;
      assert s == h.Text() + (junk + [NEWLINE] + ([u[0]] + t));
    }
  }

  lemma HeaderThenIff(s: seq<byte>, t: seq<byte>, end: Ending)
    ensures HeaderThen(s, t) <==> Header(More(s, end)) == More(t, end)
  {
    hide SkipLine;
    var c := More(s, end);
    if line1: seq<byte>, line2: seq<byte>, eaten: byte :|
      NoNewline(line1) && NoNewline(line2) && s == line1 + [NEWLINE] + (line2 + [NEWLINE] + ([eaten] + t))
    {
      SkipLineOver(line1, line2 + [NEWLINE] + ([eaten] + t), end);
      SkipLineOver(line2, [eaten] + t, end);
    }
    if Header(c) == More(t, end) {
      var c1 := SkipLine(c);
      var line2 := SkipLineSplits(c1);
      var line1 := SkipLineSplits(c);
      var u := SkipLine(c1).rest;
      assert u == [u[0]] + t;
      assert s == line1 + [NEWLINE] + (line2 + [NEWLINE] + ([u[0]] + t));
    }
  }

  /** Where the row loop stops is a matter of the input alone. */
  lemma {:induction false} StopIsInTheInput(s: seq<byte>, end: Ending, ndev: int, maxdev: int)
    ensures Rows(More(s, end), ndev, maxdev).stop == InRow <==> BreaksOff(s, maxdev - ndev)
    ensures Rows(More(s, end), ndev, maxdev).stop == Full <==> Supplies(s, maxdev - ndev)
    decreases maxdev - ndev
  {
    hide ReadRow, HasHead, RowThen;
    if ndev < maxdev {
      CompleteIffHead(s, end);
      forall t ensures RowThen(s, t) <==> ReadRow(More(s, end)).Read? && ReadRow(More(s, end)).at == More(t, end) {
        RowThenIff(s, t, end);
      }
      if ReadRow(More(s, end)).Read? && ReadRow(More(s, end)).at.More? {
        var t := ReadRow(More(s, end)).at.rest;
        assert ReadRow(More(s, end)).at == More(t, end);
        StopIsInTheInput(t, end, ndev + 1, maxdev);
      }
    }
  }

  /** All heads in front of an input carry the same MAC, the one that is read. */
  lemma HeadMac(s: seq<byte>, end: Ending, mac: seq<byte>)
    requires HasHead(s)
    ensures ReadRow(More(s, end)).Read?
    ensures (exists h: Head :: h.Valid() && h.Text() <= s && h.mac == mac) <==> ReadRow(More(s, end)).mac == mac
  {
    hide ReadRow;
    CompleteIffHead(s, end);
    var read := ReadHasHead(More(s, end));
    forall h: Head | h.Valid() && h.Text() <= s ensures ReadRow(More(s, end)).mac == h.mac {
      assert h.Text() + s[|h.Text()|..] == s;
      HeadIsRead(h, s[|h.Text()|..], end);
    }
  }

  lemma RowThenAt(s: seq<byte>, end: Ending)
    requires ReadRow(More(s, end)).Read?
    ensures var at := ReadRow(More(s, end)).at; forall t :: RowThen(s, t) <==> at == More(t, end)
  {
    hide ReadRow, RowThen;
    forall t ensures RowThen(s, t) <==> ReadRow(More(s, end)).at == More(t, end) { RowThenIff(s, t, end); }
  }

  /** What the row loop stores is a matter of the input alone. */
  lemma {:induction false} MacsAreInTheInput(s: seq<byte>, end: Ending, ndev: int, maxdev: int, macs: seq<seq<byte>>)
    ensures Rows(More(s, end), ndev, maxdev).macs == macs <==> Holds(s, maxdev - ndev, macs)
    decreases maxdev - ndev
  {
    hide ReadRow, HasHead, RowThen;
    CompleteIffHead(s, end);
    if ndev < maxdev && HasHead(s) {
      var read := ReadRow(More(s, end));
      RowThenAt(s, end);
      if macs != [] {
        HeadMac(s, end, macs[0]);
        assert macs == [macs[0]] + macs[1..];
        if read.at.More? {
          var t := read.at.rest;
          assert read.at == More(t, end) && RowThen(s, t);
          MacsAreInTheInput(t, end, ndev + 1, maxdev, macs[1..]);
        }
      }
    }
  }

  // ----- accounting for every outcome -----

  lemma {:induction false} SkipLineUses(c: Cursor)
    ensures SkipLine(c).More? ==> c.More? && |SkipLine(c).rest| < |c.rest|
    decreases Size(c)
  {
    if Peek(c) != -1 && Peek(c) != NEWLINE {
      SkipLineUses(Next(c));
    }
  }

  /** A row that is read uses 19 bytes, and 21 when another line follows it. */
  lemma RowUses(c: Cursor)
    requires ReadRow(c).Read?
    ensures c.More? && |c.rest| >= 19
    ensures ReadRow(c).at.More? ==> |ReadRow(c).at.rest| + 21 <= |c.rest|
  {
    var h := ReadHasHead(c);
    var tail := c.rest[|h.Text()|..];
    assert c == More(h.Text() + tail, c.end);
    HeadIsRead(h, tail, c.end);
    SkipLineUses(More(tail, c.end));
  }

  lemma {:induction false} RowsAccount(c: Cursor, ndev: int, maxdev: int)
    requires c.More?
    ensures var o := Rows(c, ndev, maxdev);
      && o.at.end == c.end
      && o.at.Ended? == (o.stop != Full)
      && o.stop != InHeader
      && (o.stop == Full ==> |o.macs| == if maxdev > ndev then maxdev - ndev else 0)
      && (o.stop == InRow ==> |o.macs| < maxdev - ndev)
      && (o.stop == AfterRow ==> 0 < |o.macs| <= maxdev - ndev)
      && (o.macs != [] ==> 21 * |o.macs| - 2 <= |c.rest|)
    decreases maxdev - ndev
  {
    if ndev < maxdev && ReadRow(c).Read? {
      RowUses(c);
      if ReadRow(c).at.More? { RowsAccount(ReadRow(c).at, ndev + 1, maxdev); }
    }
  }

  /** On every finite stream the outcome is read off the input: with the header and as many rows as asked for there,
      all of them are counted and whatever lies behind does not matter; otherwise a failing read gives its own code, a
      row cut short at the end of file gives -EINVAL, and anything else the number of complete rows. What is stored
      are the MACs of the complete rows in front. The rows counted are paid for by at least 21 bytes each. */
  lemma OutcomeAccounted(s: seq<byte>, end: Ending, maxdev: int)
    requires end.ReadError? ==> end.code < 0
    ensures var o := Parse(More(s, end), maxdev); var limit := if maxdev > 0 then maxdev else 0;
      && (if exists t :: HeaderThen(s, t) && Supplies(t, maxdev) then o.Ret() == |o.macs| == limit
          else if end.ReadError? then o.Ret() == end.code
          else if exists t :: HeaderThen(s, t) && BreaksOff(t, maxdev) then o.Ret() == -22
          else o.Ret() == |o.macs|)
      && (forall t :: HeaderThen(s, t) ==> Holds(t, maxdev, o.macs))
      && ((forall t :: !HeaderThen(s, t)) ==> o.macs == [])
      && |o.macs| <= limit
      && (o.macs != [] ==> 21 * |o.macs| + 1 <= |s|)
  {
    hide HeaderThen, Supplies, BreaksOff, Holds, Rows, SkipLine;
    var c := More(s, end);
    SkipLineUses(c);
    SkipLineUses(SkipLine(c));
    forall t ensures HeaderThen(s, t) <==> Header(c) == More(t, end) { HeaderThenIff(s, t, end); }
    if Header(c).More? {
      var t := Header(c).rest;
      assert Header(c) == More(t, end);
      RowsAccount(Header(c), 0, maxdev);
      StopIsInTheInput(t, end, 0, maxdev);
      MacsAreInTheInput(t, end, 0, maxdev, Rows(More(t, end), 0, maxdev).macs);
    }
  }

  // ----- reading a table back -----

  datatype Row = Row(head: Head, junk: seq<byte>) {
    function Text(): seq<byte> { head.Text() + junk + [NEWLINE] }

    /** The peek at the start of a line eats its first byte, so a one-letter name needs a space before it. */
    ghost predicate Valid() {
      head.Valid() && NoNewline(junk) && |head.lead| + |head.name| >= 2
    }
  }

  function Lines(rows: seq<Row>): seq<byte> {
    if rows == [] then [] else rows[0].Text() + Lines(rows[1..])
  }

  function Macs(rows: seq<Row>): seq<seq<byte>> {
    seq(|rows|, i requires 0 <= i < |rows| => rows[i].head.mac)
  }

  lemma {:induction false} SkipLineToEnd(line: seq<byte>, end: Ending)
    requires NoNewline(line)
    ensures SkipLine(More(line, end)) == Ended(end)
  {
    if line != [] { SkipLineToEnd(line[1..], end); }
  }

  /** A head minus its first byte, which the peek has eaten. */
  function Eaten(h: Head): Head {
    if h.lead == [] && h.name != [] then h.(name := h.name[1..])
    else if h.lead != [] then h.(lead := h.lead[1..])
    else h
  }

  lemma RowIsRead(r: Row, rest: seq<byte>, end: Ending)
    requires r.Valid()
    ensures ReadRow(Next(More(r.Text() + rest, end))) == Read(r.head.mac, Next(More(rest, end)))
  {
    var h := Eaten(r.head);
    var tail := r.junk + [NEWLINE] + rest;
    assert (r.Text() + rest)[1..] == h.Text() + tail;
    HeadIsRead(h, tail, end);
    SkipLineOver(r.junk, rest, end);
  }

  ghost predicate IsTable(rows: seq<Row>, last: seq<byte>) {
    (forall i :: 0 <= i < |rows| ==> rows[i].Valid()) && NoNewline(last)
  }

  /** The MAC a last line without a newline contributes: that of the whole head past its first byte, if there is one. */
  ghost function LastMac(last: seq<byte>): (r: seq<seq<byte>>)
    ensures |r| <= 1
  {
    if last != [] && HasHead(last[1..]) then
      var h: Head :| h.Valid() && h.Text() <= last[1..];
      [h.mac]
    else []
  }

  ghost function TableMacs(rows: seq<Row>, last: seq<byte>, room: int): seq<seq<byte>> {
    if room > |rows| then Macs(rows) + LastMac(last) else Macs(rows)[..if room > 0 then room else 0]
  }

  /** The last line is begun and not complete, and there is room for it. */
  ghost predicate CutShort(rows: seq<Row>, last: seq<byte>, room: int) {
    room > |rows| && last != [] && LastMac(last) == []
  }

  ghost predicate Reads(o: Outcome, rows: seq<Row>, last: seq<byte>, room: int) {
    o.macs == TableMacs(rows, last, room) && (o.stop == InRow <==> CutShort(rows, last, room))
  }

  lemma LastLine(last: seq<byte>, ndev: int, maxdev: int)
    requires NoNewline(last) && last != []
    ensures Reads(Rows(More(last[1..], EndOfFile), ndev, maxdev), [], last, maxdev - ndev)
  {
    var c := More(last[1..], EndOfFile);
    if ndev < maxdev {
      CompleteIffHead(last[1..], EndOfFile);
      if ReadRow(c).Read? {
        var h: Head :| h.Valid() && h.Text() <= last[1..] && LastMac(last) == [h.mac];
        var tail := last[1..][|h.Text()|..];
        assert h.Text() + tail == last[1..];
        HeadIsRead(h, tail, EndOfFile);
        SkipLineToEnd(tail, EndOfFile);
      }
    }
  }

  lemma ReadsPrepend(o: Outcome, rows: seq<Row>, last: seq<byte>, room: int)
    requires rows != [] && room > 0 && Reads(o, rows[1..], last, room - 1)
    ensures Reads(o.Prepend([rows[0].head.mac]), rows, last, room)
  {
    assert Macs(rows) == [rows[0].head.mac] + Macs(rows[1..]);
  }

  /** What lies behind the first row. */
  function Behind(rows: seq<Row>, last: seq<byte>): seq<byte>
    requires rows != []
  {
    Lines(rows[1..]) + last
  }

  lemma TableStep(rows: seq<Row>, last: seq<byte>, ndev: int, maxdev: int)
    requires rows != [] && rows[0].Valid() && ndev < maxdev
    ensures var behind := Next(More(Behind(rows, last), EndOfFile));
      Rows(Next(More(Lines(rows) + last, EndOfFile)), ndev, maxdev) ==
        if behind.Ended? then Outcome([rows[0].head.mac], AfterRow, behind)
        else Rows(behind, ndev + 1, maxdev).Prepend([rows[0].head.mac])
  {
    assert Lines(rows) + last == rows[0].Text() + Behind(rows, last);
    RowIsRead(rows[0], Behind(rows, last), EndOfFile);
  }

  lemma {:induction false} RowsOfTable(rows: seq<Row>, last: seq<byte>, ndev: int, maxdev: int)
    requires IsTable(rows, last) && (rows != [] || last != [])
    ensures Reads(Rows(Next(More(Lines(rows) + last, EndOfFile)), ndev, maxdev), rows, last, maxdev - ndev)
  {
    if rows == [] {
      assert Lines(rows) + last == last;
      LastLine(last, ndev, maxdev);
    } else if ndev < maxdev {
      TableStep(rows, last, ndev, maxdev);
      var behind := Next(More(Behind(rows, last), EndOfFile));
      if rows[1..] == [] && last == [] {
        ReadsPrepend(Outcome([], AfterRow, behind), rows, last, maxdev - ndev);
      } else {
        RowsOfTable(rows[1..], last, ndev + 1, maxdev);
        ReadsPrepend(Rows(behind, ndev + 1, maxdev), rows, last, maxdev - ndev);
      }
    }
  }

  lemma HeaderOver(header1: seq<byte>, header2: seq<byte>, body: seq<byte>)
    requires NoNewline(header1) && NoNewline(header2)
    ensures Header(More(header1 + [NEWLINE] + (header2 + [NEWLINE] + body), EndOfFile)) == Next(More(body, EndOfFile))
  {
    SkipLineOver(header1, header2 + [NEWLINE] + body, EndOfFile);
    SkipLineOver(header2, body, EndOfFile);
  }

  lemma BodyIsRead(rows: seq<Row>, last: seq<byte>, maxdev: int)
    requires IsTable(rows, last) && Lines(rows) + last != []
    ensures var c := Next(More(Lines(rows) + last, EndOfFile));
      && c.More? && Reads(Rows(c, 0, maxdev), rows, last, maxdev)
      && Rows(c, 0, maxdev).Ret() == if CutShort(rows, last, maxdev) then -EINVAL else |Rows(c, 0, maxdev).macs|
  {
    if rows == [] { assert Lines(rows) + last == last; }
    RowsOfTable(rows, last, 0, maxdev);
    RowsAccount(Next(More(Lines(rows) + last, EndOfFile)), 0, maxdev);
  }

  /** Reading back what `batctl n` prints: two header lines, any complete rows, and perhaps a last line without
      its newline. The MACs come back in row order, at most `maxdev` of them, and their number is returned,
      except that a last line cut short before the end of its MAC gives -EINVAL. */
  lemma TableIsRead(header1: seq<byte>, header2: seq<byte>, rows: seq<Row>, last: seq<byte>, maxdev: int)
    requires NoNewline(header1) && NoNewline(header2) && IsTable(rows, last)
    ensures var o := Parse(More(header1 + [NEWLINE] + (header2 + [NEWLINE] + (Lines(rows) + last)), EndOfFile), maxdev);
      && o.macs == TableMacs(rows, last, maxdev)
      && o.Ret() == if CutShort(rows, last, maxdev) then -22 else |o.macs|
  {
    HeaderOver(header1, header2, Lines(rows) + last);
    if Lines(rows) + last == [] {
      assert Macs(rows) == [];
    } else {
      BodyIsRead(rows, last, maxdev);
    }
  }

  lemma {:induction false} SkipWhileToEnd(run: seq<byte>, end: Ending, space: bool)
    requires forall k :: 0 <= k < |run| ==> IsSpace(run[k]) == space
    ensures SkipWhile(More(run, end), space) == Ended(end)
  {
    if run != [] { SkipWhileToEnd(run[1..], end, space); }
  }
}
