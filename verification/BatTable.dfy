/** What `parsebat` computes, on the bytes a descriptor delivers: a pure parser for the table
    that `batctl n` prints, and the grammar of that table. */
module BatTable {

  type byte = b: int | 0 <= b < 256

  const NEWLINE: byte := 10
  const MAC_LEN := 17
  const EINVAL := 22

  /** The parser's own `isspace`: newline, space, tab, vertical tab, carriage return, and no form feed. */
  predicate IsSpace(ch: int) {
    ch == 10 || ch == 32 || ch == 9 || ch == 11 || ch == 13
  }

  predicate AllSpace(s: seq<byte>) { forall k :: 0 <= k < |s| ==> IsSpace(s[k]) }

  predicate NoSpace(s: seq<byte>) { forall k :: 0 <= k < |s| ==> !IsSpace(s[k]) }

  /** How a stream ends: end of file, or a failing read with its negative code. */
  datatype Ending = EndOfFile | ReadError(code: int)

  /** A plain cursor: the bytes still to come and the ending behind them, or the ending once reached.
      Reaching it is sticky. */
  datatype Cursor = More(rest: seq<byte>, end: Ending) | Ended(end: Ending)

  function Size(c: Cursor): nat { if c.More? then 1 + |c.rest| else 0 }

  /** The byte the next read delivers, -1 at the ending. */
  function Peek(c: Cursor): int {
    if c.More? && c.rest != [] then c.rest[0] else -1
  }

  /** The cursor after one read. */
  function Next(c: Cursor): Cursor {
    match c
    case Ended(_) => c
    case More(s, e) => if s == [] then Ended(e) else More(s[1..], e)
  }

  function SkipLine(c: Cursor): (r: Cursor)
    ensures Size(r) <= Size(c) && r.end == c.end
    decreases Size(c)
  {
    if Peek(c) == -1 || Peek(c) == NEWLINE then Next(c) else SkipLine(Next(c))
  }

  /** Skip bytes while `IsSpace` is `space`; the first other byte stays unread. */
  function SkipWhile(c: Cursor, space: bool): (r: Cursor)
    ensures Size(r) <= Size(c) && r.end == c.end
    ensures r.More? ==> r.rest != [] && IsSpace(r.rest[0]) != space
    decreases Size(c)
  {
    if Peek(c) == -1 then Next(c)
    else if IsSpace(Peek(c)) != space then c
    else SkipWhile(Next(c), space)
  }

  /** Where a parse stops. */
  datatype Stop = InHeader | InRow | AfterRow | Full

  /** The MACs stored, where the parse stopped, and the cursor there. */
  datatype Outcome = Outcome(macs: seq<seq<byte>>, stop: Stop, at: Cursor) {
    /** The value the call returns. */
    function Ret(): int {
      match at
      case Ended(ReadError(code)) => code
      case Ended(EndOfFile) => if stop == InRow then -EINVAL else |macs|
      case More(_, _) => |macs|
    }

    function Prepend(before: seq<seq<byte>>): Outcome {
      Outcome(before + macs, stop, at)
    }
  }

  /** The cursor at a row's MAC, or ended. */
  function ToMac(c: Cursor): (r: Cursor)
    ensures Size(r) <= Size(c) && r.end == c.end
    ensures r.More? ==> r.rest != [] && !IsSpace(r.rest[0])
  {
    SkipWhile(SkipWhile(SkipWhile(c, true), false), true)
  }

  /** One row: broken off before its MAC was complete, or read, with the cursor one byte into the next line. */
  datatype RowRead = Broken(at: Cursor) | Read(mac: seq<byte>, at: Cursor)

  function ReadRow(c: Cursor): (r: RowRead)
    ensures r.at.end == c.end
    ensures r.Broken? ==> r.at.Ended?
    ensures r.Read? ==> |r.mac| == MAC_LEN
  {
    var m := ToMac(c);
    if m.Ended? then Broken(m)
    else if |m.rest| < MAC_LEN then Broken(Ended(m.end))
    else Read(m.rest[..MAC_LEN], Next(SkipLine(More(m.rest[MAC_LEN..], m.end))))
  }

  function Rows(c: Cursor, ndev: int, maxdev: int): Outcome
    decreases maxdev - ndev
  {
    if ndev >= maxdev then Outcome([], Full, c)
    else match ReadRow(c)
      case Broken(at) => Outcome([], InRow, at)
      case Read(mac, at) =>
        if at.Ended? then Outcome([mac], AfterRow, at)
        else Rows(at, ndev + 1, maxdev).Prepend([mac])
  }

  lemma RowsStart(c: Cursor, ndev: int, maxdev: int)
    ensures Rows(c, ndev, maxdev).Prepend([]) == Rows(c, ndev, maxdev)
  {
    hide Rows;
    assert [] + Rows(c, ndev, maxdev).macs == Rows(c, ndev, maxdev).macs;
  }

  lemma RowsFull(c: Cursor, ndev: int, maxdev: int, macs: seq<seq<byte>>)
    requires ndev >= maxdev
    ensures Rows(c, ndev, maxdev).Prepend(macs) == Outcome(macs, Full, c)
  {
  }

  lemma RowsStep(c: Cursor, ndev: int, maxdev: int, macs: seq<seq<byte>>)
    requires ndev < maxdev
    ensures Rows(c, ndev, maxdev).Prepend(macs) ==
            match ReadRow(c)
            case Broken(at) => Outcome(macs, InRow, at)
            case Read(mac, at) =>
              if at.Ended? then Outcome(macs + [mac], AfterRow, at)
              else Rows(at, ndev + 1, maxdev).Prepend(macs + [mac])
  {
    if ReadRow(c).Read? {
      var o := Rows(ReadRow(c).at, ndev + 1, maxdev);
      assert macs + ([ReadRow(c).mac] + o.macs) == macs + [ReadRow(c).mac] + o.macs;
    }
  }

  /** Past two header lines and one more byte. */
  function Header(c: Cursor): (r: Cursor)
    ensures r.end == c.end
  {
    var body := SkipLine(SkipLine(c));
    if body.Ended? then body else Next(body)
  }

  function Parse(c: Cursor, maxdev: int): Outcome {
    var body := Header(c);
    if body.Ended? then Outcome([], InHeader, body) else Rows(body, 0, maxdev)
  }
}
