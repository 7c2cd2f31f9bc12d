/** The one-character reader over a refillable block buffer, and the system call built on it. */
module ParseBat {
  import opened BatTable

  const PIPE_BUF := 4096

  datatype State = BufOk | BufEof | BufErr

  /** What one `sys_read` gives: a block (an empty one is end of file) or a negative code. */
  datatype ReadResult = Data(block: seq<byte>) | Fail(code: int)

  ghost predicate Readable(source: seq<ReadResult>) {
    forall r <- source :: if r.Data? then |r.block| <= PIPE_BUF else r.code < 0
  }

  /** The bytes and the ending that a run of reads amounts to; past its last result the descriptor is at end of file. */
  function Stream(source: seq<ReadResult>): (c: Cursor)
    ensures c.More?
  {
    if source == [] then More([], EndOfFile)
    else match source[0]
      case Fail(code) => More([], ReadError(code))
      case Data(block) =>
        if block == [] then More([], EndOfFile)
        else
          var tail := Stream(source[1..]);
          More(block + tail.rest, tail.end)
  }

  class Reader {
    const buf: array<byte>
    var bufsize: int
    var offset: int
    var state: State
    var source: seq<ReadResult>  // what the descriptor will still deliver

    ghost predicate Valid()
      reads this
    {
      && buf.Length == PIPE_BUF
      && Readable(source)
      && (state.BufOk? ==> 0 <= offset <= bufsize <= PIPE_BUF)
      && (state.BufErr? ==> bufsize < 0)
    }

    /** The plain cursor this reader stands for. */
    ghost function View(): (c: Cursor)
      requires Valid()
      reads this, buf
      ensures c.More? == state.BufOk?
    {
      match state
      case BufOk => More(buf[offset..bufsize] + Stream(source).rest, Stream(source).end)
      case BufEof => Ended(EndOfFile)
      case BufErr => Ended(ReadError(bufsize))
    }

    constructor (source: seq<ReadResult>)
      requires Readable(source)
      ensures Valid() && fresh(buf) && View() == Stream(source)
    {
      buf := new byte[PIPE_BUF];
      bufsize, offset, state := 0, 0, BufOk;
      this.source := source;
    }

    /** `sys_read(fd, buf, sizeof buf)`. */
    method SysRead() returns (n: int)
      requires buf.Length == PIPE_BUF && Readable(source)
      modifies this`source, buf
      ensures Readable(source) && n <= PIPE_BUF
      ensures n > 0 ==> Stream(old(source)) == More(buf[..n] + Stream(source).rest, Stream(source).end)
      ensures n == 0 ==> Stream(old(source)) == More([], EndOfFile)
      ensures n < 0 ==> Stream(old(source)) == More([], ReadError(n))
    {
      if source == [] { return 0; }
      var r := source[0];
      source := source[1..];
      match r
      case Fail(code) => n := code;
      case Data(block) =>
        n := |block|;
        forall k | 0 <= k < n { buf[k] := block[k]; }
        assert buf[..n] == block;
    }

    method ParsebatReset()
      requires buf.Length == PIPE_BUF && Readable(source)
      modifies this`bufsize, this`offset, this`state
      ensures Valid() && View() == Stream(source)
    {
      bufsize, offset, state := 0, 0, BufOk;
    }

    /** One character, or -1. After a character, stepping `offset` back is safe and gives it back. */
    method GetcharFromFd() returns (ch: int)
      requires Valid()
      modifies this, buf
      ensures Valid()
      ensures ch == Peek(old(View())) && View() == Next(old(View()))
      ensures ch != -1 ==> state.BufOk? && offset > 0 && buf[offset - 1] == ch
      ensures !old(state.BufOk?) ==> bufsize == old(bufsize)
    {
      hide Stream, Readable;
      if !state.BufOk? { return -1; }
      ghost var before := View();
      if offset == bufsize {
        var n := SysRead();
        bufsize := n;
        if bufsize == 0 {
          state := BufEof;
          return -1;
        } else if bufsize < 0 {
          state := BufErr;
          return -1;
        }
        offset := 0;
      }
      assert before.rest == buf[offset..bufsize] + Stream(source).rest;
      ch := buf[offset];
      offset := offset + 1;
    }

    method SkipLines(n: nat)
      requires Valid()
      modifies this, buf
      ensures Valid() && View() == SkipLineTimes(old(View()), n)
    {
      var left := n;
      while left > 0
        invariant Valid() && 0 <= left <= n
        invariant SkipLineTimes(old(View()), n) == SkipLineTimes(View(), left)
      {
        left := left - 1;
        ghost var start := View();
        var ch := GetcharFromFd();
        while ch != NEWLINE
          invariant Valid()
          invariant ch != -1 ==> state.BufOk?
          invariant ch == -1 ==> View().Ended? && SkipLine(start) == View()
          invariant ch == NEWLINE ==> SkipLine(start) == View()
          invariant ch != -1 && ch != NEWLINE ==> SkipLine(start) == SkipLine(View())
          decreases Size(View())
        {
          if ch == -1 {
            EndedIsSticky(View(), left);
            return;
          }
          ch := GetcharFromFd();
        }
      }
    }

    /** `offset--`: the character just read is unread. */
    method StepBack(ghost before: Cursor)
      requires Valid() && state.BufOk? && offset > 0
      requires Peek(before) == buf[offset - 1] && View() == Next(before)
      modifies this`offset
      ensures Valid() && View() == before
    {
      offset := offset - 1;
      assert buf[offset..bufsize] == [buf[offset]] + buf[offset + 1..bufsize];
      assert before.rest == [before.rest[0]] + before.rest[1..];
    }

    method SkipSpace()
      requires Valid()
      modifies this, buf
      ensures Valid() && View() == SkipWhile(old(View()), true)
    {
      ghost var start := View();
      ghost var before := start;
      var ch := GetcharFromFd();
      while ch != -1 && IsSpace(ch)
        invariant Valid()
        invariant ch == Peek(before) && View() == Next(before)
        invariant ch != -1 ==> state.BufOk? && offset > 0 && buf[offset - 1] == ch
        invariant SkipWhile(start, true) == SkipWhile(before, true)
        decreases Size(before)
      {
        before := View();
        ch := GetcharFromFd();
      }
      if ch != -1 {
        StepBack(before);
      }
    }

    method SkipNospace()
      requires Valid()
      modifies this, buf
      ensures Valid() && View() == SkipWhile(old(View()), false)
    {
      ghost var start := View();
      ghost var before := start;
      var ch := GetcharFromFd();
      while ch != -1 && !IsSpace(ch)
        invariant Valid()
        invariant ch == Peek(before) && View() == Next(before)
        invariant ch != -1 ==> state.BufOk? && offset > 0 && buf[offset - 1] == ch
        invariant SkipWhile(start, false) == SkipWhile(before, false)
        decreases Size(before)
      {
        before := View();
        ch := GetcharFromFd();
      }
      if ch != -1 {
        StepBack(before);
      }
    }

    /** The three skips that start a row, each followed by its check. */
    method SkipToMac() returns (ok: bool)
      requires Valid()
      modifies this, buf
      ensures Valid() && View() == ToMac(old(View()))
      ensures ok == View().More? == state.BufOk?
    {
      SkipSpace();
      if !state.BufOk? { return false; }
      SkipNospace();
      if !state.BufOk? { return false; }
      SkipSpace();
      ok := state.BufOk?;
    }

    /** Writes the next 17 characters and a NUL into `devinfo[row].mac`; the NUL only if all 17 came. */
    method ReadMac(row: nat, devinfo: array2<byte>) returns (ok: bool)
      requires Valid() && View().More?
      requires row < devinfo.Length0 && devinfo.Length1 == MAC_LEN + 1
      modifies this, buf, devinfo
      ensures Valid() && ok == (|old(View()).rest| >= MAC_LEN)
      ensures ok ==> View() == More(old(View()).rest[MAC_LEN..], old(View()).end)
      ensures ok ==> Cells(devinfo, row) == old(View()).rest[..MAC_LEN] + [0]
      ensures !ok ==> View() == Ended(old(View()).end)
      ensures !ok ==> Cells(devinfo, row)[MAC_LEN] == old(Cells(devinfo, row))[MAC_LEN]
      ensures forall i :: 0 <= i < devinfo.Length0 && i != row ==> Cells(devinfo, i) == old(Cells(devinfo, i))
    {
      ghost var start := View();
      for i := 0 to MAC_LEN
        invariant Valid() && i <= |start.rest|
        invariant View() == More(start.rest[i..], start.end)
        invariant forall j :: 0 <= j < i ==> devinfo[row, j] == start.rest[j]
        invariant devinfo[row, MAC_LEN] == old(devinfo[row, MAC_LEN])
        invariant forall i, j :: 0 <= i < devinfo.Length0 && i != row && 0 <= j <= MAC_LEN ==>
          devinfo[i, j] == old(devinfo[i, j])
      {
        var ch := GetcharFromFd();
        if !state.BufOk? { return false; }
        ghost var view := View();
        devinfo[row, i] := ch;
        assert View() == view;
      }
      ghost var view := View();
      devinfo[row, MAC_LEN] := 0;
      assert View() == view;
      return true;
    }

    /** One pass of the row loop. */
    method ParseRow(row: nat, devinfo: array2<byte>) returns (ok: bool)
      requires Valid() && state.BufOk?
      requires row < devinfo.Length0 && devinfo.Length1 == MAC_LEN + 1
      modifies this, buf, devinfo
      ensures Valid() && View() == ReadRow(old(View())).at
      ensures ok == ReadRow(old(View())).Read?
      ensures ok ==> Cells(devinfo, row) == ReadRow(old(View())).mac + [0]
      ensures !ok ==> Cells(devinfo, row)[MAC_LEN] == old(Cells(devinfo, row))[MAC_LEN]
      ensures forall i :: 0 <= i < devinfo.Length0 && i != row ==> Cells(devinfo, i) == old(Cells(devinfo, i))
    {
      ok := SkipToMac();
      if !ok { return; }
      ok := ReadMac(row, devinfo);
      if !ok { return; }
      ghost var view := View();
      SkipLines(1);
      assert View() == SkipLineTimes(SkipLine(view), 0);
      var peek := GetcharFromFd();
    }

    /** What the call returns once the stream has ended. */
    function Result(atEnd: int): (r: int)
      requires Valid()
      reads this, buf
      ensures View().Ended? ==> r == match View().end case EndOfFile => atEnd case ReadError(code) => code
    {
      if state.BufErr? then bufsize else atEnd
    }

    /** The two header lines and the byte after them. */
    method SkipHeader()
      requires Valid()
      modifies this, buf
      ensures Valid() && View() == Header(old(View()))
    {
      ghost var start := View();
      SkipLines(2);
      assert View() == SkipLineTimes(SkipLine(SkipLine(start)), 0);
      if !state.BufOk? { return; }
      var peek := GetcharFromFd();
    }

    method ParseRows(maxdev: int, devinfo: array2<byte>) returns (ndev: int)
      requires Valid() && state.BufOk?
      requires maxdev <= devinfo.Length0 && devinfo.Length1 == MAC_LEN + 1
      modifies this, buf, devinfo
      ensures Valid()
      ensures var o := Rows(old(View()), 0, maxdev);
        ndev == o.Ret() && View() == o.at && Stored(devinfo, o.macs) && Untouched(devinfo, |o.macs|)
    {
      hide ReadRow, Rows, Valid, Result, View;
      RowsStart(View(), 0, maxdev);
      ghost var o := Rows(View(), 0, maxdev);
      ghost var macs: seq<seq<byte>> := [];
      ndev := 0;
      while ndev < maxdev
        invariant Valid() && state.BufOk? && 0 <= ndev == |macs|
        invariant o == Rows(View(), ndev, maxdev).Prepend(macs)
        invariant Stored(devinfo, macs)
        invariant Untouched(devinfo, ndev)
        decreases maxdev - ndev
      {
        RowsStep(View(), ndev, maxdev, macs);
        ghost var read := ReadRow(View());
        var ok := ParseRow(ndev, devinfo);
        if !ok {
          assert o == Outcome(macs, InRow, View());
          return Result(-EINVAL);
        }
        assert Stored(devinfo, macs + [read.mac]) && Untouched(devinfo, ndev + 1);
        ndev, macs := ndev + 1, macs + [read.mac];
        if !state.BufOk? { return Result(ndev); }
      }
      RowsFull(View(), ndev, maxdev, macs);
    }

    /** The system call: the table rows of `source`, at most `maxdev` of them, into `devinfo`.
        Row i of `devinfo` is `devinfo[i].mac`. Leftovers of an earlier call do not matter. */
    method Parsebat(maxdev: int, devinfo: array2<byte>) returns (ndev: int)
      requires buf.Length == PIPE_BUF && Readable(source)
      requires maxdev <= devinfo.Length0 && devinfo.Length1 == MAC_LEN + 1
      modifies this, buf, devinfo
      ensures Valid()
      ensures var o := Parse(Stream(old(source)), maxdev);
        ndev == o.Ret() && View() == o.at && Stored(devinfo, o.macs) && Untouched(devinfo, |o.macs|)
    {
      ParsebatReset();
      SkipHeader();
      if !state.BufOk? { return Result(0); }
      ndev := ParseRows(maxdev, devinfo);
    }
  }

  ghost function SkipLineTimes(c: Cursor, n: nat): Cursor
    decreases n
  {
    if n == 0 then c else SkipLineTimes(SkipLine(c), n - 1)
  }

  /** `devinfo[row].mac`, all 18 bytes. */
  ghost function Cells(devinfo: array2<byte>, row: int): (r: seq<byte>)
    requires 0 <= row < devinfo.Length0 && devinfo.Length1 == MAC_LEN + 1
    reads devinfo
    ensures |r| == MAC_LEN + 1
  {
    seq(MAC_LEN + 1, j requires 0 <= j <= MAC_LEN reads devinfo => devinfo[row, j])
  }

  /** The finished rows of `devinfo` are `macs`, NUL-terminated. */
  ghost predicate Stored(devinfo: array2<byte>, macs: seq<seq<byte>>)
    requires devinfo.Length1 == MAC_LEN + 1
    reads devinfo
  {
    |macs| <= devinfo.Length0 && forall i :: 0 <= i < |macs| ==> Cells(devinfo, i) == macs[i] + [0]
  }

  /** Nothing is written from row `row` on but, perhaps, the first 17 bytes of that row. */
  twostate predicate Untouched(devinfo: array2<byte>, row: int)
    requires devinfo.Length1 == MAC_LEN + 1 && row >= 0
    reads devinfo
  {
    && (row < devinfo.Length0 ==> Cells(devinfo, row)[MAC_LEN] == old(Cells(devinfo, row))[MAC_LEN])
    && forall i :: row < i < devinfo.Length0 ==> Cells(devinfo, i) == old(Cells(devinfo, i))
  }

  lemma {:induction false} EndedIsSticky(c: Cursor, n: nat)
    requires c.Ended?
    ensures SkipLineTimes(c, n) == c
  {
    if n > 0 { EndedIsSticky(c, n - 1); }
  }
}
