/** Decimal numbers in text: `%03d` and `%d` of the C library, and Python's `int`. */
module Decimal {
  import opened Text

  predicate IsDigit(c: char) { '0' <= c <= '9' }

  predicate AllDigits(s: string) { forall k :: 0 <= k < |s| ==> IsDigit(s[k]) }

  function Digits(n: nat): (r: string)
    ensures r != "" && AllDigits(r)
    ensures n < 10 <==> |r| == 1
    ensures n < 100 <==> |r| <= 2
    ensures n < 1000 <==> |r| <= 3
  {
    if n < 10 then ['0' + n as char] else Digits(n / 10) + ['0' + (n % 10) as char]
  }

  function Zeros(n: nat): (r: string)
    ensures |r| == n && AllDigits(r)
    ensures forall k :: 0 <= k < n ==> r[k] == '0'
  {
    seq(n, _ => '0')
  }

  function PadZero(s: string, w: nat): string {
    if |s| < w then Zeros(w - |s|) + s else s
  }

  /** `%03d`: a minus sign counts towards the width. */
  function Fmt03(v: int): string {
    if v >= 0 then PadZero(Digits(v), 3) else "-" + PadZero(Digits(-v), 2)
  }

  /** The field is three characters wide exactly for -99 to 999. */
  lemma Fmt03WidthIff(v: int)
    ensures |Fmt03(v)| == 3 <==> -99 <= v <= 999
  {
  }

  function Value(s: string): nat
    requires AllDigits(s)
  {
    if s == "" then 0 else 10 * Value(s[..|s| - 1]) + (s[|s| - 1] as int - '0' as int)
  }

  lemma {:induction false} ValueOfDigits(n: nat)
    ensures Value(Digits(n)) == n
  {
    if n >= 10 {
      ValueOfDigits(n / 10);
      assert Digits(n)[..|Digits(n)| - 1] == Digits(n / 10);
    }
  }

  lemma {:induction false} LeadingZeros(k: nat, s: string)
    requires AllDigits(s)
    ensures Value(Zeros(k) + s) == Value(s)
  {
    if s == "" {
      assert Zeros(k) + s == Zeros(k);
      if k > 0 {
        assert Zeros(k)[..k - 1] == Zeros(k - 1);
        LeadingZeros(k - 1, s);
        assert Zeros(k - 1) + s == Zeros(k - 1);
      }
    } else {
      assert (Zeros(k) + s)[..k + |s| - 1] == Zeros(k) + s[..|s| - 1];
      LeadingZeros(k, s[..|s| - 1]);
    }
  }

  lemma ValuePadded(n: nat, w: nat)
    ensures AllDigits(PadZero(Digits(n), w)) && Value(PadZero(Digits(n), w)) == n
  {
    ValueOfDigits(n);
    if |Digits(n)| < w { LeadingZeros(w - |Digits(n)|, Digits(n)); }
  }

  function DigitLen(s: string): (n: nat)
    ensures n <= |s| && forall k :: 0 <= k < n ==> IsDigit(s[k])
  {
    if s == "" || !IsDigit(s[0]) then 0 else 1 + DigitLen(s[1..])
  }

  datatype ScannedInt = NoInt | Int(value: int, rest: string)

  function ScanNat(s: string): (r: ScannedInt)
    ensures r.Int? ==> |r.rest| < |s|
  {
    var n := DigitLen(s);
    if n == 0 then NoInt else Int(Value(s[..n]), s[n..])
  }

  /** An optional sign, then digits. */
  function ScanSigned(s: string): (r: ScannedInt)
    ensures r.Int? ==> |r.rest| < |s|
  {
    if s != "" && s[0] == '+' then ScanNat(s[1..])
    else if s != "" && s[0] == '-' then
      var r := ScanNat(s[1..]);
      if r.Int? then r.(value := -r.value) else r
    else ScanNat(s)
  }

  /** `%d`: blanks are skipped first. */
  function ScanInt(s: string): (r: ScannedInt)
    ensures r.Int? ==> |r.rest| < |s|
  {
    ScanSigned(SkipBlanks(s))
  }

  lemma {:induction false} DigitLenIs(d: string, rest: string)
    requires AllDigits(d) && (rest == "" || !IsDigit(rest[0]))
    ensures DigitLen(d + rest) == |d|
  {
    if d == "" {
      assert d + rest == rest;
    } else {
      assert (d + rest)[1..] == d[1..] + rest;
      DigitLenIs(d[1..], rest);
    }
  }

  lemma ScanDigits(d: string, rest: string)
    requires d != "" && AllDigits(d) && (rest == "" || !IsDigit(rest[0]))
    ensures ScanNat(d + rest) == Int(Value(d), rest)
  {
    DigitLenIs(d, rest);
    assert (d + rest)[..|d|] == d && (d + rest)[|d|..] == rest;
  }

  lemma SignedScansBack(v: int, rest: string)
    requires rest == "" || !IsDigit(rest[0])
    ensures ScanSigned(Fmt03(v) + rest) == Int(v, rest)
  {
    hide ScanNat, PadZero, Value, AllDigits, Digits;
    if v >= 0 {
      ValuePadded(v, 3);
      PaddedNonEmpty(v, 3);
      ScanDigits(Fmt03(v), rest);
      assert (Fmt03(v) + rest)[0] == Fmt03(v)[0];
    } else {
      ValuePadded(-v, 2);
      PaddedNonEmpty(-v, 2);
      var d := PadZero(Digits(-v), 2);
      ScanDigits(d, rest);
      assert (Fmt03(v) + rest)[0] == '-' && (Fmt03(v) + rest)[1..] == d + rest;
    }
  }

  lemma PaddedNonEmpty(n: nat, w: nat)
    ensures PadZero(Digits(n), w) != "" && IsDigit(PadZero(Digits(n), w)[0])
  {
  }

  /** What `%03d` prints, `%d` reads back, for every integer. */
  lemma PrintedIntScansBack(b: string, v: int, rest: string)
    requires AllBlank(b) && (rest == "" || !IsDigit(rest[0]))
    ensures ScanInt(b + Fmt03(v) + rest) == Int(v, rest)
  {
    hide ScanSigned;
    var t := Fmt03(v) + rest;
    assert b + Fmt03(v) + rest == b + t;
    SkipBlanksOver(b, t);
    Fmt03IsWord(v);
    assert t[0] == Fmt03(v)[0] && SkipBlanks(t) == t;
    SignedScansBack(v, rest);
  }

  lemma Fmt03IsWord(v: int)
    ensures Fmt03(v) != "" && NoBlank(Fmt03(v))
  {
    assert forall c: char :: IsDigit(c) ==> !IsBlank(c);
    var d := if v >= 0 then PadZero(Digits(v), 3) else PadZero(Digits(-v), 2);
    assert AllDigits(d);
  }

  // ----- Python's int() -----

  datatype PyInt = ValueError | IntValue(v: int)

  /** `int(text)`: blanks around an optional sign and digits; anything else is a ValueError. */
  function ParseInt(text: string): PyInt {
    match ScanInt(text)
    case NoInt => ValueError
    case Int(v, rest) => if SkipBlanks(rest) == "" then IntValue(v) else ValueError
  }

  lemma PrintedIntParses(v: int)
    ensures ParseInt(Fmt03(v)) == IntValue(v)
  {
    PrintedIntScansBack("", v, "");
    assert "" + Fmt03(v) + "" == Fmt03(v);
  }

  /** The grammar of `int`: blanks, an optional sign, one or more digits, blanks. */
  predicate Writes(text: string, before: string, sign: string, digits: string, behind: string, v: int) {
    && text == before + (sign + (digits + behind)) && AllBlank(before) && AllBlank(behind)
    && sign in {"", "+", "-"} && digits != "" && AllDigits(digits)
    && (if sign == "-" then -v else v) == Value(digits)
  }

  /** A text is taken for the number v if and only if it is written so. Anything else is a ValueError. */
  lemma ParseIntIff(text: string, v: int)
    ensures ParseInt(text) == IntValue(v) <==>
            exists before, sign, digits, behind :: Writes(text, before, sign, digits, behind, v)
  {
    hide Writes, ParseInt;
    if ParseInt(text) == IntValue(v) {
      var before, sign, digits, behind := ParsedIsWritten(text, v);
    }
    if before, sign, digits, behind :| Writes(text, before, sign, digits, behind, v) {
      WrittenParses(text, before, sign, digits, behind, v);
    }
  }

  lemma WrittenParses(text: string, before: string, sign: string, digits: string, behind: string, v: int)
    requires Writes(text, before, sign, digits, behind, v)
    ensures ParseInt(text) == IntValue(v)
  {
    hide Value, ScanNat;
    assert forall c: char :: IsDigit(c) ==> !IsBlank(c) && c != '-' && c != '+';
    var rest := digits + behind;
    SkipBlanksOver(before, sign + rest);
    assert rest[0] == digits[0] && (sign == "" ==> sign + rest == rest);
    assert sign != "" ==> (sign + rest)[0] == sign[0] && (sign + rest)[1..] == rest;
    ScanDigits(digits, behind);
    SkipBlanksOver(behind, "");
    assert behind + "" == behind;
  }

  lemma {:induction false} BlanksSkipped(s: string) returns (before: string)
    ensures AllBlank(before) && s == before + SkipBlanks(s)
  {
    if s == "" || !IsBlank(s[0]) {
      before := "";
    } else {
      var tail := BlanksSkipped(s[1..]);
      before := [s[0]] + tail;
    }
  }

  lemma NatScanned(s: string) returns (digits: string)
    requires ScanNat(s).Int?
    ensures digits != "" && AllDigits(digits) && s == digits + ScanNat(s).rest && ScanNat(s).value == Value(digits)
  {
    digits := s[..DigitLen(s)];
  }

  lemma ParsedIsWritten(text: string, v: int)
    returns (before: string, sign: string, digits: string, behind: string)
    requires ParseInt(text) == IntValue(v)
    ensures Writes(text, before, sign, digits, behind, v)
  {
    hide Value, ScanNat;
    before := BlanksSkipped(text);
    var t := SkipBlanks(text);
    sign := if t != "" && t[0] in {'+', '-'} then [t[0]] else "";
    var u := t[|sign|..];
    digits := NatScanned(u);
    behind := ScanNat(u).rest;
    var none := BlanksSkipped(behind);
    assert behind == none + "";
    assert t == sign + u;
  }
}
