/** C strings and text streams, as far as the schedule and brightness files need them.
    A `string` stands for the characters before the terminating NUL. */
module Text {

  /** The characters `isspace` accepts in the C locale; Python's `split` uses the same ones. */
  predicate IsBlank(c: char) {
    c == ' ' || c == '\t' || c == '\n' || c == '\r' || c == 11 as char || c == 12 as char
  }

  predicate AllBlank(s: string) { forall k :: 0 <= k < |s| ==> IsBlank(s[k]) }

  predicate NoBlank(s: string) { forall k :: 0 <= k < |s| ==> !IsBlank(s[k]) }

  // ----- strcmp, section 7.24.4.2 of ISO/IEC 9899:2011 -----

  function StrCmp(a: string, b: string): int {
    if a == [] && b == [] then 0
    else if a == [] then -1
    else if b == [] then 1
    else if a[0] != b[0] then a[0] as int - b[0] as int
    else StrCmp(a[1..], b[1..])
  }

  predicate Le(a: string, b: string) { StrCmp(a, b) <= 0 }

  lemma {:induction false} CmpZero(a: string, b: string)
    ensures StrCmp(a, b) == 0 <==> a == b
  {
    if a != [] && b != [] && a[0] == b[0] {
      CmpZero(a[1..], b[1..]);
      assert a == [a[0]] + a[1..] && b == [b[0]] + b[1..];
    }
  }

  lemma {:induction false} CmpSwap(a: string, b: string)
    ensures StrCmp(a, b) < 0 <==> StrCmp(b, a) > 0
    ensures Le(a, b) || Le(b, a)
  {
    if a != [] && b != [] && a[0] == b[0] {
      CmpSwap(a[1..], b[1..]);
    }
  }

  lemma {:induction false} LeTrans(a: string, b: string, c: string)
    requires Le(a, b) && Le(b, c)
    ensures Le(a, c)
    ensures StrCmp(a, b) < 0 || StrCmp(b, c) < 0 ==> StrCmp(a, c) < 0
  {
    if a != [] && b != [] && c != [] && a[0] == b[0] == c[0] {
      LeTrans(a[1..], b[1..], c[1..]);
    }
  }

  lemma LeAntisym(a: string, b: string)
    requires Le(a, b) && Le(b, a)
    ensures a == b
  {
    CmpSwap(a, b);
    CmpZero(a, b);
  }

  /** Comparing concatenations whose first halves have equal length is comparing pairs. */
  lemma {:induction false} CmpConcat(a: string, b: string, x: string, y: string)
    requires |a| == |b|
    ensures StrCmp(a + x, b + y) == if a == b then StrCmp(x, y) else StrCmp(a, b)
  {
    if a == [] {
      assert a + x == x && b + y == y;
    } else {
      assert (a + x)[1..] == a[1..] + x && (b + y)[1..] == b[1..] + y;
      assert a == [a[0]] + a[1..] && b == [b[0]] + b[1..];
      CmpConcat(a[1..], b[1..], x, y);
      CmpZero(a, b);
    }
  }

  // ----- fprintf padding, section 7.21.6.1 -----

  function Spaces(n: nat): (r: string)
    ensures |r| == n && AllBlank(r)
    ensures forall k :: 0 <= k < n ==> r[k] == ' '
  {
    seq(n, _ => ' ')
  }

  /** `%ws`: at least w characters, padded on the left. */
  function PadLeft(s: string, w: nat): string {
    if |s| < w then Spaces(w - |s|) + s else s
  }

  /** `%-ws`: at least w characters, padded on the right. */
  function PadRight(s: string, w: nat): string {
    if |s| < w then s + Spaces(w - |s|) else s
  }

  /** Nothing is cut off, and nothing is padded beyond the width; the padding is spaces, on the side the flag says. */
  lemma Padded(s: string, w: nat)
    ensures |PadLeft(s, w)| == |PadRight(s, w)| == if |s| < w then w else |s|
    ensures var r := PadLeft(s, w);
      |s| <= |r| && r[|r| - |s|..] == s && forall k :: 0 <= k < |r| - |s| ==> r[k] == ' '
    ensures var r := PadRight(s, w); |s| <= |r| && r[..|s|] == s && forall k :: |s| <= k < |r| ==> r[k] == ' '
  {
  }

  // ----- fscanf, section 7.21.6.2 -----

  function SkipBlanks(s: string): (r: string)
    ensures |r| <= |s| && (r == [] || !IsBlank(r[0]))
  {
    if s == [] || !IsBlank(s[0]) then s else SkipBlanks(s[1..])
  }

  /** The length of the longest blank-free prefix of at most `width` characters. */
  function WordLen(s: string, width: nat): (n: nat)
    ensures n <= |s| && n <= width
  {
    if s == [] || width == 0 || IsBlank(s[0]) then 0 else 1 + WordLen(s[1..], width - 1)
  }

  datatype Scanned = NoInput | Word(word: string, rest: string)

  /** `%ws`: skip blanks, then take up to w non-blank characters. Nothing left is an input failure. */
  function ScanWord(s: string, width: nat): (r: Scanned)
    requires width > 0
    ensures r.Word? ==> 0 < |r.word| <= width && |r.rest| + |r.word| <= |s|
  {
    var t := SkipBlanks(s);
    if t == [] then NoInput else Word(t[..WordLen(t, width)], t[WordLen(t, width)..])
  }

  /** `%s`: no width limit. */
  function ScanAnyWord(s: string): (r: Scanned)
    ensures r.Word? ==> 0 < |r.word| && |r.rest| + |r.word| <= |s|
  {
    ScanWord(s, |s| + 1)
  }

  lemma {:induction false} WordHasNoBlank(s: string, width: nat)
    ensures NoBlank(s[..WordLen(s, width)])
  {
    if s != [] && width > 0 && !IsBlank(s[0]) {
      WordHasNoBlank(s[1..], width - 1);
      assert s[..WordLen(s, width)] == [s[0]] + s[1..][..WordLen(s[1..], width - 1)];
    }
  }

  lemma ScannedWordHasNoBlank(s: string, width: nat)
    requires width > 0
    ensures ScanWord(s, width).Word? ==> NoBlank(ScanWord(s, width).word)
    ensures ScanAnyWord(s).Word? ==> NoBlank(ScanAnyWord(s).word)
  {
    WordHasNoBlank(SkipBlanks(s), width);
    WordHasNoBlank(SkipBlanks(s), |s| + 1);
  }

  lemma {:induction false} SkipBlanksOver(b: string, s: string)
    requires AllBlank(b)
    ensures SkipBlanks(b + s) == SkipBlanks(s)
  {
    if b == [] {
      assert b + s == s;
    } else {
      assert (b + s)[1..] == b[1..] + s;
      SkipBlanksOver(b[1..], s);
    }
  }

  /** A leading newline makes no difference to a scan, nor do any other blanks. */
  lemma ScanPastBlanks(b: string, s: string)
    requires AllBlank(b)
    ensures ScanAnyWord(b + s) == ScanAnyWord(s)
    ensures forall width :: width > 0 ==> ScanWord(b + s, width) == ScanWord(s, width)
  {
    SkipBlanksOver(b, s);
    WordLenWide(SkipBlanks(s), |s| + 1, |b + s| + 1);
  }

  lemma {:induction false} WordLenWide(s: string, v: nat, w: nat)
    requires |s| <= v && |s| <= w
    ensures WordLen(s, v) == WordLen(s, w)
  {
    if s != [] { WordLenWide(s[1..], v - 1, w - 1); }
  }

  lemma {:induction false} WordLenIs(w: string, rest: string, width: nat)
    requires NoBlank(w) && |w| <= width
    requires |w| == width || rest == [] || IsBlank(rest[0])
    ensures WordLen(w + rest, width) == |w|
  {
    if w == [] {
      assert w + rest == rest;
    } else {
      assert (w + rest)[1..] == w[1..] + rest;
      WordLenIs(w[1..], rest, width - 1);
    }
  }

  /** A conversion reads back a word that stands after blanks and ends at its width, at a blank or at the end. */
  lemma ScanBack(b: string, w: string, rest: string, width: nat)
    requires AllBlank(b) && w != [] && NoBlank(w) && |w| <= width
    requires |w| == width || rest == [] || IsBlank(rest[0])
    ensures ScanWord(b + w + rest, width) == Word(w, rest)
  {
    var t := w + rest;
    assert b + w + rest == b + t;
    SkipBlanksOver(b, t);
    WordLenIs(w, rest, width);
    assert t[..|w|] == w && t[|w|..] == rest;
  }

  /** A word longer than the width is cut there, and the rest of it stays for the next conversion. */
  lemma LongWordIsCut(b: string, w: string, rest: string, width: nat)
    requires AllBlank(b) && NoBlank(w) && 0 < width < |w|
    ensures ScanWord(b + w + rest, width) == Word(w[..width], w[width..] + rest)
  {
    assert b + w + rest == b + w[..width] + (w[width..] + rest);
    ScanBack(b, w[..width], w[width..] + rest, width);
  }

  lemma ScanBackAny(b: string, w: string, rest: string)
    requires AllBlank(b) && w != [] && NoBlank(w)
    requires rest == [] || IsBlank(rest[0])
    ensures ScanAnyWord(b + w + rest) == Word(w, rest)
  {
    ScanBack(b, w, rest, |b + w + rest| + 1);
  }

  // ----- readline and split, as the light controller uses them -----

  /** The length of the first line, its newline included. */
  function LineLen(s: string): (n: nat)
    ensures n <= |s|
    ensures s != [] ==> n > 0
    ensures forall k :: 0 <= k < n - 1 ==> s[k] != '\n'
    ensures n == |s| || (n > 0 && s[n - 1] == '\n')
  {
    if s == [] then 0 else if s[0] == '\n' then 1 else 1 + LineLen(s[1..])
  }

  lemma LineLenIs(line: string, rest: string)
    requires forall k :: 0 <= k < |line| ==> line[k] != '\n'
    ensures LineLen(line + "\n" + rest) == |line| + 1
  {
    var s := line + "\n" + rest;
    assert s[|line|] == '\n';
    assert forall k :: 0 <= k < |line| ==> s[k] == line[k];
  }

  /** Python's `split()`: the blank-free words of s. */
  function Split(s: string): seq<string>
    decreases |s|
  {
    match ScanAnyWord(s)
    case NoInput => []
    case Word(w, rest) => [w] + Split(rest)
  }

  lemma SplitBlank(s: string)
    requires AllBlank(s)
    ensures Split(s) == []
  {
    SkipBlanksOver(s, "");
    assert s + "" == s;
  }

  lemma {:induction false} SplitOne(b: string, w: string, rest: string)
    requires AllBlank(b) && w != [] && NoBlank(w)
    requires rest == [] || IsBlank(rest[0])
    ensures Split(b + w + rest) == [w] + Split(rest)
  {
    ScanBackAny(b, w, rest);
  }

  // ----- overwriting a file in place -----

  /** The file after writing `text` at position `pos`, with nothing truncated. */
  function Overwrite(file: string, pos: nat, text: string): (r: string)
    requires pos <= |file|
    ensures |r| == if pos + |text| < |file| then |file| else pos + |text|
  {
    file[..pos] + text + if pos + |text| < |file| then file[pos + |text|..] else ""
  }

  lemma OverwriteTwice(file: string, pos: nat, x: string, y: string)
    requires pos <= |file|
    ensures Overwrite(Overwrite(file, pos, x), pos + |x|, y) == Overwrite(file, pos, x + y)
  {
  }

  /** Overwriting from the start leaves exactly the text if and only if the file was no longer than it. */
  lemma NoStaleTailIff(file: string, text: string)
    ensures Overwrite(file, 0, text) == text <==> |file| <= |text|
  {
  }
}
