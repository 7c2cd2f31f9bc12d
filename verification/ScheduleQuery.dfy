/** "What am I studying now": the keys `output_schedtime` builds, the clock string, and the predecessor query. */
module ScheduleQuery {
  import opened Text
  import opened Decimal
  import opened ScheduleSort

  /** The C string in `buf[i]`: the date, and the time from offset 6 on. A date shorter than 6 ends the
      string before the time. */
  function Key(r: Schedule): string {
    if |r.date| < 6 then r.date else r.date + r.time
  }

  lemma {:induction false} CmpLonger(a: string, x: string, b: string)
    requires |a| > |b| && StrCmp(a, b) < 0
    ensures StrCmp(a + x, b) < 0
  {
    if a[0] == b[0] {
      assert (a + x)[1..] == a[1..] + x;
      CmpLonger(a[1..], x, b[1..]);
    }
  }

  lemma {:induction false} LePrefix(a: string, x: string)
    ensures Le(a, a + x)
  {
    if a != [] {
      assert (a + x)[1..] == a[1..] + x;
      LePrefix(a[1..], x);
    }
  }

  /** For six-character dates, comparing keys is comparing (date, time) pairs. */
  lemma KeyOrderIff(x: Schedule, y: Schedule)
    requires |x.date| == |y.date| == 6
    ensures Le(Key(x), Key(y)) <==> KeyLe(x, y)
  {
    CmpConcat(x.date, y.date, x.time, y.time);
    CmpZero(x.date, y.date);
  }

  /** `re_align`'s order never puts a greater key first, short dates included. */
  lemma KeyOrder(x: Schedule, y: Schedule)
    requires |x.date| <= 6 && |y.date| <= 6 && KeyLe(x, y)
    ensures Le(Key(x), Key(y))
  {
    CmpZero(x.date, y.date);
    if |x.date| == |y.date| == 6 {
      KeyOrderIff(x, y);
    } else if |x.date| < 6 {
      LePrefix(y.date, y.time);
      if |y.date| == 6 { LeTrans(x.date, y.date, y.date + y.time); }
    } else {
      CmpLonger(x.date, x.time, y.date);
    }
  }

  // ----- the clock string -----

  /** The fields of `struct tm` that the program prints. */
  datatype Tm = Tm(year: nat, mon: nat, mday: nat, hour: nat, min: nat) {
    predicate Valid() { mon < 12 && 1 <= mday <= 31 && hour < 24 && min < 60 }
  }

  function Digit(n: nat): char
    requires n < 10
  {
    '0' + n as char
  }

  /** `%02d` on a number below 100. */
  function TwoDigits(n: nat): string
    requires n < 100
  {
    [Digit(n / 10), Digit(n % 10)]
  }

  function NowTime(t: Tm): string
    requires t.Valid()
  {
    TwoDigits(t.year % 100) + (TwoDigits(t.mon + 1) + (TwoDigits(t.mday) + (TwoDigits(t.hour) + TwoDigits(t.min))))
  }

  /** The date and the time of r are those of t, in digits: year, month from 1 on, day, hour and minute. */
  predicate Prints(r: Schedule, t: Tm) {
    && |r.date| == 6 && AllDigits(r.date) && |r.time| == 4 && AllDigits(r.time)
    && Value(r.date[..2]) == t.year % 100 && Value(r.date[2..4]) == t.mon + 1 && Value(r.date[4..]) == t.mday
    && Value(r.time[..2]) == t.hour && Value(r.time[2..]) == t.min
  }

  lemma TwoDigitsIff(s: string, n: nat)
    requires |s| == 2 && n < 100
    ensures s == TwoDigits(n) <==> AllDigits(s) && Value(s) == n
  {
    hide Value;
    var t := TwoDigits(n);
    assert IsDigit(t[0]) && IsDigit(t[1]);
    ValueOfTwo(t);
    if AllDigits(s) {
      ValueOfTwo(s);
      assert s == [s[0], s[1]];
    }
  }

  lemma ValueOfTwo(s: string)
    requires |s| == 2 && AllDigits(s)
    ensures Value(s) == 10 * (s[0] as int - '0' as int) + (s[1] as int - '0' as int)
  {
    assert s[..1] == [s[0]] && s[..1][..0] == "";
    assert Value(s[..1]) == s[0] as int - '0' as int;
  }

  /** The clock string is the date and the time of t, and of no other moment. */
  lemma NowTimeIff(r: Schedule, t: Tm)
    requires t.Valid() && |r.date| == 6 && |r.time| == 4
    ensures Key(r) == NowTime(t) <==> Prints(r, t)
  {
    hide TwoDigits, Value, AllDigits;
    var d, c := r.date, r.time;
    TwoDigitsIff(d[..2], t.year % 100);
    TwoDigitsIff(d[2..4], t.mon + 1);
    TwoDigitsIff(d[4..], t.mday);
    TwoDigitsIff(c[..2], t.hour);
    TwoDigitsIff(c[2..], t.min);
    DigitsInPieces(d, c);
    var k := Key(r);
    assert k == d[..2] + (d[2..4] + (d[4..] + (c[..2] + c[2..])));
    var n := NowTime(t);
    assert k[..2] == d[..2] && k[2..4] == d[2..4] && k[4..6] == d[4..] && k[6..8] == c[..2] && k[8..] == c[2..];
    TwoDigitsLength();
    assert n[..2] == TwoDigits(t.year % 100) && n[2..4] == TwoDigits(t.mon + 1) && n[4..6] == TwoDigits(t.mday);
    assert n[6..8] == TwoDigits(t.hour) && n[8..] == TwoDigits(t.min);
  }

  lemma TwoDigitsLength()
    ensures forall n: nat :: n < 100 ==> |TwoDigits(n)| == 2
  {
  }

  lemma DigitsInPieces(d: string, c: string)
    requires |d| == 6 && |c| == 4
    ensures AllDigits(d) && AllDigits(c) <==>
      AllDigits(d[..2]) && AllDigits(d[2..4]) && AllDigits(d[4..]) && AllDigits(c[..2]) && AllDigits(c[2..])
  {
    if AllDigits(d[..2]) && AllDigits(d[2..4]) && AllDigits(d[4..]) && AllDigits(c[..2]) && AllDigits(c[2..]) {
      assert d == d[..2] + d[2..4] + d[4..] && c == c[..2] + c[2..];
    }
  }

  predicate Before(t: Tm, u: Tm) {
    if t.year != u.year then t.year < u.year
    else if t.mon != u.mon then t.mon < u.mon
    else if t.mday != u.mday then t.mday < u.mday
    else if t.hour != u.hour then t.hour < u.hour
    else t.min < u.min
  }

  lemma TwoDigitsOrder(m: nat, n: nat)
    requires m < 100 && n < 100
    ensures StrCmp(TwoDigits(m), TwoDigits(n)) < 0 <==> m < n
    ensures TwoDigits(m) == TwoDigits(n) <==> m == n
  {
    var a, b := TwoDigits(m), TwoDigits(n);
    assert m == 10 * (m / 10) + m % 10 && n == 10 * (n / 10) + n % 10;
    assert a[0] == b[0] <==> m / 10 == n / 10;
    assert a[1] == b[1] <==> m % 10 == n % 10;
    assert a[1..] == [a[1]] && b[1..] == [b[1]];
    assert StrCmp(a[1..], b[1..]) == if a[1] == b[1] then 0 else a[1] as int - b[1] as int;
  }

  /** Within one century the clock strings are ordered as the times are, and differ when the times do. */
  lemma NowTimeOrder(t: Tm, u: Tm)
    requires t.Valid() && u.Valid() && t.year / 100 == u.year / 100
    ensures StrCmp(NowTime(t), NowTime(u)) < 0 <==> Before(t, u)
    ensures NowTime(t) == NowTime(u) <==> t == u
  {
    hide TwoDigits;
    var t4, u4 := TwoDigits(t.hour) + TwoDigits(t.min), TwoDigits(u.hour) + TwoDigits(u.min);
    var t3, u3 := TwoDigits(t.mday) + t4, TwoDigits(u.mday) + u4;
    var t2, u2 := TwoDigits(t.mon + 1) + t3, TwoDigits(u.mon + 1) + u3;
    TwoDigitsConcat(t.hour, u.hour, TwoDigits(t.min), TwoDigits(u.min));
    TwoDigitsConcat(t.mday, u.mday, t4, u4);
    TwoDigitsConcat(t.mon + 1, u.mon + 1, t3, u3);
    TwoDigitsConcat(t.year % 100, u.year % 100, t2, u2);
    TwoDigitsOrder(t.min, u.min);
    assert t.year == 100 * (t.year / 100) + t.year % 100 && u.year == 100 * (u.year / 100) + u.year % 100;
  }

  lemma TwoDigitsConcat(m: nat, n: nat, x: string, y: string)
    requires m < 100 && n < 100
    ensures StrCmp(TwoDigits(m) + x, TwoDigits(n) + y) < 0 <==> m < n || (m == n && StrCmp(x, y) < 0)
    ensures TwoDigits(m) + x == TwoDigits(n) + y <==> m == n && x == y
  {
    TwoDigitsOrder(m, n);
    CmpConcat(TwoDigits(m), TwoDigits(n), x, y);
    CmpZero(TwoDigits(m), TwoDigits(n));
    CmpZero(TwoDigits(m) + x, TwoDigits(n) + y);
    CmpZero(x, y);
  }

  /** A record has started, as the program compares strings, exactly when the moment it names is not in the future. */
  lemma StartedIff(r: Schedule, t: Tm, now: Tm)
    requires t.Valid() && now.Valid() && t.year / 100 == now.year / 100 && Prints(r, t)
    ensures Le(Key(r), NowTime(now)) <==> !Before(now, t)
  {
    hide Prints, NowTime;
    assert |r.date| == 6 && |r.time| == 4 by { PrintsLength(r, t); }
    NowTimeIff(r, t);
    NowTimeOrder(now, t);
    CmpSwap(NowTime(now), Key(r));
  }

  lemma PrintsLength(r: Schedule, t: Tm)
    requires Prints(r, t)
    ensures |r.date| == 6 && |r.time| == 4
  {
  }

  // ----- the query -----

  /** r has the greatest key not above `now`. */
  ghost predicate IsPredecessor(ms: multiset<Schedule>, now: string, r: Schedule) {
    r in ms && Le(Key(r), now) && forall q <- ms :: Le(Key(q), now) ==> Le(Key(q), Key(r))
  }

  ghost predicate NothingYet(ms: multiset<Schedule>, now: string) {
    forall q <- ms :: !Le(Key(q), now)
  }

  /** `subject` is what the query may answer. */
  ghost predicate IsAnswer(ms: multiset<Schedule>, now: string, subject: string) {
    if NothingYet(ms, now) then subject == "NOTHING"
    else exists r :: IsPredecessor(ms, now, r) && r.name == subject
  }

  /** In a sorted list, the last entry not above `now` is the predecessor. */
  lemma PredecessorAt(s: seq<Schedule>, now: string, i: nat)
    requires Sorted(s) && (forall k :: 0 <= k < |s| ==> |s[k].date| <= 6)
    requires i <= |s| && (i > 0 ==> Le(Key(s[i - 1]), now)) && (i < |s| ==> !Le(Key(s[i]), now))
    ensures i == 0 ==> NothingYet(multiset(s), now)
    ensures i > 0 ==> IsPredecessor(multiset(s), now, s[i - 1])
  {
    forall q | q in multiset(s) && Le(Key(q), now) ensures i > 0 && Le(Key(q), Key(s[i - 1])) {
      var k :| 0 <= k < |s| && s[k] == q;
      if i < k { KeyOrder(s[i], q); }
      if i < |s| && i <= k { if i < k { LeTrans(Key(s[i]), Key(q), now); } }
      if k < i - 1 { KeyOrder(q, s[i - 1]); }
      CmpZero(Key(q), Key(q));
    }
    if i > 0 { assert s[i - 1] in multiset(s); }
  }

  /** How many entries at the front of the list have started. */
  function StartedLen(s: seq<Schedule>, now: string): (n: nat)
    ensures n <= |s|
  {
    if s == [] || !Le(Key(s[0]), now) then 0 else 1 + StartedLen(s[1..], now)
  }

  /** The subject `cur_subject` reads off a sorted list. */
  function CurrentSubject(s: seq<Schedule>, now: string): string {
    if StartedLen(s, now) == 0 then "NOTHING" else s[StartedLen(s, now) - 1].name
  }

  lemma {:induction false} StartedLenIs(s: seq<Schedule>, now: string, n: nat)
    requires n <= |s| && (n < |s| ==> !Le(Key(s[n]), now))
    requires forall k :: 0 <= k < n ==> Le(Key(s[k]), now)
    ensures StartedLen(s, now) == n
  {
    hide Key;
    if n > 0 { StartedLenIs(s[1..], now, n - 1); }
  }

  lemma {:induction false} StartedLenSplits(s: seq<Schedule>, now: string)
    ensures var n := StartedLen(s, now);
      (forall k :: 0 <= k < n ==> Le(Key(s[k]), now)) && (n < |s| ==> !Le(Key(s[n]), now))
  {
    hide Key;
    if s != [] && Le(Key(s[0]), now) { StartedLenSplits(s[1..], now); }
  }

  /** On a sorted list that subject answers the query; no entry is counted exactly when none has started. */
  lemma CurrentSubjectAnswers(s: seq<Schedule>, now: string)
    requires Sorted(s) && forall k :: 0 <= k < |s| ==> |s[k].date| <= 6
    ensures IsAnswer(multiset(s), now, CurrentSubject(s, now))
    ensures NothingYet(multiset(s), now) <==> StartedLen(s, now) == 0
  {
    hide Sorted, Key;
    var n := StartedLen(s, now);
    StartedLenSplits(s, now);
    PredecessorAt(s, now, n);
    assert n > 0 ==> IsPredecessor(multiset(s), now, s[n - 1]);
  }

  /** As the clock advances, the selected key never goes back. */
  lemma AnswerNeverGoesBack(ms: multiset<Schedule>, now: string, later: string, r: Schedule, q: Schedule)
    requires Le(now, later) && IsPredecessor(ms, now, r) && IsPredecessor(ms, later, q)
    ensures Le(Key(r), Key(q))
  {
    LeTrans(Key(r), now, later);
  }

  /** Entries that lie after `now` never change the answer. */
  lemma LaterEntriesDoNotMatter(ms: multiset<Schedule>, more: multiset<Schedule>, now: string, subject: string)
    requires NothingYet(more, now)
    ensures IsAnswer(ms + more, now, subject) <==> IsAnswer(ms, now, subject)
  {
    forall r ensures IsPredecessor(ms + more, now, r) <==> IsPredecessor(ms, now, r) {
    }
  }

  /** Unless nothing has started, some entry is the predecessor. */
  lemma {:induction false} AnswerExists(s: seq<Schedule>, now: string) returns (r: Schedule)
    ensures NothingYet(multiset(s), now) || IsPredecessor(multiset(s), now, r)
  {
    r := ZERO;
    if s != [] {
      var n := |s| - 1;
      assert s == s[..n] + [s[n]];
      r := AnswerExists(s[..n], now);
      if Le(Key(s[n]), now) && (NothingYet(multiset(s[..n]), now) || Le(Key(r), Key(s[n]))) {
        forall q | q in multiset(s[..n]) && Le(Key(q), now) ensures Le(Key(q), Key(s[n])) {
          LeTrans(Key(q), Key(r), Key(s[n]));
        }
        r := s[n];
      }
      CmpZero(Key(s[n]), Key(s[n]));
      CmpSwap(Key(s[n]), Key(r));
    }
  }

  /** The moments that the records of s name, in the century of now. */
  ghost predicate Times(s: seq<Schedule>, times: seq<Tm>, now: Tm) {
    && |times| == |s| && now.Valid()
    && forall k :: 0 <= k < |s| ==>
         times[k].Valid() && times[k].year / 100 == now.year / 100 && Prints(s[k], times[k])
  }

  /** Moment i is not in the future, and no such moment comes after it. */
  ghost predicate LatestStarted(times: seq<Tm>, i: nat, now: Tm)
    requires i < |times|
  {
    !Before(now, times[i]) && forall k :: 0 <= k < |times| && !Before(now, times[k]) ==> !Before(times[i], times[k])
  }

  /** The answer in terms of time: the subject of a record that is not in the future and that no other such record
      comes after, or "NOTHING" when all are in the future. */
  lemma SubjectAtTime(s: seq<Schedule>, times: seq<Tm>, now: Tm)
    requires Sorted(s) && Times(s, times, now)
    ensures var subject := CurrentSubject(s, NowTime(now));
      if forall k :: 0 <= k < |s| ==> Before(now, times[k]) then subject == "NOTHING"
      else exists i :: 0 <= i < |s| && LatestStarted(times, i, now) && subject == s[i].name
  {
    hide NowTime, Key, Prints;
    var clock, n := NowTime(now), StartedLen(s, NowTime(now));
    StartedLenSplits(s, clock);
    forall k | 0 <= k < |s| ensures (k < n <==> !Before(now, times[k])) && |s[k].date| == 6 {
      StartedIff(s[k], times[k], now);
      PrintsLength(s[k], times[k]);
      if n < k {
        PrintsLength(s[n], times[n]);
        KeyOrder(s[n], s[k]);
        if Le(Key(s[k]), clock) { LeTrans(Key(s[n]), Key(s[k]), clock); }
      }
    }
    if n > 0 {
      forall k | 0 <= k < n ensures !Before(times[n - 1], times[k]) {
        if k < n - 1 { KeyOrder(s[k], s[n - 1]); } else { CmpZero(Key(s[k]), Key(s[k])); }
        PrintsLength(s[n - 1], times[n - 1]);
        NowTimeIff(s[n - 1], times[n - 1]);
        StartedIff(s[k], times[k], times[n - 1]);
      }
      assert LatestStarted(times, n - 1, now);
    } else {
      forall k | 0 <= k < |s| ensures Before(now, times[k]) { assert !(k < n); }
    }
  }

  /** Two entries of 6 June 2017, asked for at 18:20 on that day. */
  lemma KoreanAtSixTwenty(korean: Schedule, science: Schedule)
    requires korean == Schedule("170606", "Korean", "1819") && science == Schedule("170606", "Science", "1900")
    ensures NowTime(Tm(117, 5, 6, 18, 20)) == "1706061820"
    ensures CurrentSubject([korean, science], "1706061820") == "Korean"
  {
    assert TwoDigits(17) == "17" && TwoDigits(6) == "06" && TwoDigits(18) == "18" && TwoDigits(20) == "20";
    KeysAround(korean, science);
    StartedLenIs([korean, science], "1706061820", 1);
  }

  lemma KeysAround(korean: Schedule, science: Schedule)
    requires korean == Schedule("170606", "Korean", "1819") && science == Schedule("170606", "Science", "1900")
    ensures Le(Key(korean), "1706061820") && !Le(Key(science), "1706061820")
  {
    CmpConcat("1706061", "1706061", "819", "820");
    CmpConcat("170606", "170606", "1900", "1820");
    assert Key(korean) == "1706061" + "819" && Key(science) == "170606" + "1900";
    assert "1706061820" == "1706061" + "820" == "170606" + "1820";
    assert "819"[1..] == "19" && "820"[1..] == "20" && "1900"[1..] == "900" && "1820"[1..] == "820";
    assert StrCmp("819", "820") == StrCmp("19", "20") && StrCmp("1900", "1820") == StrCmp("900", "820");
  }
}
