/** The presence sensor: its sampling loop, and the window machine that loop implements. */
module Sensor {

  const STUDYING_NUM := 10
  const NEAR_LIMIT := 80

  datatype Switch = On | Off

  // ----- the reference machine -----

  function Near(window: seq<bool>): nat {
    if window == [] then 0 else (if window[0] then 1 else 0) + Near(window[1..])
  }

  /** Eleven samples make a window; at least five of the first ten near means somebody is there. */
  predicate Occupied(window: seq<bool>)
    requires |window| >= STUDYING_NUM
  {
    Near(window[..STUDYING_NUM]) >= STUDYING_NUM / 2
  }

  function Windows(samples: seq<bool>): seq<bool> {
    if |samples| <= STUDYING_NUM then []
    else [Occupied(samples)] + Windows(samples[STUDYING_NUM + 1..])
  }

  /** The messages for a run of decisions: one at each change. */
  function Edges(before: bool, decisions: seq<bool>): seq<Switch>
    decreases |decisions|
  {
    if decisions == [] then []
    else if decisions[0] == before then Edges(before, decisions[1..])
    else [if decisions[0] then On else Off] + Edges(decisions[0], decisions[1..])
  }

  function Final(before: bool, decisions: seq<bool>): bool {
    if decisions == [] then before else decisions[|decisions| - 1]
  }

  /** The trace of a whole run of samples. */
  function Trace(samples: seq<bool>): seq<Switch> { Edges(false, Windows(samples)) }

  // ----- facts about the reference machine -----

  /** The positions of the near samples. */
  ghost function NearAt(window: seq<bool>): set<int> { set i | 0 <= i < |window| && window[i] }

  lemma {:induction false} NearIsCount(window: seq<bool>)
    ensures Near(window) == |NearAt(window)|
  {
    if window != [] {
      var n := |window| - 1;
      assert window == window[..n] + [window[n]];
      NearAppend(window[..n], window[n]);
      NearIsCount(window[..n]);
      var before := NearAt(window[..n]);
      assert n !in before;
      assert NearAt(window) == if window[n] then before + {n} else before;
    }
  }

  /** Decision k looks at samples 11k to 11k+9 and at nothing else. */
  lemma {:induction false} WindowAt(samples: seq<bool>, k: nat)
    requires k < |samples| / (STUDYING_NUM + 1)
    ensures |Windows(samples)| == |samples| / (STUDYING_NUM + 1)
    ensures Windows(samples)[k] <==> Near(samples[11 * k..11 * k + 10]) >= 5
  {
    var rest := samples[STUDYING_NUM + 1..];
    assert |rest| / 11 == |samples| / 11 - 1;
    if k > 0 {
      WindowAt(rest, k - 1);
      assert rest[11 * (k - 1)..11 * (k - 1) + 10] == samples[11 * k..11 * k + 10];
    } else if |rest| / 11 > 0 {
      WindowAt(rest, 0);
    }
  }

  /** Five or more of its ten samples are near. */
  lemma DecisionIsCount(samples: seq<bool>, k: nat)
    requires k < |samples| / 11
    ensures k < |Windows(samples)| && (Windows(samples)[k] <==> |NearAt(samples[11 * k..11 * k + 10])| >= 5)
  {
    hide Windows, Near, NearAt;
    WindowAt(samples, k);
    NearIsCount(samples[11 * k..11 * k + 10]);
  }

  /** ON and OFF strictly alternate, starting with ON. */
  lemma {:induction false} EdgesAlternate(before: bool, decisions: seq<bool>)
    ensures forall k :: 0 <= k < |Edges(before, decisions)| ==>
      (Edges(before, decisions)[k] == On <==> (k % 2 == 0) == !before)
    ensures Final(before, decisions) == ((|Edges(before, decisions)| % 2 == 1) != before)
    decreases |decisions|
  {
    if decisions != [] { EdgesAlternate(decisions[0], decisions[1..]); }
  }

  predicate Differs(before: bool, decisions: seq<bool>, i: nat)
    requires i < |decisions|
  {
    decisions[i] != if i == 0 then before else decisions[i - 1]
  }

  /** The decisions that differ from the one before. */
  ghost function Changes(before: bool, decisions: seq<bool>): set<int> {
    set i | 0 <= i < |decisions| && Differs(before, decisions, i)
  }

  /** One message goes out at each change and at no other decision. */
  lemma {:induction false} OneMessagePerChange(before: bool, decisions: seq<bool>)
    ensures |Edges(before, decisions)| == |Changes(before, decisions)|
    decreases |decisions|
  {
    hide Edges, Changes;
    if decisions == [] {
      NoMessage(before);
    } else {
      var n := |decisions| - 1;
      assert decisions == decisions[..n] + [decisions[n]];
      EdgesAppend(before, decisions[..n], decisions[n]);
      OneMessagePerChange(before, decisions[..n]);
      ChangesAppend(before, decisions, n);
    }
  }

  lemma NoMessage(before: bool)
    ensures Edges(before, []) == [] && Changes(before, []) == {}
  {
  }

  lemma ChangesAppend(before: bool, decisions: seq<bool>, n: nat)
    requires |decisions| == n + 1
    ensures |Changes(before, decisions)| ==
            |Changes(before, decisions[..n])| + if decisions[n] == Final(before, decisions[..n]) then 0 else 1
  {
    hide Differs;
    LastDiffers(before, decisions, n);
    var earlier := Changes(before, decisions[..n]);
    assert n !in earlier;
    forall i | 0 <= i < n ensures Differs(before, decisions, i) <==> Differs(before, decisions[..n], i) {
      SameDifference(before, decisions, n, i);
    }
    assert Changes(before, decisions) == if Differs(before, decisions, n) then earlier + {n} else earlier;
  }

  lemma LastDiffers(before: bool, decisions: seq<bool>, n: nat)
    requires |decisions| == n + 1
    ensures Differs(before, decisions, n) <==> decisions[n] != Final(before, decisions[..n])
  {
  }

  lemma SameDifference(before: bool, decisions: seq<bool>, n: nat, i: nat)
    requires i < n < |decisions|
    ensures Differs(before, decisions, i) <==> Differs(before, decisions[..n], i)
  {
  }

  lemma TraceAlternates(samples: seq<bool>)
    ensures forall k :: 0 <= k < |Trace(samples)| ==> (Trace(samples)[k] == On <==> k % 2 == 0)
    ensures Final(false, Windows(samples)) <==> |Trace(samples)| % 2 == 1
    ensures |Trace(samples)| == |Changes(false, Windows(samples))|
  {
    OneMessagePerChange(false, Windows(samples));
    EdgesAlternate(false, Windows(samples));
  }

  lemma {:induction false} WindowsAppend(whole: seq<bool>, window: seq<bool>)
    requires |whole| % (STUDYING_NUM + 1) == 0 && |window| <= STUDYING_NUM + 1
    ensures Windows(whole + window) == Windows(whole) + if |window| <= STUDYING_NUM then [] else [Occupied(window)]
  {
    if whole == [] {
      assert whole + window == window;
    } else {
      assert (whole + window)[..STUDYING_NUM] == whole[..STUDYING_NUM];
      assert (whole + window)[STUDYING_NUM + 1..] == whole[STUDYING_NUM + 1..] + window;
      WindowsAppend(whole[STUDYING_NUM + 1..], window);
    }
  }

  lemma {:induction false} EdgesAppend(before: bool, decisions: seq<bool>, d: bool)
    ensures Edges(before, decisions + [d]) ==
            Edges(before, decisions) + if d == Final(before, decisions) then [] else [if d then On else Off]
    decreases |decisions|
  {
    if decisions != [] {
      assert (decisions + [d])[1..] == decisions[1..] + [d];
      EdgesAppend(decisions[0], decisions[1..], d);
    }
  }

  lemma DecisionStep(whole: seq<bool>, window: seq<bool>)
    requires |whole| % (STUDYING_NUM + 1) == 0 && |window| == STUDYING_NUM + 1
    ensures Final(false, Windows(whole + window)) == Occupied(window)
    ensures Trace(whole + window) ==
            if Occupied(window) == Final(false, Windows(whole)) then Trace(whole)
            else Trace(whole) + [if Occupied(window) then On else Off]
  {
    WindowsAppend(whole, window);
    EdgesAppend(false, Windows(whole), Occupied(window));
  }

  /** Samples of an unfinished window change nothing yet. */
  lemma OpenWindow(whole: seq<bool>, window: seq<bool>)
    requires |whole| % (STUDYING_NUM + 1) == 0 && |window| <= STUDYING_NUM
    ensures Windows(whole + window) == Windows(whole) && Trace(whole + window) == Trace(whole)
  {
    WindowsAppend(whole, window);
  }

  lemma {:induction false} NearAppend(window: seq<bool>, b: bool)
    ensures Near(window + [b]) == Near(window) + if b then 1 else 0
  {
    if window != [] {
      assert (window + [b])[1..] == window[1..] + [b];
      NearAppend(window[1..], b);
    }
  }

  // ----- the program -----

  class PresenceSensor {
    /** The ten declared cells and the one behind them, which the eleventh sample overruns. */
    const studyingArr: array<int>
    var cnt: int
    var isStudying: bool
    var sent: seq<Switch>
    ghost var whole: seq<bool>  // the samples of the finished windows
    ghost var open: seq<bool>   // and of the window under way

    ghost function Samples(): seq<bool>
      reads this
    {
      whole + open
    }

    ghost predicate Valid()
      reads this, studyingArr
    {
      && studyingArr.Length == STUDYING_NUM + 1
      && 0 <= cnt == |open| <= STUDYING_NUM && |whole| % (STUDYING_NUM + 1) == 0
      && (forall k :: 0 <= k < cnt ==> studyingArr[k] == if open[k] then 1 else 0)
      && sent == Trace(whole) && isStudying == Final(false, Windows(whole))
    }

    constructor ()
      ensures Valid() && Samples() == [] && sent == [] && fresh(studyingArr)
    {
      studyingArr := new int[STUDYING_NUM + 1](_ => 0);
      cnt, isStudying, sent, whole, open := 0, false, [], [], [];
    }

    /** The end of a window: `cnt` is reused to count the near samples, and only the first ten cells are added up. */
    method Decide(ghost whole: seq<bool>, ghost window: seq<bool>)
      requires studyingArr.Length == |window| == STUDYING_NUM + 1 && |whole| % (STUDYING_NUM + 1) == 0
      requires forall k :: 0 <= k <= STUDYING_NUM ==> studyingArr[k] == if window[k] then 1 else 0
      requires sent == Trace(whole) && isStudying == Final(false, Windows(whole))
      modifies this`cnt, this`sent, this`isStudying
      ensures cnt == 0 && sent == Trace(whole + window) && isStudying == Final(false, Windows(whole + window))
    {
      hide Windows, Final, Trace;
      cnt := 0;
      for i := 0 to STUDYING_NUM
        invariant cnt == Near(window[..i])
        invariant sent == old(sent) && isStudying == old(isStudying)
      {
        NearAppend(window[..i], window[i]);
        assert window[..i + 1] == window[..i] + [window[i]];
        cnt := cnt + studyingArr[i];
      }
      DecisionStep(whole, window);
      if cnt >= STUDYING_NUM / 2 {
        if !isStudying { sent := sent + [On]; }
        isStudying := true;
      } else {
        if isStudying { sent := sent + [Off]; }
        isStudying := false;
      }
      cnt := 0;
    }

    /** One pass of the loop in `main`. */
    method Sample(distance: int)
      requires Valid()
      modifies this, studyingArr
      ensures Valid() && Samples() == old(Samples()) + [distance < 80]
      ensures sent == Trace(Samples()) && isStudying == Final(false, Windows(Samples()))
    {
      hide Windows, Trace, Final;
      var near := distance < NEAR_LIMIT;
      ghost var window := open + [near];
      assert whole + open + [near] == whole + window;
      studyingArr[cnt] := if near then 1 else 0;
      if cnt >= STUDYING_NUM {
        Decide(whole, window);
        whole, open := whole + window, [];
        assert whole + [] == whole;
      } else {
        cnt := cnt + 1;
        open := window;
        OpenWindow(whole, open);
      }
    }
  }
}
