/** The light controller process and the messages that drive it: the sensor says ON and OFF, but the receiver only
    toggles. */
module LightSync {
  import opened Text
  import opened Decimal
  import opened BrightFile
  import opened Sensor

  /** A command to the bulb; `manual` tells a brightness typed by the user from one taken from the schedule. */
  datatype Command = Toggle | SetBright(value: int, manual: bool)

  datatype Light = Light(isPersonHere: bool, isCurBrightChanged: bool, commands: seq<Command>)

  /** `sigusr1_handler`: an integer sets the brightness, any other text toggles. */
  function Receive(l: Light, text: string): Light {
    match ParseInt(text)
    case IntValue(v) => l.(isCurBrightChanged := true, commands := l.commands + [SetBright(v, true)])
    case ValueError => l.(isPersonHere := !l.isPersonHere, commands := l.commands + [Toggle])
  }

  /** A brightness from the schedule is sent unless a manual one ever was. */
  function Scheduled(l: Light, v: int): Light {
    if l.isCurBrightChanged then l else l.(commands := l.commands + [SetBright(v, false)])
  }

  datatype Result = Returned(code: int) | Raised

  class LightController {
    var isPersonHere: bool
    var isCurBrightChanged: bool
    var commands: seq<Command>

    function State(): Light
      reads this
    {
      Light(isPersonHere, isCurBrightChanged, commands)
    }

    constructor ()
      ensures State() == Light(false, false, [])
    {
      isPersonHere, isCurBrightChanged, commands := false, false, [];
    }

    method Sigusr1Handler(alist: string)
      modifies this
      ensures State() == Receive(old(State()), alist)
      ensures forall v :: ParseInt(alist) == IntValue(v) ==>
        commands == old(commands) + [SetBright(v, true)] && isCurBrightChanged && isPersonHere == old(isPersonHere)
      ensures ParseInt(alist) == ValueError ==>
        && commands == old(commands) + [Toggle] && isPersonHere != old(isPersonHere)
        && isCurBrightChanged == old(isCurBrightChanged)
    {
      var bright := ParseInt(alist);
      if bright.IntValue? {
        commands := commands + [SetBright(bright.v, true)];
        isCurBrightChanged := true;
      } else {
        isPersonHere := !isPersonHere;
        commands := commands + [Toggle];
      }
    }

    /** `set_req_light_bright(req_subject)`; a line without a second word, or with one that is no number, raises. */
    method SetReqLightBright(file: string, reqSubject: string) returns (r: Result)
      modifies this
      ensures match PyFind(file, reqSubject)
        case NotFound => r == Returned(-1) && State() == old(State())
        case IndexError => r == Raised && State() == old(State())
        case Text(t) =>
          if ParseInt(t).IntValue? then r == Returned(0) && State() == Scheduled(old(State()), ParseInt(t).v)
          else r == Raised && State() == old(State())
    {
      hide LineLen, Split, ParseInt;
      var rest := file;
      while true
        invariant PyFind(file, reqSubject) == PyFind(rest, reqSubject) && State() == old(State())
        decreases |rest|
      {
        var n := LineLen(rest);
        var subjectInfo := Split(rest[..n]);
        if subjectInfo == [] || n == 0 { return Returned(-1); }
        if subjectInfo[0] == reqSubject {
          if |subjectInfo| < 2 { return Raised; }
          var v := ParseInt(subjectInfo[1]);
          if v.ValueError? { return Raised; }
          if !isCurBrightChanged { commands := commands + [SetBright(v.v, false)]; }
          return Returned(0);
        }
        rest := rest[n..];
      }
    }
  }

  // ----- the two processes and the messages between them -----

  datatype World = World(isStudying: bool, queue: seq<string>, light: Light)

  const START := World(false, [], Light(false, false, []))

  /** `Window`: the sensor closes a window. `Manual`: the user sends a text. `Deliver`: the first message arrives.
      `Lose`: message k is lost, which the FIFO never does by itself. `Schedule`: a scan of the schedule
      ends with a brightness; whoever was here when it began may have left. */
  datatype Action = Window(occupied: bool) | Manual(text: string) | Deliver | Lose(k: nat) | Schedule(v: int)

  function Act(w: World, a: Action): World {
    match a
    case Window(occupied) =>
      if occupied == w.isStudying then w
      else World(occupied, w.queue + [SwitchText(if occupied then On else Off)], w.light)
    case Manual(text) => w.(queue := w.queue + [text])
    case Deliver => if w.queue == [] then w else World(w.isStudying, w.queue[1..], Receive(w.light, w.queue[0]))
    case Lose(k) => if k < |w.queue| then w.(queue := w.queue[..k] + w.queue[k + 1..]) else w
    case Schedule(v) => w.(light := Scheduled(w.light, v))
  }

  function Acts(w: World, actions: seq<Action>): World
    decreases |actions|
  {
    if actions == [] then w else Acts(Act(w, actions[0]), actions[1..])
  }

  function SwitchText(s: Switch): string { match s case On => "ON" case Off => "OFF" }

  /** The receiver toggles on this text. */
  predicate Toggling(text: string) { ParseInt(text).ValueError? }

  lemma SwitchTextsToggle()
    ensures Toggling("ON") && Toggling("OFF")
  {
    WordIsNoInt('O', "N");
    WordIsNoInt('O', "FF");
    assert "ON" == ['O'] + "N" && "OFF" == ['O'] + "FF";
  }

  lemma WordIsNoInt(c: char, rest: string)
    requires !IsBlank(c) && !IsDigit(c) && c != '-' && c != '+'
    ensures Toggling([c] + rest)
  {
    var s := [c] + rest;
    assert s[0] == c;
    assert SkipBlanks(s) == s;
    assert DigitLen(s) == 0;
  }

  function Toggles(queue: seq<string>): nat {
    if queue == [] then 0 else (if Toggling(queue[0]) then 1 else 0) + Toggles(queue[1..])
  }

  lemma {:induction false} TogglesAppend(q: seq<string>, r: seq<string>)
    ensures Toggles(q + r) == Toggles(q) + Toggles(r)
  {
    hide Toggling;
    if q == [] {
      assert q + r == r;
    } else {
      assert (q + r)[1..] == q[1..] + r;
      TogglesAppend(q[1..], r);
    }
  }

  /** One for each toggling text the user types and for each toggling message that is lost. */
  function Flips(w: World, a: Action): nat {
    match a
    case Manual(text) => if Toggling(text) then 1 else 0
    case Lose(k) => if k < |w.queue| && Toggling(w.queue[k]) then 1 else 0
    case _ => 0
  }

  function TotalFlips(w: World, actions: seq<Action>): nat
    decreases |actions|
  {
    if actions == [] then 0 else Flips(w, actions[0]) + TotalFlips(Act(w, actions[0]), actions[1..])
  }

  function Bit(b: bool): nat { if b then 1 else 0 }

  /** Presence here, the toggles under way and the flips so far add up to presence there, modulo two. */
  ghost predicate InStep(w: World, flips: nat) {
    (Bit(w.light.isPersonHere) + Toggles(w.queue) + flips) % 2 == Bit(w.isStudying)
  }

  lemma TogglesAdd(q: seq<string>, text: string)
    ensures Toggles(q + [text]) == Toggles(q) + if Toggling(text) then 1 else 0
  {
    TogglesAppend(q, [text]);
  }

  lemma TogglesWithout(q: seq<string>, k: nat)
    requires k < |q|
    ensures Toggles(q) == Toggles(q[..k] + q[k + 1..]) + if Toggling(q[k]) then 1 else 0
  {
    hide Toggling;
    assert q == q[..k] + ([q[k]] + q[k + 1..]);
    TogglesAppend(q[..k], [q[k]] + q[k + 1..]);
    TogglesAppend([q[k]], q[k + 1..]);
    TogglesAppend(q[..k], q[k + 1..]);
  }

  lemma ActKeepsStep(w: World, a: Action, flips: nat)
    requires InStep(w, flips)
    ensures InStep(Act(w, a), flips + Flips(w, a))
  {
    hide Toggling, Toggles, SwitchText, Receive, Scheduled;
    ScheduledStays(w.light);
    match a
    case Window(occupied) =>
      var text := SwitchText(if occupied then On else Off);
      SwitchTextsToggle();
      SwitchTexts();
      TogglesAdd(w.queue, text);
    case Manual(text) => TogglesAdd(w.queue, text);
    case Deliver =>
      if w.queue != [] {
        assert w.queue[..0] + w.queue[1..] == w.queue[1..];
        TogglesWithout(w.queue, 0);
        ReceiveFlips(w.light, w.queue[0]);
      }
    case Lose(k) => if k < |w.queue| { TogglesWithout(w.queue, k); }
    case Schedule(v) =>
  }

  lemma SwitchTexts()
    ensures SwitchText(On) == "ON" && SwitchText(Off) == "OFF"
  {
  }

  lemma ScheduledStays(l: Light)
    ensures forall v :: Scheduled(l, v).isPersonHere == l.isPersonHere
  {
  }

  lemma ReceiveFlips(l: Light, text: string)
    ensures Receive(l, text).isPersonHere == (l.isPersonHere != Toggling(text))
  {
  }

  lemma {:induction false} ActsKeepStep(w: World, actions: seq<Action>, flips: nat)
    requires InStep(w, flips)
    ensures InStep(Acts(w, actions), flips + TotalFlips(w, actions))
    decreases |actions|
  {
    hide InStep, Act, Flips;
    if actions != [] {
      ActKeepsStep(w, actions[0], flips);
      ActsKeepStep(Act(w, actions[0]), actions[1..], flips + Flips(w, actions[0]));
    }
  }

  /** Over every interleaving the receiver's presence, corrected by the toggles still under way, is the sensor's,
      exactly when an even number of toggling messages was lost or typed by the user. */
  lemma LockstepIff(actions: seq<Action>)
    ensures var w := Acts(START, actions);
      (w.light.isPersonHere != (Toggles(w.queue) % 2 == 1)) == w.isStudying <==> TotalFlips(START, actions) % 2 == 0
  {
    hide Acts, TotalFlips, Toggling;
    assert InStep(START, 0);
    ActsKeepStep(START, actions, 0);
  }

  // ----- what a delivered message means -----

  /** No message is lost, and the user types integers only. */
  predicate Faithful(a: Action) { !a.Lose? && (a.Manual? ==> !Toggling(a.text)) }

  /** Each ON under way will find nobody here and each OFF somebody, and once all have arrived both sides agree. */
  ghost predicate Settles(here: bool, queue: seq<string>, studying: bool)
    decreases |queue|
  {
    if queue == [] then here == studying
    else if Toggling(queue[0]) then
      queue[0] == SwitchText(if here then Off else On) && Settles(!here, queue[1..], studying)
    else Settles(here, queue[1..], studying)
  }

  lemma {:induction false} SettlesAppend(here: bool, queue: seq<string>, studying: bool, text: string)
    requires Settles(here, queue, studying)
    requires Toggling(text) ==> text == SwitchText(if studying then Off else On)
    ensures Settles(here, queue + [text], studying != Toggling(text))
    decreases |queue|
  {
    hide Toggling, SwitchText;
    if queue == [] {
      assert queue + [text] == [text] && [text][1..] == [];
    } else {
      assert (queue + [text])[1..] == queue[1..] + [text];
      SettlesAppend(here != Toggling(queue[0]), queue[1..], studying, text);
    }
  }

  lemma ActSettles(w: World, a: Action)
    requires Settles(w.light.isPersonHere, w.queue, w.isStudying) && Faithful(a)
    ensures var v := Act(w, a); Settles(v.light.isPersonHere, v.queue, v.isStudying)
  {
    hide Toggling, SwitchText;
    match a
    case Window(occupied) =>
      SwitchTextsToggle();
      SwitchTexts();
      if occupied != w.isStudying {
        SettlesAppend(w.light.isPersonHere, w.queue, w.isStudying, SwitchText(if occupied then On else Off));
      }
    case Manual(text) => SettlesAppend(w.light.isPersonHere, w.queue, w.isStudying, text);
    case Deliver => if w.queue != [] { ReceiveFlips(w.light, w.queue[0]); }
    case Schedule(v) =>
  }

  lemma {:induction false} FaithfulRunSettles(w: World, actions: seq<Action>)
    requires Settles(w.light.isPersonHere, w.queue, w.isStudying)
    requires forall i :: 0 <= i < |actions| ==> Faithful(actions[i])
    ensures var v := Acts(w, actions); Settles(v.light.isPersonHere, v.queue, v.isStudying)
    decreases |actions|
  {
    hide Settles, Act, Faithful;
    if actions != [] {
      ActSettles(w, actions[0]);
      FaithfulRunSettles(Act(w, actions[0]), actions[1..]);
    }
  }

  /** In every faithful run a delivered ON leaves somebody here and a delivered OFF nobody, though the receiver never
      looks at which it was; and when nothing is under way both processes agree. */
  lemma DeliveryMeansWhatItSays(actions: seq<Action>)
    requires forall i :: 0 <= i < |actions| ==> Faithful(actions[i])
    ensures var w := Acts(START, actions);
      && (w.queue == [] ==> w.light.isPersonHere == w.isStudying)
      && (w.queue != [] && w.queue[0] == "ON" ==> Act(w, Deliver).light.isPersonHere)
      && (w.queue != [] && w.queue[0] == "OFF" ==> !Act(w, Deliver).light.isPersonHere)
  {
    hide Acts, Toggling;
    FaithfulRunSettles(START, actions);
    var w := Acts(START, actions);
    SwitchTextsToggle();
    if w.queue != [] { ReceiveFlips(w.light, w.queue[0]); }
  }

  // ----- what reaches the bulb -----

  function ToggleCount(commands: seq<Command>): nat {
    if commands == [] then 0
    else ToggleCount(commands[..|commands| - 1]) + if commands[|commands| - 1].Toggle? then 1 else 0
  }

  /** The bulb has been toggled as often as presence has changed, and no scheduled brightness follows a manual one. */
  ghost predicate BulbInvariant(l: Light) {
    && ToggleCount(l.commands) % 2 == Bit(l.isPersonHere)
    && (forall i :: 0 <= i < |l.commands| && l.commands[i].SetBright? && l.commands[i].manual ==> l.isCurBrightChanged)
    && forall i, j :: 0 <= i < j < |l.commands| && l.commands[i].SetBright? && l.commands[j].SetBright? ==>
         l.commands[i].manual ==> l.commands[j].manual
  }

  lemma {:induction false} BulbFollows(w: World, actions: seq<Action>)
    requires BulbInvariant(w.light)
    ensures BulbInvariant(Acts(w, actions).light)
    decreases |actions|
  {
    if actions != [] {
      ActKeepsBulb(w, actions[0]);
      BulbFollows(Act(w, actions[0]), actions[1..]);
    }
  }

  lemma ActKeepsBulb(w: World, a: Action)
    requires BulbInvariant(w.light)
    ensures BulbInvariant(Act(w, a).light)
  {
    hide ParseInt, BulbInvariant;
    var l, m := w.light, Act(w, a).light;
    if l.commands != m.commands { Emits(l, m, m.commands[|m.commands| - 1]); }
  }

  /** One more command: a toggle with a change of presence, a manual brightness, or a scheduled one if there was no
      manual one. */
  lemma Emits(l: Light, m: Light, c: Command)
    requires BulbInvariant(l) && m.commands == l.commands + [c]
    requires (m.isPersonHere != l.isPersonHere) == c.Toggle?
    requires m.isCurBrightChanged == (l.isCurBrightChanged || (c.SetBright? && c.manual))
    requires c.SetBright? && !c.manual ==> !l.isCurBrightChanged
    ensures BulbInvariant(m)
  {
    assert m.commands[..|m.commands| - 1] == l.commands;
  }

  // ----- the sensor's trace is what is sent -----

  function WindowActions(decisions: seq<bool>): seq<Action> {
    seq(|decisions|, i requires 0 <= i < |decisions| => Window(decisions[i]))
  }

  function Texts(trace: seq<Switch>): seq<string> {
    seq(|trace|, i requires 0 <= i < |trace| => SwitchText(trace[i]))
  }

  /** The texts that the windows of a run of samples put under way are those of the sensor's trace. */
  lemma {:induction false} WindowsSendTheTrace(w: World, decisions: seq<bool>)
    ensures Acts(w, WindowActions(decisions)) ==
            World(Final(w.isStudying, decisions), w.queue + Texts(Edges(w.isStudying, decisions)), w.light)
    decreases |decisions|
  {
    hide SwitchText;
    if decisions == [] {
      assert w.queue + Texts([]) == w.queue;
    } else {
      assert WindowActions(decisions)[1..] == WindowActions(decisions[1..]);
      var v := Act(w, Window(decisions[0]));
      WindowsSendTheTrace(v, decisions[1..]);
      var s := if decisions[0] then On else Off;
      assert decisions[0] != w.isStudying ==>
        w.queue + Texts(Edges(w.isStudying, decisions)) ==
        w.queue + [SwitchText(s)] + Texts(Edges(decisions[0], decisions[1..]));
    }
  }

  /** The texts that a window puts behind the queue. */
  function Sent(w: World, a: Action): seq<string> {
    var queue := Act(w, a).queue;
    if a.Window? && |w.queue| <= |queue| then queue[|w.queue|..] else []
  }

  function SentByWindows(w: World, actions: seq<Action>): seq<string>
    decreases |actions|
  {
    if actions == [] then [] else Sent(w, actions[0]) + SentByWindows(Act(w, actions[0]), actions[1..])
  }

  function Decisions(actions: seq<Action>): seq<bool> {
    if actions == [] then []
    else if actions[0].Window? then [actions[0].occupied] + Decisions(actions[1..])
    else Decisions(actions[1..])
  }

  /** In every interleaving with deliveries, losses, manual texts and schedule scans, the windows send the texts of the
      trace of their decisions. */
  lemma {:induction false} SentIsTheTrace(w: World, actions: seq<Action>)
    ensures SentByWindows(w, actions) == Texts(Edges(w.isStudying, Decisions(actions)))
    ensures Acts(w, actions).isStudying == Final(w.isStudying, Decisions(actions))
    decreases |actions|
  {
    hide SwitchText, Receive, Scheduled;
    if actions != [] {
      var a, d := actions[0], Decisions(actions[1..]);
      SentIsTheTrace(Act(w, a), actions[1..]);
      if a.Window? { OneMoreDecision(w, a.occupied, d); }
    }
  }

  lemma OneMoreDecision(w: World, occupied: bool, d: seq<bool>)
    ensures Texts(Edges(w.isStudying, [occupied] + d)) == Sent(w, Window(occupied)) + Texts(Edges(occupied, d))
    ensures Final(w.isStudying, [occupied] + d) == Final(occupied, d)
  {
    hide SwitchText;
    assert ([occupied] + d)[1..] == d;
  }

  /** The text handed to the receiver, if any. */
  function Handed(w: World, a: Action): seq<string> {
    if a.Deliver? && w.queue != [] then [w.queue[0]] else []
  }

  function Delivered(w: World, actions: seq<Action>): seq<string>
    decreases |actions|
  {
    if actions == [] then [] else Handed(w, actions[0]) + Delivered(Act(w, actions[0]), actions[1..])
  }

  lemma {:induction false} NothingLost(w: World, actions: seq<Action>)
    requires forall i :: 0 <= i < |actions| ==> !actions[i].Lose? && !actions[i].Manual?
    ensures w.queue + SentByWindows(w, actions) == Delivered(w, actions) + Acts(w, actions).queue
    decreases |actions|
  {
    hide Sent, Handed, Act;
    if actions != [] {
      var v, rest := Act(w, actions[0]), actions[1..];
      NothingLost(v, rest);
      QueueStep(w, actions[0]);
      var sent, handed := Sent(w, actions[0]), Handed(w, actions[0]);
      if actions[0].Window? {
        assert w.queue + (sent + SentByWindows(v, rest)) == v.queue + SentByWindows(v, rest);
      } else {
        assert sent + SentByWindows(v, rest) == SentByWindows(v, rest);
        assert w.queue + SentByWindows(v, rest) == handed + (v.queue + SentByWindows(v, rest));
      }
    }
  }

  /** One action sends, or hands over, or neither. */
  lemma QueueStep(w: World, a: Action)
    requires !a.Lose? && !a.Manual?
    ensures if a.Window? then Act(w, a).queue == w.queue + Sent(w, a) && Handed(w, a) == []
            else w.queue == Handed(w, a) + Act(w, a).queue && Sent(w, a) == []
  {
    hide SwitchText, Receive, Scheduled;
  }

  /** From sampling to receipt: without losses and manual texts, what has been delivered and what is still under way
      are together the sensor's trace, so what the receiver has seen is a prefix of it. */
  lemma ReceiptIsTraceInOrder(actions: seq<Action>)
    requires forall i :: 0 <= i < |actions| ==> !actions[i].Lose? && !actions[i].Manual?
    ensures Delivered(START, actions) + Acts(START, actions).queue == Texts(Edges(false, Decisions(actions)))
  {
    hide Acts, Delivered, SentByWindows, Edges, Decisions;
    NothingLost(START, actions);
    SentIsTheTrace(START, actions);
    assert START.queue + SentByWindows(START, actions) == SentByWindows(START, actions);
  }

  // ----- which brightness is sent -----

  function Deliveries(actions: seq<Action>): nat {
    if actions == [] then 0 else (if actions[0].Deliver? then 1 else 0) + Deliveries(actions[1..])
  }

  /** Message k moves up with each delivery, as long as nothing is lost. */
  lemma {:induction false} MovesUp(w: World, actions: seq<Action>, k: nat)
    requires k < |w.queue| && Deliveries(actions) <= k && forall i :: 0 <= i < |actions| ==> !actions[i].Lose?
    ensures var queue := Acts(w, actions).queue;
      k - Deliveries(actions) < |queue| && queue[k - Deliveries(actions)] == w.queue[k]
    decreases |actions|
  {
    hide Receive, Scheduled, SwitchText;
    if actions != [] {
      MovesUp(Act(w, actions[0]), actions[1..], if actions[0].Deliver? then k - 1 else k);
    }
  }

  /** A number that the user types reaches the bulb: once all that was sent before it has been delivered, and whatever
      else goes on meanwhile, the next delivery sets just that brightness, marks it manual, and changes nothing else. */
  lemma TypedNumberReachesBulb(w: World, text: string, v: int, between: seq<Action>)
    requires ParseInt(text) == IntValue(v)
    requires forall i :: 0 <= i < |between| ==> !between[i].Lose?
    requires Deliveries(between) == |w.queue|
    ensures var u := Acts(w, [Manual(text)] + between); var x := Act(u, Deliver);
      && x.light.commands == u.light.commands + [SetBright(v, true)]
      && x.light.isCurBrightChanged && x.light.isPersonHere == u.light.isPersonHere
  {
    hide ParseInt;
    assert ([Manual(text)] + between)[1..] == between;
    MovesUp(Act(w, Manual(text)), between, |w.queue|);
  }

  /** The schedule's brightness is what the C side stored: for a subject in a fixed-width file the controller sends the
      value of its first line, unless a manual one came before, and then it sends nothing. */
  lemma StoredBrightIsSent(xs: seq<Subject>, x: Subject, k: nat, w: World)
    requires AllFixed(xs) && k < |xs| && xs[k] == x && forall j :: 0 <= j < k ==> xs[j].name != x.name
    ensures var found := PyFind(Render(xs), x.name);
      && found.Text? && ParseInt(found.text) == IntValue(x.bright)
      && Act(w, Schedule(x.bright)).light.commands ==
           w.light.commands + if w.light.isCurBrightChanged then [] else [SetBright(x.bright, false)]
  {
    hide PyFind, Fmt03, ParseInt, Render, Fixed;
    PyFindAgrees(xs, x.name);
    LookupFirst(xs, k);
    PrintedIntParses(x.bright);
    assert x in xs;
    assert w.light.commands + [] == w.light.commands;
  }
}
