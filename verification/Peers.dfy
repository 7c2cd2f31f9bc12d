/** The exchange of study states between the desks: packets over a network that may lose, repeat and reorder them, and
    each desk's table with the last packet received from every peer. */
module Peers {

  const DEVINFO_MAX := 256
  const TWO32 := 0x1_0000_0000
  const FRESH := 10

  datatype Information = Information(index: nat, time: int, rxTime: int, subjectName: string)

  /** `index` is an 8-bit field; `time` holds four bytes in network order. */
  datatype Packet = Packet(index: nat, time: seq<nat>, name: string)

  /** A zero-initialised slot. */
  const ZERO := Information(0, 0, 0, "")

  // ----- packing -----

  function Htonl(x: int): (r: seq<nat>)
    ensures |r| == 4
  {
    var u := x % TWO32;
    [u / 0x100_0000, u / 0x1_0000 % 0x100, u / 0x100 % 0x100, u % 0x100]
  }

  function Ntohl(b: seq<nat>): nat
    requires |b| == 4
  {
    b[0] * 0x100_0000 + b[1] * 0x1_0000 + b[2] * 0x100 + b[3]
  }

  function PackInformation(info: Information): Packet {
    Packet(info.index % 0x100, Htonl(info.time), info.subjectName)
  }

  /** `info` keeps its receive time. */
  function UnpackPacket(p: Packet, info: Information): Information
    requires |p.time| == 4
  {
    Information(p.index, Ntohl(p.time), info.rxTime, p.name)
  }

  lemma NtohlHtonl(x: int)
    ensures Ntohl(Htonl(x)) == x % TWO32
  {
    var u := x % TWO32;
    assert u / 0x1_0000 == u / 0x100_0000 * 0x100 + u / 0x1_0000 % 0x100;
    assert u / 0x100 == u / 0x1_0000 * 0x100 + u / 0x100 % 0x100;
  }

  /** An information value survives packing exactly when its index fits 8 bits and its time 32. */
  lemma PackRoundTripIff(info: Information, into: Information)
    ensures UnpackPacket(PackInformation(info), into) == info.(rxTime := into.rxTime) <==>
            info.index < 0x100 && 0 <= info.time < TWO32
  {
    NtohlHtonl(info.time);
  }

  // ----- the table -----

  /** The table after a packet arrives at time `now`. */
  function Received(table: seq<Information>, p: Packet, now: int): (r: seq<Information>)
    requires |table| == DEVINFO_MAX && p.index < DEVINFO_MAX && |p.time| == 4
    ensures |r| == |table|
  {
    table[p.index := UnpackPacket(p, ZERO).(rxTime := now)]
  }

  class InformationList {
    const list: array<Information>

    ghost predicate Valid() { list.Length == DEVINFO_MAX }

    constructor ()
      ensures Valid() && fresh(list) && list[..] == seq(DEVINFO_MAX, _ => ZERO)
    {
      list := new Information[DEVINFO_MAX](_ => ZERO);
    }

    method UpdateInfolist(info: Information)
      requires Valid() && info.index < DEVINFO_MAX
      modifies list
      ensures list[..] == old(list[..])[info.index := info]
    {
      list[info.index] := info;
    }

    method GetOtherInfo(index: nat) returns (info: Information)
      requires Valid() && index < DEVINFO_MAX
      ensures info == list[index]
    {
      info := list[index];
    }

    /** One pass of the receive loop; `info` is the thread's scratch record. */
    method Receive(p: Packet, info: Information, now: int) returns (info': Information)
      requires Valid() && p.index < DEVINFO_MAX && |p.time| == 4
      modifies list
      ensures list[..] == Received(old(list[..]), p, now)
    {
      info' := UnpackPacket(p, info);
      info' := info'.(rxTime := now);
      UpdateInfolist(info');
    }

    /** The rows of `print_other_infos`. */
    method PrintOtherInfos(curTime: int) returns (rows: seq<Information>)
      requires Valid()
      ensures rows == Shown(list[..], curTime)
    {
      rows := [];
      for i := 0 to DEVINFO_MAX
        invariant rows == Shown(list[..i], curTime)
      {
        ShownAppend(list[..i], list[i], curTime);
        assert list[..i + 1] == list[..i] + [list[i]];
        var info := GetOtherInfo(i);
        if info.rxTime + FRESH < curTime { continue; }
        rows := rows + [info];
      }
      assert list[..DEVINFO_MAX] == list[..];
    }
  }

  /** The slots received no more than ten seconds ago, in index order. */
  function Shown(table: seq<Information>, now: int): seq<Information> {
    if table == [] then []
    else (if now - table[0].rxTime <= FRESH then [table[0]] else []) + Shown(table[1..], now)
  }

  lemma {:induction false} ShownAppend(table: seq<Information>, info: Information, now: int)
    ensures Shown(table + [info], now) == Shown(table, now) + if now - info.rxTime <= FRESH then [info] else []
  {
    if table == [] {
      assert table + [info] == [info];
    } else {
      assert (table + [info])[1..] == table[1..] + [info] && (table + [info])[0] == table[0];
      var first := if now - table[0].rxTime <= FRESH then [table[0]] else [];
      assert Shown(table + [info], now) == first + Shown(table[1..] + [info], now);
      ShownAppend(table[1..], info, now);
    }
  }

  lemma {:induction false} ShownIff(table: seq<Information>, now: int, info: Information)
    ensures info in Shown(table, now) <==> info in table && now - info.rxTime <= 10
  {
    if table != [] {
      ShownIff(table[1..], now, info);
      assert info in table <==> info == table[0] || info in table[1..];
    }
  }

  // ----- the desks and the network -----

  /** An information value that desk `node` really built. */
  datatype Built = Built(node: nat, time: int, name: string)

  /** `net` holds every packet ever sent: a delivery may pick any of them, any number of times, in any order. */
  datatype World = World(clock: int, net: set<Packet>, built: set<Built>, tables: map<nat, seq<Information>>)

  datatype Action =
    | Broadcast(node: nat, time: int, name: string)
    | Deliver(node: nat, packet: Packet)
    | Tick(seconds: nat)

  function SelfInfo(node: nat, time: int, name: string): Information { Information(node, time, 0, name) }

  function Act(w: World, a: Action): World {
    match a
    case Broadcast(node, time, name) =>
      if node in w.tables then
        w.(net := w.net + {PackInformation(SelfInfo(node, time, name))}, built := w.built + {Built(node, time, name)})
      else w
    case Deliver(node, packet) =>
      if node in w.tables && |w.tables[node]| == DEVINFO_MAX &&
         packet in w.net && |packet.time| == 4 && packet.index < DEVINFO_MAX
      then w.(tables := w.tables[node := Received(w.tables[node], packet, w.clock)])
      else w
    case Tick(seconds) => w.(clock := w.clock + seconds)
  }

  function Acts(w: World, actions: seq<Action>): World
    decreases |actions|
  {
    if actions == [] then w else Acts(Act(w, actions[0]), actions[1..])
  }

  function Start(nodes: set<nat>, clock: int): World {
    World(clock, {}, {}, map n | n in nodes :: seq(DEVINFO_MAX, _ => ZERO))
  }

  /** A slot that was received: what desk i built, its time taken modulo 2^32. */
  ghost predicate Genuine(slot: Information, i: nat, built: set<Built>) {
    slot.index == i && exists b <- built :: b.node == i && slot.time == b.time % TWO32 && slot.subjectName == b.name
  }

  ghost predicate Authentic(w: World) {
    && (forall p <- w.net :: exists b <- w.built :: p == PackInformation(SelfInfo(b.node, b.time, b.name)))
    && (forall b <- w.built :: b.node in w.tables)
    && (forall n <- w.tables :: n < DEVINFO_MAX && |w.tables[n]| == DEVINFO_MAX)
    && (forall n, i :: n in w.tables && 0 <= i < DEVINFO_MAX ==>
          w.tables[n][i] == ZERO || Genuine(w.tables[n][i], i, w.built))
    && (forall n, i :: n in w.tables && 0 <= i < DEVINFO_MAX ==> w.tables[n][i].rxTime <= w.clock)
  }

  lemma DeliveryIsGenuine(w: World, p: Packet)
    requires Authentic(w) && p in w.net
    ensures p.index < DEVINFO_MAX && |p.time| == 4
    ensures Genuine(UnpackPacket(p, ZERO).(rxTime := w.clock), p.index, w.built)
  {
    hide Htonl, Ntohl;
    var b :| b in w.built && p == PackInformation(SelfInfo(b.node, b.time, b.name));
    NtohlHtonl(b.time);
  }

  lemma ActKeepsAuthentic(w: World, a: Action)
    requires Authentic(w)
    ensures Authentic(Act(w, a))
  {
    hide PackInformation, UnpackPacket;
    match a
    case Broadcast(node, time, name) =>
    case Deliver(node, packet) => if packet in w.net { DeliveryIsGenuine(w, packet); }
    case Tick(seconds) =>
  }

  lemma {:induction false} ActsKeepAuthentic(w: World, actions: seq<Action>)
    requires Authentic(w)
    ensures Authentic(Acts(w, actions))
    decreases |actions|
  {
    hide Authentic;
    if actions != [] {
      ActKeepsAuthentic(w, actions[0]);
      ActsKeepAuthentic(Act(w, actions[0]), actions[1..]);
    }
  }

  /** Whatever the network does, every slot i that was ever received, at any desk, is a value desk i really built. */
  lemma TablesAreAuthentic(nodes: set<nat>, clock: nat, actions: seq<Action>, n: nat, i: nat)
    requires (forall m <- nodes :: m < DEVINFO_MAX) && n in nodes && i < DEVINFO_MAX
    ensures var w := Acts(Start(nodes, clock), actions);
      && n in w.tables && |w.tables[n]| == DEVINFO_MAX
      && (w.tables[n][i] == ZERO || Genuine(w.tables[n][i], i, w.built))
  {
    ActsKeepAuthentic(Start(nodes, clock), actions);
    ActsKeepDesks(Start(nodes, clock), actions);
  }

  lemma {:induction false} ActsKeepDesks(w: World, actions: seq<Action>)
    ensures Acts(w, actions).tables.Keys == w.tables.Keys
    decreases |actions|
  {
    if actions != [] { ActsKeepDesks(Act(w, actions[0]), actions[1..]); }
  }

  /** The receive time of a slot never goes back, though the packets themselves may come out of order. */
  lemma {:induction false} RxTimeNeverGoesBack(w: World, actions: seq<Action>, n: nat, i: nat)
    requires Authentic(w) && n in w.tables && i < DEVINFO_MAX
    ensures var v := Acts(w, actions);
      n in v.tables && |v.tables[n]| == DEVINFO_MAX && w.tables[n][i].rxTime <= v.tables[n][i].rxTime <= v.clock
    decreases |actions|
  {
    if actions != [] {
      ActKeepsAuthentic(w, actions[0]);
      RxTimeNeverGoesBack(Act(w, actions[0]), actions[1..], n, i);
    }
  }

  /** The action writes slot i of desk n. */
  predicate Writes(a: Action, n: nat, i: nat) { a.Deliver? && a.node == n && a.packet.index == i }

  lemma {:induction false} UnwrittenStays(w: World, actions: seq<Action>, n: nat, i: nat)
    requires Authentic(w) && n in w.tables && i < DEVINFO_MAX
    requires forall k :: 0 <= k < |actions| ==> !Writes(actions[k], n, i)
    ensures var v := Acts(w, actions);
      n in v.tables && |v.tables[n]| == DEVINFO_MAX && v.tables[n][i] == w.tables[n][i]
    decreases |actions|
  {
    if actions != [] {
      ActKeepsAuthentic(w, actions[0]);
      UnwrittenStays(Act(w, actions[0]), actions[1..], n, i);
    }
  }

  /** A slot holds the packet delivered last, stamped with the time of that delivery, whatever else goes on. */
  lemma SlotHoldsLastDelivery(w: World, p: Packet, after: seq<Action>, n: nat)
    requires Authentic(w) && n in w.tables && p in w.net
    requires forall k :: 0 <= k < |after| ==> !Writes(after[k], n, p.index)
    ensures var v := Acts(w, [Deliver(n, p)] + after);
      && n in v.tables && |v.tables[n]| == DEVINFO_MAX && p.index < DEVINFO_MAX && |p.time| == 4
      && v.tables[n][p.index] == Information(p.index, Ntohl(p.time), w.clock, p.name)
  {
    hide Ntohl, Authentic;
    DeliveryIsGenuine(w, p);
    ActKeepsAuthentic(w, Deliver(n, p));
    TablesHaveAllSlots(w, n);
    assert ([Deliver(n, p)] + after)[1..] == after;
    UnwrittenStays(Act(w, Deliver(n, p)), after, n, p.index);
  }

  lemma TablesHaveAllSlots(w: World, n: nat)
    requires Authentic(w) && n in w.tables
    ensures |w.tables[n]| == DEVINFO_MAX
  {
  }

  /** Past the first ten seconds of the clock, every row a desk shows is genuine and no more than ten seconds old, and
      every slot received within ten seconds is shown. */
  lemma ShownRowsAreFresh(nodes: set<nat>, clock: nat, actions: seq<Action>, n: nat, info: Information)
    requires (forall m <- nodes :: m < DEVINFO_MAX) && n in nodes
    requires Acts(Start(nodes, clock), actions).clock > FRESH
    ensures var w := Acts(Start(nodes, clock), actions);
      && n in w.tables
      && (info in Shown(w.tables[n], w.clock) ==>
            0 <= w.clock - info.rxTime <= FRESH && Genuine(info, info.index, w.built))
      && (info in w.tables[n] && w.clock - info.rxTime <= FRESH ==> info in Shown(w.tables[n], w.clock))
  {
    var w := Acts(Start(nodes, clock), actions);
    ActsKeepAuthentic(Start(nodes, clock), actions);
    ActsKeepDesks(Start(nodes, clock), actions);
    ShownIff(w.tables[n], w.clock, info);
  }

  // ----- from one desk to the other -----

  function Elapsed(actions: seq<Action>): nat {
    if actions == [] then 0 else (if actions[0].Tick? then actions[0].seconds else 0) + Elapsed(actions[1..])
  }

  lemma {:induction false} ActsSplit(w: World, first: seq<Action>, second: seq<Action>)
    ensures Acts(w, first + second) == Acts(Acts(w, first), second)
    decreases |first|
  {
    hide Act;
    if first == [] {
      assert first + second == second;
    } else {
      assert (first + second)[1..] == first[1..] + second;
      ActsSplit(Act(w, first[0]), first[1..], second);
    }
  }

  /** Packets that were sent stay deliverable, and the clock follows the ticks. */
  lemma {:induction false} NetAndClock(w: World, actions: seq<Action>)
    ensures w.net <= Acts(w, actions).net && Acts(w, actions).clock == w.clock + Elapsed(actions)
    ensures Acts(w, actions).tables.Keys == w.tables.Keys
    decreases |actions|
  {
    hide Received, PackInformation;
    if actions != [] { NetAndClock(Act(w, actions[0]), actions[1..]); }
  }

  /** What desk m broadcasts and the network delivers to desk n, whatever happens in between, stands in slot m of desk n
      with the very time and subject and the time of arrival, until that slot is written again; and it is shown there
      for just ten seconds. */
  lemma BroadcastArrives(w: World, m: nat, time: int, name: string, between: seq<Action>, n: nat, after: seq<Action>)
    requires Authentic(w) && m in w.tables && n in w.tables && 0 <= time < 0x1_0000_0000
    requires forall k :: 0 <= k < |after| ==> !Writes(after[k], n, m)
    ensures var p := PackInformation(SelfInfo(m, time, name));
      var v := Acts(w, [Broadcast(m, time, name)] + (between + ([Deliver(n, p)] + after)));
      var slot := Information(m, time, w.clock + Elapsed(between), name);
      && n in v.tables && |v.tables[n]| == 256 && m < 256 && v.tables[n][m] == slot
      && (slot in Shown(v.tables[n], v.clock) <==> Elapsed(after) <= 10)
  {
    hide Authentic, Acts, Ntohl, Htonl, Shown;
    var send, p := Broadcast(m, time, name), PackInformation(SelfInfo(m, time, name));
    var rest := between + ([Deliver(n, p)] + after);
    DesksAreFew(w, m);
    ActKeepsAuthentic(w, send);
    FirstStep(w, send, rest);
    var w1 := Act(w, send);
    ActsSplit(w1, between, [Deliver(n, p)] + after);
    NetAndClock(w1, between);
    ActsKeepAuthentic(w1, between);
    var w2 := Acts(w1, between);
    NtohlHtonl(time);
    SlotHoldsLastDelivery(w2, p, after, n);
    var v := Acts(w2, [Deliver(n, p)] + after);
    NetAndClock(w2, [Deliver(n, p)] + after);
    assert ([Deliver(n, p)] + after)[1..] == after;
    ShownIff(v.tables[n], v.clock, v.tables[n][m]);
  }

  lemma DesksAreFew(w: World, m: nat)
    requires Authentic(w) && m in w.tables
    ensures m < 256
  {
  }

  lemma FirstStep(w: World, a: Action, rest: seq<Action>)
    ensures Acts(w, [a] + rest) == Acts(Act(w, a), rest)
  {
    assert ([a] + rest)[1..] == rest;
  }

  /** The bytes on the wire are in network order. */
  lemma NetworkOrder(a: nat, b: nat, c: nat, d: nat)
    requires a < 256 && b < 256 && c < 256 && d < 256
    ensures Htonl(((a * 256 + b) * 256 + c) * 256 + d) == [a, b, c, d]
  {
    LastByte((a * 256 + b) * 256 + c, d);
    LastByte(a * 256 + b, c);
    LastByte(a, b);
    InSteps(((a * 256 + b) * 256 + c) * 256 + d);
  }

  lemma LastByte(high: nat, low: nat)
    requires low < 256
    ensures (high * 256 + low) / 256 == high && (high * 256 + low) % 256 == low
  {
  }

  lemma InSteps(x: nat)
    requires x < TWO32
    ensures Htonl(x) == [x / 256 / 256 / 256, x / 256 / 256 % 256, x / 256 % 256, x % 256]
  {
    assert x % TWO32 == x;
    assert x / 256 / 256 == x / 0x1_0000;
    assert x / 0x1_0000 / 256 == x / 0x100_0000;
  }

  /** The rows shown are the fresh slots in the order of their index, each of them once. */
  lemma {:induction false} ShownInOrder(table: seq<Information>, now: int) returns (slots: seq<nat>)
    ensures |slots| == |Shown(table, now)|
    ensures forall k :: 0 <= k < |slots| ==> slots[k] < |table| && Shown(table, now)[k] == table[slots[k]]
    ensures forall j, k :: 0 <= j < k < |slots| ==> slots[j] < slots[k]
    ensures forall i :: 0 <= i < |table| ==> (i in slots <==> now - table[i].rxTime <= 10)
  {
    if table == [] {
      slots := [];
    } else {
      var n := |table| - 1;
      assert table == table[..n] + [table[n]];
      ShownAppend(table[..n], table[n], now);
      slots := ShownInOrder(table[..n], now);
      if now - table[n].rxTime <= FRESH { slots := slots + [n]; }
    }
  }
}
