/** The bulb registry: one dictionary from address to bulb, one from id to address, and ids that count the bulbs. */
module Bulbs {

  /** What a search response tells of a bulb; `None` for a field it does not mention. */
  datatype Option = None | Some(value: string)
  datatype Attributes = Attributes(model: Option, power: Option, bright: Option, rgb: Option, port: string)

  datatype Bulb = Bulb(id: int, attributes: Attributes)

  datatype Response = Invalid | Response(ip: string, attributes: Attributes)

  datatype Registry = Registry(detected: map<string, Bulb>, idx2ip: map<int, string>) {
    /** Id k leads to an address, and from there back to k. */
    ghost predicate Listed(k: int) { k in idx2ip && idx2ip[k] in detected && detected[idx2ip[k]].id == k }

    /** Address ip leads to an id, and from there back to ip. */
    ghost predicate Known(ip: string) { ip in detected && detected[ip].id in idx2ip && idx2ip[detected[ip].id] == ip }

    /** The two dictionaries are inverse to each other, and the ids are exactly 1 to the number of bulbs. */
    ghost predicate Dense() {
      && (forall k :: k in idx2ip <==> 1 <= k <= |detected|)
      && (forall k :: k in idx2ip ==> Listed(k))
      && (forall ip :: ip in detected ==> Known(ip))
    }
  }

  const EMPTY := Registry(map[], map[])

  /** `handle_search_response` */
  function Respond(r: Registry, response: Response): Registry {
    match response
    case Invalid => r
    case Response(ip, attributes) =>
      var id := if ip in r.detected then r.detected[ip].id else |r.detected| + 1;
      Registry(r.detected[ip := Bulb(id, attributes)], r.idx2ip[id := ip])
  }

  class BulbRegistry {
    var detectedBulbs: map<string, Bulb>
    var bulbIdx2ip: map<int, string>

    function State(): Registry
      reads this
    {
      Registry(detectedBulbs, bulbIdx2ip)
    }

    constructor ()
      ensures State() == EMPTY && State().Dense()
    {
      detectedBulbs, bulbIdx2ip := map[], map[];
    }

    method HandleSearchResponse(data: Response)
      requires State().Dense()
      modifies this
      ensures State() == Respond(old(State()), data) && State().Dense()
    {
      if data.Invalid? { return; }
      RespondKeepsDense(State(), data);
      var bulbId: int;
      if data.ip in detectedBulbs {
        bulbId := detectedBulbs[data.ip].id;
      } else {
        bulbId := |detectedBulbs| + 1;
      }
      detectedBulbs := detectedBulbs[data.ip := Bulb(bulbId, data.attributes)];
      bulbIdx2ip := bulbIdx2ip[bulbId := data.ip];
    }

    /** The refresh command: both dictionaries are cleared. */
    method Refresh()
      modifies this
      ensures State() == EMPTY && State().Dense()
    {
      detectedBulbs := map[];
      bulbIdx2ip := map[];
    }

    /** `display_bulbs`: the addresses listed, in the order of their ids. Every bulb is listed exactly once. */
    method DisplayBulbs() returns (listed: seq<string>)
      requires State().Dense()
      ensures |listed| == |detectedBulbs|
      ensures forall k :: 0 <= k < |listed| ==> listed[k] in detectedBulbs && detectedBulbs[listed[k]].id == k + 1
      ensures forall ip <- detectedBulbs :: multiset(listed)[ip] == 1
    {
      listed := [];
      for i := 1 to |detectedBulbs| + 1
        invariant |listed| == i - 1
        invariant forall k :: 0 <= k < |listed| ==>
          k + 1 in bulbIdx2ip && listed[k] == bulbIdx2ip[k + 1] && State().Listed(k + 1)
      {
        assert State().Listed(i);
        if i !in bulbIdx2ip { continue; }
        listed := listed + [bulbIdx2ip[i]];
      }
      forall ip | ip in detectedBulbs ensures multiset(listed)[ip] == 1 {
        assert State().Known(ip);
        var k := detectedBulbs[ip].id - 1;
        assert listed[k] == ip;
        OnceIn(listed, k);
      }
    }
  }

  lemma OnceIn(s: seq<string>, k: nat)
    requires k < |s| && forall j :: 0 <= j < |s| && j != k ==> s[j] != s[k]
    ensures multiset(s)[s[k]] == 1
  {
    assert s == s[..k] + ([s[k]] + s[k + 1..]);
    assert s[k] !in s[..k] && s[k] !in s[k + 1..];
  }

  lemma RespondKeepsDense(r: Registry, response: Response)
    requires r.Dense()
    ensures Respond(r, response).Dense()
  {
    if response.Response? {
      if response.ip in r.detected { KnownKeepsDense(r, response); } else { NewKeepsDense(r, response); }
    }
  }

  lemma KnownKeepsDense(r: Registry, response: Response)
    requires r.Dense() && response.Response? && response.ip in r.detected
    ensures Respond(r, response).Dense()
  {
    var s := Respond(r, response);
    assert r.Known(response.ip);
    assert s.detected.Keys == r.detected.Keys && |s.detected| == |s.detected.Keys| == |r.detected.Keys| == |r.detected|;
    assert s.idx2ip == r.idx2ip;
    forall k | k in s.idx2ip ensures s.Listed(k) { assert r.Listed(k); }
    forall ip | ip in s.detected ensures s.Known(ip) { assert r.Known(ip); }
  }

  lemma NewKeepsDense(r: Registry, response: Response)
    requires r.Dense() && response.Response? && response.ip !in r.detected
    ensures Respond(r, response).Dense()
  {
    var s := Respond(r, response);
    SizeAfterNew(r.detected, response.ip, s.detected[response.ip]);
    forall k | k in s.idx2ip ensures s.Listed(k) {
      if k != |r.detected| + 1 { assert r.Listed(k); }
    }
    forall ip | ip in s.detected ensures s.Known(ip) {
      if ip != response.ip { assert r.Known(ip); }
    }
  }

  lemma SizeAfterNew(m: map<string, Bulb>, ip: string, b: Bulb)
    requires ip !in m
    ensures |m[ip := b]| == |m| + 1
  {
    assert m[ip := b].Keys == m.Keys + {ip};
  }

  // ----- whole sessions -----

  datatype Action = Search(response: Response) | Clear

  function Act(r: Registry, a: Action): Registry {
    match a
    case Search(response) => Respond(r, response)
    case Clear => EMPTY
  }

  function Acts(r: Registry, actions: seq<Action>): Registry
    decreases |actions|
  {
    if actions == [] then r else Acts(Act(r, actions[0]), actions[1..])
  }

  /** After any responses and refreshes the dictionaries are inverse bijections with ids 1 to n. */
  lemma {:induction false} AlwaysDense(r: Registry, actions: seq<Action>)
    requires r.Dense()
    ensures Acts(r, actions).Dense()
    decreases |actions|
  {
    if actions != [] {
      if actions[0].Search? { RespondKeepsDense(r, actions[0].response); }
      AlwaysDense(Act(r, actions[0]), actions[1..]);
    }
  }

  lemma RespondKeepsIds(r: Registry, response: Response)
    requires r.Dense()
    ensures var s := Respond(r, response);
      && (forall ip <- r.detected :: ip in s.detected && s.detected[ip].id == r.detected[ip].id)
      && (forall k <- r.idx2ip :: k in s.idx2ip && s.idx2ip[k] == r.idx2ip[k])
  {
    if response.Response? && response.ip in r.detected { assert r.Known(response.ip); }
  }

  /** Until the next refresh an address keeps its id, and so does every id its address. */
  lemma {:induction false} IdsAreStable(r: Registry, actions: seq<Action>)
    requires r.Dense() && forall i :: 0 <= i < |actions| ==> actions[i].Search?
    ensures var s := Acts(r, actions);
      && (forall ip <- r.detected :: ip in s.detected && s.detected[ip].id == r.detected[ip].id)
      && (forall k <- r.idx2ip :: k in s.idx2ip && s.idx2ip[k] == r.idx2ip[k])
    decreases |actions|
  {
    if actions != [] {
      RespondKeepsDense(r, actions[0].response);
      RespondKeepsIds(r, actions[0].response);
      IdsAreStable(Act(r, actions[0]), actions[1..]);
    }
  }

  /** What the dictionary says of each address. */
  function Facts(r: Registry): map<string, Attributes> {
    map ip | ip in r.detected :: r.detected[ip].attributes
  }

  /** The last valid response from each address since the last refresh. */
  function Heard(facts: map<string, Attributes>, actions: seq<Action>): map<string, Attributes>
    decreases |actions|
  {
    if actions == [] then facts
    else match actions[0]
      case Clear => Heard(map[], actions[1..])
      case Search(Invalid) => Heard(facts, actions[1..])
      case Search(Response(ip, attributes)) => Heard(facts[ip := attributes], actions[1..])
  }

  /** The registry knows just the addresses heard since the last refresh, with what each said last. */
  lemma {:induction false} KnowsWhatItHeard(r: Registry, actions: seq<Action>)
    ensures Facts(Acts(r, actions)) == Heard(Facts(r), actions)
    decreases |actions|
  {
    hide Facts;
    if actions != [] {
      var s := Act(r, actions[0]);
      KnowsWhatItHeard(s, actions[1..]);
      match actions[0]
      case Clear => ForgetsAll();
      case Search(Invalid) =>
      case Search(Response(ip, attributes)) => Learns(r, ip, attributes);
    }
  }

  lemma ForgetsAll()
    ensures Facts(EMPTY) == map[]
  {
  }

  lemma Learns(r: Registry, ip: string, attributes: Attributes)
    ensures Facts(Respond(r, Response(ip, attributes))) == Facts(r)[ip := attributes]
  {
  }
}
