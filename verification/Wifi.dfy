/** The Wi-Fi profile list: allocation of ids, the edits, and bulk import. */
module Wifi {
  import opened Text

  datatype Network = Network(
    id: string, uuid: string, ssid: string, hidden: bool, priority: int, hasPsk: bool, managed: bool,
    firstRunProfile: bool, autoconnect: string, active: bool, device: string, ipv4: string)

  type Networks = seq<Network>

  // ----- fresh ids -----

  /** The ids tried for a slug, in order: bare, then -2, -3 and so on. */
  function Candidate(base: string, i: nat): string {
    "airplanes-wifi-" + base + (if i == 0 then "" else "-" + Decimal(i + 1))
  }

  lemma CandidatesDiffer(base: string, i: nat, j: nat)
    requires Candidate(base, i) == Candidate(base, j)
    ensures i == j
  {
    var head := "airplanes-wifi-" + base;
    var x := if i == 0 then "" else "-" + Decimal(i + 1);
    var y := if j == 0 then "" else "-" + Decimal(j + 1);
    assert Candidate(base, i)[|head|..] == x && Candidate(base, j)[|head|..] == y;
    if i > 0 && j > 0 {
      assert x[1..] == Decimal(i + 1) && y[1..] == Decimal(j + 1);
      DecimalInjective(i + 1, j + 1);
    }
  }

  function Base(slug: string): string { if slug == "" then "network" else slug }

  function Ids(nets: Networks): set<string> { set n | n in nets :: n.id }

  lemma {:induction false} FewIds(nets: Networks)
    ensures |Ids(nets)| <= |nets|
  {
    if nets == [] {
      assert Ids(nets) == {};
    } else {
      FewIds(nets[1..]);
      assert Ids(nets) == Ids(nets[1..]) + {nets[0].id} by { assert nets == [nets[0]] + nets[1..]; }
    }
  }

  /** i is the first candidate not in use. */
  predicate FirstFree(nets: Networks, base: string, i: nat) {
    Candidate(base, i) !in Ids(nets) && forall j: nat | j < i :: Candidate(base, j) in Ids(nets)
  }

  lemma FirstFreeUnique(nets: Networks, base: string, i: nat, j: nat)
    requires FirstFree(nets, base, i) && FirstFree(nets, base, j)
    ensures i == j
  {}

  /** The first i candidates are ids in use, and left is the ids other than these. */
  ghost predicate Tried(nets: Networks, base: string, i: nat, left: set<string>) {
    && left <= Ids(nets)
    && (forall j: nat | j < i :: Candidate(base, j) in Ids(nets))
    && (forall x | x in Ids(nets) && x !in left :: exists j: nat :: j < i && x == Candidate(base, j))
  }

  /** Another candidate in use is one of the ids left: candidates never repeat. */
  lemma TriedNext(nets: Networks, base: string, i: nat, left: set<string>)
    requires Tried(nets, base, i, left) && Candidate(base, i) in Ids(nets)
    ensures Candidate(base, i) in left && Tried(nets, base, i + 1, left - {Candidate(base, i)})
  {
    var c := Candidate(base, i);
    if c !in left {
      var j: nat :| j < i && c == Candidate(base, j);
      CandidatesDiffer(base, i, j);
    }
    forall x | x in Ids(nets) && x !in left - {c} ensures exists j: nat :: j < i + 1 && x == Candidate(base, j) {
      if x == c { assert i < i + 1; }
    }
  }

  /** The search, with the ids already met taken out of the set. */
  function Search(ids: set<string>, base: string, i: nat): nat
    decreases |ids|
  {
    if Candidate(base, i) !in ids then i else Search(ids - {Candidate(base, i)}, base, i + 1)
  }

  lemma {:induction false} SearchFinds(nets: Networks, ids: set<string>, base: string, i: nat)
    requires Tried(nets, base, i, ids)
    ensures FirstFree(nets, base, Search(ids, base, i)) && Search(ids, base, i) <= i + |ids|
    decreases |ids|
  {
    if Candidate(base, i) in Ids(nets) {
      TriedNext(nets, base, i, ids);
      SearchFinds(nets, ids - {Candidate(base, i)}, base, i + 1);
    }
  }

  function FreshIndex(nets: Networks, base: string): (i: nat)
    ensures FirstFree(nets, base, i) && i <= |nets|
  {
    SearchFinds(nets, Ids(nets), base, 0);
    FewIds(nets);
    Search(Ids(nets), base, 0)
  }

  function FreshId(nets: Networks, base: string): (id: string)
    ensures id !in Ids(nets)
  {
    Candidate(base, FreshIndex(nets, base))
  }

  function Numbered(stem: string, n: nat): string { stem + "-" + Decimal(n) }

  /** The id allocated: the stem of the name if no network has it, else the stem with the
      first number from 2 on that none has. */
  lemma FreshIdExactly(nets: Networks, slug: string)
    ensures var stem := "airplanes-wifi-" + if slug == "" then "network" else slug;
            var id := FreshId(nets, Base(slug));
            && id !in Ids(nets)
            && (id == stem
                || exists n: nat :: n >= 2 && id == Numbered(stem, n) && stem in Ids(nets)
                     && forall m: nat | 2 <= m < n :: Numbered(stem, m) in Ids(nets))
  {
    var base := Base(slug);
    var stem, i := "airplanes-wifi-" + base, FreshIndex(nets, base);
    forall j: nat ensures Candidate(base, j) == if j == 0 then stem else Numbered(stem, j + 1) {
      assert stem + "" == stem && stem + ("-" + Decimal(j + 1)) == stem + "-" + Decimal(j + 1);
    }
    if i > 0 {
      assert Candidate(base, 0) in Ids(nets);
      forall m: nat | 2 <= m < i + 1 ensures Numbered(stem, m) in Ids(nets) { assert Candidate(base, m - 1) in Ids(nets); }
      assert FreshId(nets, base) == Numbered(stem, i + 1);
    }
  }

  // ----- the edits -----

  /** Network i is the first with this id. */
  predicate FirstWith(nets: Networks, id: string, i: nat) {
    i < |nets| && nets[i].id == id && forall j | 0 <= j < i :: nets[j].id != id
  }

  /** Network i is the first with this id that is not managed. */
  predicate FirstForeign(nets: Networks, id: string, i: nat) {
    i < |nets| && nets[i].id == id && !nets[i].managed && forall j | 0 <= j < i :: nets[j].id != id || nets[j].managed
  }

  function IndexOf(nets: Networks, id: string): (i: nat)
    ensures i <= |nets| && (i < |nets| ==> nets[i].id == id) && forall j | 0 <= j < i :: nets[j].id != id
  {
    if nets == [] || nets[0].id == id then 0 else 1 + IndexOf(nets[1..], id)
  }

  function Added(nets: Networks, slug: string, uuid: string, ssid: string, psk: string, hidden: bool, priority: int): Networks {
    nets + [Network(FreshId(nets, Base(slug)), uuid, ssid, hidden, priority, psk != "", true, false, "true", false, "", "")]
  }

  function Edited(n: Network, ssid: string, psk: string, hidden: bool, priority: int): Network {
    n.(ssid := if ssid != "" then ssid else n.ssid, hidden := hidden, priority := priority, hasPsk := n.hasPsk || psk != "")
  }

  function Updated(nets: Networks, id: string, ssid: string, psk: string, hidden: bool, priority: int): Networks {
    var i := IndexOf(nets, id);
    if i == |nets| then nets else nets[i := Edited(nets[i], ssid, psk, hidden, priority)]
  }

  function Deleted(nets: Networks, id: string): Networks {
    var i := IndexOf(nets, id);
    if i == |nets| then nets else nets[..i] + nets[i + 1..]
  }

  function ForeignIndex(nets: Networks, id: string): (i: nat)
    ensures i <= |nets| && (i < |nets| ==> nets[i].id == id && !nets[i].managed)
    ensures forall j | 0 <= j < i :: nets[j].id != id || nets[j].managed
  {
    if nets == [] || (nets[0].id == id && !nets[0].managed) then 0 else 1 + ForeignIndex(nets[1..], id)
  }

  function Adopted(nets: Networks, id: string, slug: string -> string, uuid: string): (Networks, Option<string>) {
    var i := ForeignIndex(nets, id);
    if i == |nets| then (nets, None)
    else
      var newId := FreshId(nets, Base(slug(nets[i].ssid)));
      (nets[i := nets[i].(id := newId, uuid := uuid, managed := true, firstRunProfile := false)], Some(newId))
  }

  function Switched(n: Network, on: bool): Network {
    n.(active := on, device := if on then "wlan0" else "", ipv4 := if on then "192.168.1.42" else "")
  }

  function Activated(nets: Networks, id: string): (r: Networks)
    ensures |r| == |nets| && forall i | 0 <= i < |nets| :: r[i] == Switched(nets[i], nets[i].id == id)
  {
    seq(|nets|, i requires 0 <= i < |nets| => Switched(nets[i], nets[i].id == id))
  }

  class State {
    var networks: Networks
    const slug: string -> string

    constructor (networks: Networks, slug: string -> string)
      ensures this.networks == networks && this.slug == slug
    {
      this.networks, this.slug := networks, slug;
    }

    /** The inner loop: whether some network has this id. */
    method InUse(candidate: string) returns (used: bool)
      ensures used <==> candidate in Ids(networks)
    {
      used := false;
      for k := 0 to |networks|
        invariant !used && forall j | 0 <= j < k :: networks[j].id != candidate
      {
        if networks[k].id == candidate {
          used := true;
          break;
        }
      }
    }

    method UniqueWifiId(ssid: string) returns (candidate: string)
      ensures candidate == FreshId(networks, Base(slug(ssid)))
    {
      var base := slug(ssid);
      if base == "" { base := "network"; }
      candidate := "airplanes-wifi-" + base;
      assert candidate == Candidate(base, 0);
      var i := 2;
      ghost var left := Ids(networks);
      while true
        invariant i >= 2 && candidate == Candidate(base, i - 2)
        invariant Tried(networks, base, i - 2, left)
        decreases |left|
      {
        var used := InUse(candidate);
        if !used {
          FirstFreeUnique(networks, base, i - 2, FreshIndex(networks, base));
          return;
        }
        TriedNext(networks, base, i - 2, left);
        left := left - {candidate};
        candidate := "airplanes-wifi-" + base + "-" + Decimal(i);
        assert candidate == Candidate(base, i - 1) by { assert "airplanes-wifi-" + base + ("-" + Decimal(i)) == candidate; }
        i := i + 1;
      }
    }

    method WifiAdd(uuid: string, ssid: string, psk: string, hidden: bool, priority: int) returns (id: string)
      modifies this`networks
      ensures networks == Added(old(networks), slug(ssid), uuid, ssid, psk, hidden, priority)
      ensures id == FreshId(old(networks), Base(slug(ssid)))
      ensures |networks| == |old(networks)| + 1 && networks[..|old(networks)|] == old(networks)
      ensures var n := networks[|old(networks)|];
              && n.id == id && id !in Ids(old(networks)) && n.uuid == uuid
              && n.ssid == ssid && n.hidden == hidden && n.priority == priority && (n.hasPsk <==> psk != "")
              && n.managed && !n.firstRunProfile && n.autoconnect == "true" && !n.active && n.device == "" && n.ipv4 == ""
    {
      id := UniqueWifiId(ssid);
      networks := networks + [Network(id, uuid, ssid, hidden, priority, psk != "", true, false, "true", false, "", "")];
    }

    method WifiUpdate(id: string, ssid: string, psk: string, hidden: bool, priority: int) returns (found: bool)
      modifies this`networks
      ensures networks == Updated(old(networks), id, ssid, psk, hidden, priority)
      ensures found <==> id in Ids(old(networks))
      ensures !found ==> networks == old(networks)
      ensures forall i: nat | FirstWith(old(networks), id, i) ::
                var was := old(networks)[i];
                && |networks| == |old(networks)| && networks == old(networks)[i := networks[i]]
                && networks[i].ssid == (if ssid == "" then was.ssid else ssid)
                && networks[i].hidden == hidden && networks[i].priority == priority
                && (networks[i].hasPsk <==> was.hasPsk || psk != "")
                && networks[i] == was.(ssid := networks[i].ssid, hidden := hidden, priority := priority, hasPsk := networks[i].hasPsk)
    {
      for i := 0 to |networks|
        invariant networks == old(networks) && forall j | 0 <= j < i :: networks[j].id != id
      {
        if networks[i].id != id { continue; }
        var n := networks[i];
        if ssid != "" { n := n.(ssid := ssid); }
        n := n.(hidden := hidden, priority := priority);
        if psk != "" { n := n.(hasPsk := true); }
        networks := networks[i := n];
        return true;
      }
      return false;
    }

    method WifiDelete(id: string) returns (found: bool)
      modifies this`networks
      ensures networks == Deleted(old(networks), id)
      ensures found <==> id in Ids(old(networks))
      ensures !found ==> networks == old(networks)
      ensures forall i: nat | FirstWith(old(networks), id, i) :: networks == old(networks)[..i] + old(networks)[i + 1..]
    {
      for i := 0 to |networks|
        invariant networks == old(networks) && forall j | 0 <= j < i :: networks[j].id != id
      {
        if networks[i].id != id { continue; }
        networks := networks[..i] + networks[i + 1..];
        return true;
      }
      return false;
    }

    method WifiAdopt(id: string, uuid: string) returns (adopted: Option<string>)
      modifies this`networks
      ensures (networks, adopted) == Adopted(old(networks), id, slug, uuid)
      ensures adopted.None? ==> networks == old(networks) && forall n | n in networks :: n.id == id ==> n.managed
      ensures forall i: nat | FirstForeign(old(networks), id, i) ::
                var was := old(networks)[i];
                && |networks| == |old(networks)| && networks == old(networks)[i := networks[i]]
                && adopted == Some(networks[i].id) && networks[i].id !in Ids(old(networks)) && networks[i].uuid == uuid
                && networks[i].managed && !networks[i].firstRunProfile
                && networks[i] == was.(id := networks[i].id, uuid := uuid, managed := true, firstRunProfile := false)
    {
      for i := 0 to |networks|
        invariant networks == old(networks) && forall j | 0 <= j < i :: networks[j].id != id || networks[j].managed
      {
        if networks[i].id != id || networks[i].managed { continue; }
        var newId := UniqueWifiId(networks[i].ssid);
        networks := networks[i := networks[i].(id := newId, uuid := uuid, managed := true, firstRunProfile := false)];
        return Some(newId);
      }
      return None;
    }

    method WifiActivate(id: string) returns (hit: bool)
      modifies this`networks
      ensures networks == Activated(old(networks), id)
      ensures hit <==> id in Ids(old(networks))
      ensures |networks| == |old(networks)|
      ensures forall i | 0 <= i < |networks| ::
                var was := old(networks)[i];
                networks[i] == if was.id == id then was.(active := true, device := "wlan0", ipv4 := "192.168.1.42")
                               else was.(active := false, device := "", ipv4 := "")
    {
      hit := false;
      for i := 0 to |networks|
        invariant |networks| == |old(networks)|
        invariant forall j | 0 <= j < i :: networks[j] == Switched(old(networks)[j], old(networks)[j].id == id)
        invariant forall j | i <= j < |networks| :: networks[j] == old(networks)[j]
        invariant hit <==> exists j :: 0 <= j < i && old(networks)[j].id == id
      {
        if networks[i].id == id {
          networks := networks[i := networks[i].(active := true, device := "wlan0", ipv4 := "192.168.1.42")];
          hit := true;
        } else {
          networks := networks[i := networks[i].(active := false, device := "", ipv4 := "")];
        }
      }
    }
  }

  // ----- what every edit keeps -----

  predicate DistinctIds(nets: Networks) { forall i, j | 0 <= i < j < |nets| :: nets[i].id != nets[j].id }

  predicate OneActive(nets: Networks) { forall i, j | 0 <= i < j < |nets| :: !(nets[i].active && nets[j].active) }

  predicate Good(nets: Networks) { DistinctIds(nets) && OneActive(nets) }

  datatype Edit =
    | Add(slug: string, uuid: string, ssid: string, psk: string, hidden: bool, priority: int)
    | Update(id: string, ssid: string, psk: string, hidden: bool, priority: int)
    | Delete(id: string)
    | Adopt(id: string, uuid: string)
    | Activate(id: string)

  function Do(nets: Networks, slug: string -> string, e: Edit): Networks {
    match e
    case Add(s, uuid, ssid, psk, hidden, priority) => Added(nets, s, uuid, ssid, psk, hidden, priority)
    case Update(id, ssid, psk, hidden, priority) => Updated(nets, id, ssid, psk, hidden, priority)
    case Delete(id) => Deleted(nets, id)
    case Adopt(id, uuid) => Adopted(nets, id, slug, uuid).0
    case Activate(id) => Activated(nets, id)
  }

  lemma AddedKeepsGood(nets: Networks, n: Network)
    requires Good(nets) && n.id !in Ids(nets) && !n.active
    ensures Good(nets + [n])
  {}

  lemma ReplacedKeepsGood(nets: Networks, i: nat, n: Network)
    requires Good(nets) && i < |nets| && n.active == nets[i].active
    requires n.id == nets[i].id || n.id !in Ids(nets)
    ensures Good(nets[i := n])
  {}

  lemma DeletedKeepsGood(nets: Networks, i: nat)
    requires Good(nets) && i < |nets|
    ensures Good(nets[..i] + nets[i + 1..])
  {}

  lemma EditKeepsGood(nets: Networks, slug: string -> string, e: Edit)
    requires Good(nets)
    ensures Good(Do(nets, slug, e))
  {
    match e
    case Add(s, uuid, ssid, psk, hidden, priority) =>
      AddedKeepsGood(nets, Added(nets, s, uuid, ssid, psk, hidden, priority)[|nets|]);
    case Update(id, ssid, psk, hidden, priority) =>
      var i := IndexOf(nets, id);
      if i < |nets| { ReplacedKeepsGood(nets, i, Edited(nets[i], ssid, psk, hidden, priority)); }
    case Delete(id) =>
      if IndexOf(nets, id) < |nets| { DeletedKeepsGood(nets, IndexOf(nets, id)); }
    case Adopt(id, uuid) =>
      var i := ForeignIndex(nets, id);
      if i < |nets| { ReplacedKeepsGood(nets, i, Adopted(nets, id, slug, uuid).0[i]); }
    case Activate(id) =>
  }

  function Run(nets: Networks, slug: string -> string, edits: seq<Edit>): Networks {
    if edits == [] then nets else Do(Run(nets, slug, edits[..|edits| - 1]), slug, edits[|edits| - 1])
  }

  /** Every run of edits keeps ids distinct and at most one network active. */
  lemma {:induction false} RunKeepsGood(nets: Networks, slug: string -> string, edits: seq<Edit>)
    requires Good(nets)
    ensures Good(Run(nets, slug, edits))
  {
    if edits != [] {
      RunKeepsGood(nets, slug, edits[..|edits| - 1]);
      EditKeepsGood(Run(nets, slug, edits[..|edits| - 1]), slug, edits[|edits| - 1]);
    }
  }

  /** Deleting the network just added gives the old list back. */
  lemma DeleteUndoesAdd(nets: Networks, slug: string, uuid: string, ssid: string, psk: string, hidden: bool, priority: int)
    ensures Deleted(Added(nets, slug, uuid, ssid, psk, hidden, priority), FreshId(nets, Base(slug))) == nets
  {
    var id := FreshId(nets, Base(slug));
    var more := Added(nets, slug, uuid, ssid, psk, hidden, priority);
    var i := IndexOf(more, id);
    assert more[|nets|].id == id;
    assert i == |nets| by {
      assert forall j | 0 <= j < |nets| :: nets[j] in nets && more[j] == nets[j];
    }
    assert more[..i] + more[i + 1..] == nets;
  }

  /** A deletion takes out its own network alone; the others keep their order. */
  lemma DeleteTouchesOne(nets: Networks, id: string)
    requires Good(nets)
    ensures var r := Deleted(nets, id);
            && id !in Ids(r)
            && (id !in Ids(nets) ==> r == nets)
            && (id in Ids(nets) ==> exists k :: 0 <= k < |nets| && nets[k].id == id && r == nets[..k] + nets[k + 1..])
  {
    var r, k := Deleted(nets, id), IndexOf(nets, id);
    if k < |nets| { assert nets[k] in nets; }
    forall n | n in r ensures n.id != id {
      var j :| 0 <= j < |r| && r[j] == n;
      assert n == if j < k then nets[j] else nets[j + 1];
    }
  }
  /** Activating activates.  Afterwards exactly the network with the id is active; it has
      the device and an address, all others have neither, and nothing else changed.  So
      if the list holds the id, exactly one network is active; if not, none is. */
  lemma ActivateExactly(nets: Networks, slug: string -> string, id: string)
    requires Good(nets)
    ensures var r := Do(nets, slug, Activate(id));
            && |r| == |nets|
            && (forall i | 0 <= i < |nets| ::
                  && (r[i].active <==> nets[i].id == id)
                  && r[i].device == (if r[i].active then "wlan0" else "")
                  && r[i].ipv4 == (if r[i].active then "192.168.1.42" else "")
                  && r[i].(active := nets[i].active, device := nets[i].device, ipv4 := nets[i].ipv4) == nets[i])
            && (id in Ids(nets) ==> exists i :: ActiveAlone(r, i))
            && (id !in Ids(nets) ==> forall i | 0 <= i < |nets| :: !r[i].active)
  {
    var r := Do(nets, slug, Activate(id));
    if id in Ids(nets) {
      var n :| n in nets && n.id == id;
      var i :| 0 <= i < |nets| && nets[i] == n;
      assert ActiveAlone(r, i);
    } else {
      forall i | 0 <= i < |nets| ensures nets[i].id != id { assert nets[i] in nets; }
    }
  }

  predicate ActiveAlone(nets: Networks, i: nat) {
    i < |nets| && nets[i].active && forall j | 0 <= j < |nets| && j != i :: !nets[j].active
  }
}
