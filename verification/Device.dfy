/** The WireGuard interface and the incremental update that brings it from one set of
    peers to the next. What the `wg` commands do to the interface is an assumption,
    stated by the functions on `DevState`. */
module Devices {
  import opened Nets
  import opened Model
  import opened Wrappers

  datatype AllowedNet = AllowedNet(family: Family, net: Net)

  /** The fields of a peer; an all-zero preshared key means none. */
  datatype DevPeer = DevPeer(endpoint: Option<Endpoint>, psk: Key, keepalive: nat)

  /** The interface: its peers, and for each allowed network the one peer that has it. */
  datatype DevState = DevState(peers: map<Key, DevPeer>, owner: map<AllowedNet, Key>)

  // ----- the `wg` commands -----

  /** A `[Peer]` section for `wg addconf`; absent fields are not written. */
  datatype Section = Section(
    key: Key, keepalive: nat, allowed: seq<AllowedNet>, endpoint: Option<Endpoint>, psk: Option<Key>)

  const NO_PEER := DevPeer(None, 0, 0)

  function WritePeer(dev: DevState, s: Section): DevPeer {
    var p := if s.key in dev.peers then dev.peers[s.key] else NO_PEER;
    DevPeer(if s.endpoint.Some? then s.endpoint else p.endpoint,
            if s.psk.Some? then s.psk.value else p.psk,
            s.keepalive)
  }

  /** The section's networks replace those of the peer and leave any other peer. */
  function ApplySection(dev: DevState, s: Section): DevState {
    DevState(
      dev.peers[s.key := WritePeer(dev, s)],
      (map a | a in dev.owner && dev.owner[a] != s.key :: dev.owner[a]) + (map a | a in s.allowed :: s.key))
  }

  function AddConf(dev: DevState, config: seq<Section>): DevState {
    if config == [] then dev
    else ApplySection(AddConf(dev, config[..|config| - 1]), config[|config| - 1])
  }

  /** One `wg set` with a removal for each key. */
  function RemovePeers(dev: DevState, keys: set<Key>): DevState {
    DevState(
      map k | k in dev.peers && k !in keys :: dev.peers[k],
      map a | a in dev.owner && dev.owner[a] !in keys :: dev.owner[a])
  }

  // ----- what an update has to achieve -----

  predicate Lists(p: Peer, a: AllowedNet) {
    a.net in p.Nets(a.family)
  }

  function AllowedOf(p: Peer): (r: seq<AllowedNet>)
    ensures forall a :: a in r <==> Lists(p, a)
  {
    var v4 := seq(|p.ipv4|, i requires 0 <= i < |p.ipv4| => AllowedNet(V4, p.ipv4[i]));
    var v6 := seq(|p.ipv6|, i requires 0 <= i < |p.ipv6| => AllowedNet(V6, p.ipv6[i]));
    assert forall a :: a in v4 <==> a.family == V4 && a.net in p.ipv4 by {
      assert forall i :: 0 <= i < |p.ipv4| ==> v4[i] == AllowedNet(V4, p.ipv4[i]);
    }
    assert forall a :: a in v6 <==> a.family == V6 && a.net in p.ipv6 by {
      assert forall i :: 0 <= i < |p.ipv6| ==> v6[i] == AllowedNet(V6, p.ipv6[i]);
    }
    v4 + v6
  }

  function PskOf(psk: Option<Secret>): Key {
    if psk.Some? then psk.value.key else 0
  }

  predicate Changed(prev: Config, next: Config, k: Key) {
    k in next && (k in prev ==> prev[k] != next[k])
  }

  function SectionFor(prev: Config, next: Config, k: Key): Section
    requires k in next
  {
    var conf := next[k];
    var oldEndpoint := if k in prev then prev[k].endpoint else None;
    var oldPsk := if k in prev then prev[k].psk else None;
    Section(k, conf.keepalive, AllowedOf(conf),
            if oldEndpoint != conf.endpoint then conf.endpoint else None,
            if oldPsk != conf.psk then Some(PskOf(conf.psk)) else None)
  }

  /** Some peer among `keys` is to have `a`. */
  ghost predicate Wanted(next: Config, keys: set<Key>, a: AllowedNet) {
    exists k :: k in keys && k in next && Lists(next[k], a)
  }

  ghost predicate OwnerAfter(
      before: DevState, next: Config, written: set<Key>, gone: set<Key>, after: DevState, a: AllowedNet)
  {
    if Wanted(next, written, a) then
      a in after.owner && after.owner[a] in written && after.owner[a] in next && Lists(next[after.owner[a]], a)
    else
      && (a in after.owner <==> a in before.owner && before.owner[a] !in written + gone)
      && (a in after.owner ==> after.owner[a] == before.owner[a])
  }

  /** `after` is `before` with the sections of the peers `written` applied, in any
      order, and the peers `gone` removed. */
  ghost predicate Updated(
      before: DevState, prev: Config, next: Config, written: set<Key>, gone: set<Key>, after: DevState)
    requires written <= next.Keys
  {
    && (forall k :: k in after.peers <==> k in written || (k in before.peers && k !in gone))
    && (forall k :: k in after.peers ==>
          after.peers[k] == if k in written then WritePeer(before, SectionFor(prev, next, k)) else before.peers[k])
    && (forall a :: OwnerAfter(before, next, written, gone, after, a))
  }

  ghost function ChangedKeys(prev: Config, next: Config): set<Key> {
    set k | k in next && Changed(prev, next, k)
  }

  function KeysOf(order: seq<Key>): set<Key> {
    set k | k in order
  }

  /** `order` lists the members of `keys`, each once. */
  ghost predicate IsOrder(order: seq<Key>, keys: set<Key>) {
    && (forall k :: k in order <==> k in keys)
    && (forall i, j :: 0 <= i < j < |order| ==> order[i] != order[j])
  }

  function Sections(prev: Config, next: Config, order: seq<Key>): seq<Section>
    requires forall k :: k in order ==> k in next
  {
    seq(|order|, i requires 0 <= i < |order| => SectionFor(prev, next, order[i]))
  }

  /** What the update does when it walks the changed peers in this order. */
  ghost predicate AppliedInOrder(before: DevState, prev: Config, next: Config, order: seq<Key>, after: DevState) {
    && IsOrder(order, ChangedKeys(prev, next))
    && after == RemovePeers(AddConf(before, Sections(prev, next, order)), prev.Keys - next.Keys)
  }

  /** A possible outcome of the update: that of some order. */
  ghost predicate Applied(before: DevState, prev: Config, next: Config, after: DevState) {
    exists order :: AppliedInOrder(before, prev, next, order, after)
  }

  lemma {:induction false} OneMoreSection(
      before: DevState, prev: Config, next: Config, written: set<Key>, dev: DevState, k: Key)
    requires written <= next.Keys && k in next && k !in written
    requires Updated(before, prev, next, written, {}, dev)
    ensures Updated(before, prev, next, written + {k}, {}, ApplySection(dev, SectionFor(prev, next, k)))
  {
    hide OwnerAfter, AllowedOf;
    forall a
      ensures OwnerAfter(before, next, written + {k}, {}, ApplySection(dev, SectionFor(prev, next, k)), a)
    {
      assert OwnerAfter(before, next, written, {}, dev, a);
      OwnerAfterOneMore(before, prev, next, written, dev, k, a);
    }
  }

  lemma OwnerAfterOneMore(
      before: DevState, prev: Config, next: Config, written: set<Key>, dev: DevState, k: Key, a: AllowedNet)
    requires written <= next.Keys && k in next && k !in written
    requires OwnerAfter(before, next, written, {}, dev, a)
    ensures OwnerAfter(before, next, written + {k}, {}, ApplySection(dev, SectionFor(prev, next, k)), a)
  {
    hide AllowedOf, WritePeer;
    assert a in SectionFor(prev, next, k).allowed <==> Lists(next[k], a);
    assert Wanted(next, written + {k}, a) <==> Wanted(next, written, a) || Lists(next[k], a);
  }

  class Device {
    var dev: DevState

    constructor (dev: DevState)
      ensures this.dev == dev
    {
      this.dev := dev;
    }

    /** Hash maps are walked in an order the program does not choose. */
    method ApplyDiff(prev: Config, next: Config)
      modifies this
      ensures Applied(old(dev), prev, next, dev)
    {
      hide AddConf, ApplySection, AllowedOf, RemovePeers;
      var config := [];
      ghost var order: seq<Key> := [];
      var todo := next.Keys;
      while todo != {}
        invariant todo <= next.Keys && IsOrder(order, ChangedKeys(prev, next) - todo)
        invariant config == Sections(prev, next, order)
      {
        var pubkey :| pubkey in todo;
        todo := todo - {pubkey};
        var conf := next[pubkey];
        var oldEndpoint: Option<Endpoint>, oldPsk: Option<Secret> := None, None;
        if pubkey in prev {
          if prev[pubkey] == conf {
            continue;
          }
          oldEndpoint, oldPsk := prev[pubkey].endpoint, prev[pubkey].psk;
        }
        var section := Section(pubkey, conf.keepalive, AllowedOf(conf), None, None);
        if oldEndpoint != conf.endpoint {
          if conf.endpoint.Some? {
            section := section.(endpoint := conf.endpoint);
          }
        }
        if oldPsk != conf.psk {
          section := section.(psk := Some(if conf.psk.Some? then conf.psk.value.key else 0));
        }
        config := config + [section];
        order := order + [pubkey];
      }
      dev := AddConf(dev, config);

      var anyRemoved := false;
      var removed: set<Key> := {};
      todo := prev.Keys;
      while todo != {}
        invariant todo <= prev.Keys && removed == prev.Keys - next.Keys - todo
        invariant anyRemoved <==> removed != {}
      {
        var pubkey :| pubkey in todo;
        todo := todo - {pubkey};
        if pubkey in next {
          continue;
        }
        anyRemoved := true;
        removed := removed + {pubkey};
      }
      RemoveNone(dev);
      if anyRemoved {
        dev := RemovePeers(dev, removed);
      }
      assert removed == prev.Keys - next.Keys;
      assert AppliedInOrder(old(dev), prev, next, order, dev);
    }
  }

  lemma AddOne(dev: DevState, config: seq<Section>, s: Section)
    ensures AddConf(dev, config + [s]) == ApplySection(AddConf(dev, config), s)
  {
    assert (config + [s])[..|config|] == config;
  }

  lemma AddNothing(dev: DevState)
    ensures AddConf(dev, []) == dev
  {}

  /** The last section that lists a network decides who has it. */
  lemma LastWriterHas(dev: DevState, config: seq<Section>, s: Section, a: AllowedNet)
    requires a in s.allowed
    ensures var owner := AddConf(dev, config + [s]).owner; a in owner && owner[a] == s.key
  {
    AddOne(dev, config, s);
  }

  lemma RemoveNone(dev: DevState)
    ensures RemovePeers(dev, {}) == dev
  {}

  lemma UpdatedByNothing(dev: DevState, prev: Config, next: Config)
    ensures Updated(dev, prev, next, {}, {}, dev)
  {
    forall a ensures OwnerAfter(dev, next, {}, {}, dev, a) {}
  }

  lemma RemoveLast(before: DevState, prev: Config, next: Config, written: set<Key>, gone: set<Key>, dev: DevState)
    requires written <= next.Keys && gone !! written && Updated(before, prev, next, written, {}, dev)
    ensures Updated(before, prev, next, written, gone, RemovePeers(dev, gone))
  {
    forall a ensures OwnerAfter(before, next, written, gone, RemovePeers(dev, gone), a) {
      assert OwnerAfter(before, next, written, {}, dev, a);
    }
  }

  lemma {:induction false} SectionsInOrder(before: DevState, prev: Config, next: Config, order: seq<Key>)
    requires forall k :: k in order ==> k in next
    requires forall i, j :: 0 <= i < j < |order| ==> order[i] != order[j]
    ensures Updated(before, prev, next, KeysOf(order), {}, AddConf(before, Sections(prev, next, order)))
  {
    hide Updated, SectionFor, ApplySection, AddConf;
    if order == [] {
      UpdatedByNothing(before, prev, next);
      AddNothing(before);
      assert Sections(prev, next, order) == [];
      assert KeysOf(order) == {};
    } else {
      var n := |order| - 1;
      var front, last := order[..n], order[n];
      SectionsInOrder(before, prev, next, front);
      OneMoreSection(before, prev, next, KeysOf(front), AddConf(before, Sections(prev, next, front)), last);
      assert KeysOf(order) == KeysOf(front) + {last};
      AddOne(before, Sections(prev, next, front), SectionFor(prev, next, last));
      assert Sections(prev, next, order) == Sections(prev, next, front) + [SectionFor(prev, next, last)];
    }
  }

  /** Whatever the order: the fields afterwards, and who may have each network. */
  lemma AppliedMeans(before: DevState, prev: Config, next: Config, after: DevState)
    requires Applied(before, prev, next, after)
    ensures Updated(before, prev, next, ChangedKeys(prev, next), prev.Keys - next.Keys, after)
  {
    hide Updated, AddConf, RemovePeers, SectionFor;
    var order :| AppliedInOrder(before, prev, next, order, after);
    SectionsInOrder(before, prev, next, order);
    assert KeysOf(order) == ChangedKeys(prev, next);
    RemoveLast(before, prev, next, ChangedKeys(prev, next), prev.Keys - next.Keys,
               AddConf(before, Sections(prev, next, order)));
  }
}
