/** How far the interface follows the tracked configuration, over single updates and
    over whole runs. */
module Refinement {
  import opened Nets
  import opened Model
  import opened Devices
  import opened Wrappers

  /** The fields other than the allowed networks. The program writes no endpoint when
      the configuration has none, so the interface then keeps its own. */
  predicate PeerAgrees(dev: DevState, cfg: Config, k: Key)
    requires k in cfg
  {
    && k in dev.peers
    && dev.peers[k].keepalive == cfg[k].keepalive
    && (cfg[k].psk.Some? ==> dev.peers[k].psk == cfg[k].psk.value.key)
    && (cfg[k].psk.None? ==> dev.peers[k].psk == 0)
    && (cfg[k].endpoint.Some? ==> dev.peers[k].endpoint == cfg[k].endpoint)
  }

  ghost predicate FieldsAgree(dev: DevState, cfg: Config) {
    forall k :: k in cfg ==> PeerAgrees(dev, cfg, k)
  }

  /** No tracked peer has a network its configuration does not list. */
  ghost predicate OwnsOnlyListed(dev: DevState, cfg: Config) {
    forall a :: a in dev.owner && dev.owner[a] in cfg ==> Lists(cfg[dev.owner[a]], a)
  }

  predicate Has(dev: DevState, a: AllowedNet, k: Key) {
    a in dev.owner && dev.owner[a] == k
  }

  /** Every tracked peer has all the networks its configuration lists. */
  ghost predicate OwnsAllListed(dev: DevState, cfg: Config) {
    forall k, a :: k in cfg && Lists(cfg[k], a) ==> Has(dev, a, k)
  }

  /** No network is listed for two peers. */
  ghost predicate Disjoint(cfg: Config) {
    forall k, l, a :: k in cfg && l in cfg && Lists(cfg[k], a) && Lists(cfg[l], a) ==> k == l
  }

  /** Peers that join the configuration are new to the interface, or have no preshared
      key there, or are given one. */
  ghost predicate JoinsCleanly(dev: DevState, prev: Config, next: Config) {
    forall k :: k in next && k !in prev && k in dev.peers ==> next[k].psk.Some? || dev.peers[k].psk == 0
  }

  /** Some peer the update writes lists the network. */
  ghost predicate Claimed(prev: Config, next: Config, a: AllowedNet) {
    exists l :: Changed(prev, next, l) && Lists(next[l], a)
  }

  // ----- one update -----

  /** Whatever the configurations, and in whatever order the maps are walked. */
  lemma UpdateKeepsOwnsOnlyListed(before: DevState, prev: Config, next: Config, after: DevState)
    requires OwnsOnlyListed(before, prev) && Applied(before, prev, next, after)
    ensures OwnsOnlyListed(after, next)
  {
    hide Applied;
    AppliedMeans(before, prev, next, after);
    forall a | a in after.owner && after.owner[a] in next
      ensures Lists(next[after.owner[a]], a)
    {
      assert OwnerAfter(before, next, ChangedKeys(prev, next), prev.Keys - next.Keys, after, a);
    }
  }

  /** The fields come out right except for exactly one family of cases: a peer new to
      the configuration, already on the interface with a preshared key, and configured
      without one. */
  lemma UpdateSetsFields(before: DevState, prev: Config, next: Config, after: DevState)
    requires FieldsAgree(before, prev) && Applied(before, prev, next, after)
    ensures FieldsAgree(after, next) <==> JoinsCleanly(before, prev, next)
  {
    hide Applied, OwnerAfter;
    AppliedMeans(before, prev, next, after);
    forall k | k in next
      ensures PeerAgrees(after, next, k) <==>
              (k !in prev && k in before.peers ==> next[k].psk.Some? || before.peers[k].psk == 0)
    {
      if k in prev {
        assert PeerAgrees(before, prev, k);
      }
      assert k in ChangedKeys(prev, next) <==> Changed(prev, next, k);
    }
  }

  /** What the update writes to a peer that is new or differs, field by field: the
      keepalive always; a new or different endpoint or preshared key; the all-zero key
      if the peer had one and is to have none. All else stays, and is nothing for a peer
      the interface did not have. */
  lemma UpdateWritesFields(before: DevState, prev: Config, next: Config, after: DevState, k: Key)
    requires Applied(before, prev, next, after)
    requires k in next && (k !in prev || prev[k] != next[k])
    ensures k in after.peers
    ensures after.peers[k].keepalive == next[k].keepalive
    ensures next[k].endpoint.Some? && (k in prev ==> prev[k].endpoint != next[k].endpoint) ==>
      after.peers[k].endpoint == next[k].endpoint
    ensures next[k].endpoint.None? || (k in prev && prev[k].endpoint == next[k].endpoint) ==>
      after.peers[k].endpoint == if k in before.peers then before.peers[k].endpoint else None
    ensures next[k].psk.Some? && (k in prev ==> prev[k].psk != next[k].psk) ==>
      after.peers[k].psk == next[k].psk.value.key
    ensures next[k].psk.None? && k in prev && prev[k].psk.Some? ==> after.peers[k].psk == 0
    ensures (if k in prev then prev[k].psk == next[k].psk else next[k].psk.None?) ==>
      after.peers[k].psk == if k in before.peers then before.peers[k].psk else 0
  {
    hide Applied, OwnerAfter;
    AppliedMeans(before, prev, next, after);
    assert k in ChangedKeys(prev, next);
  }

  /** The networks of the written peers: each that one of them lists goes to one that lists
      it, and those a written peer has are among the ones it lists. */
  lemma UpdateWritesNetworks(before: DevState, prev: Config, next: Config, after: DevState, k: Key, n: Net)
    requires Applied(before, prev, next, after)
    requires k in next && (k !in prev || prev[k] != next[k])
    ensures n in next[k].ipv4 ==>
      var a := AllowedNet(V4, n);
      a in after.owner && after.owner[a] in next && n in next[after.owner[a]].ipv4
    ensures n in next[k].ipv6 ==>
      var a := AllowedNet(V6, n);
      a in after.owner && after.owner[a] in next && n in next[after.owner[a]].ipv6
    ensures Has(after, AllowedNet(V4, n), k) ==> n in next[k].ipv4
    ensures Has(after, AllowedNet(V6, n), k) ==> n in next[k].ipv6
  {
    hide Applied;
    AppliedMeans(before, prev, next, after);
    var written, gone := ChangedKeys(prev, next), prev.Keys - next.Keys;
    assert k in written;
    assert OwnerAfter(before, next, written, gone, after, AllowedNet(V4, n));
    assert OwnerAfter(before, next, written, gone, after, AllowedNet(V6, n));
    assert Lists(next[k], AllowedNet(V4, n)) <==> n in next[k].ipv4;
    assert Lists(next[k], AllowedNet(V6, n)) <==> n in next[k].ipv6;
  }

  /** A peer has one of its networks after the update. */
  lemma OwnerOf(before: DevState, prev: Config, next: Config, after: DevState, k: Key, a: AllowedNet)
    requires Applied(before, prev, next, after) && Disjoint(next)
    requires k in next && Lists(next[k], a)
    ensures Has(after, a, k) <==> Changed(prev, next, k) || Has(before, a, k)
  {
    hide Applied;
    AppliedMeans(before, prev, next, after);
    var written := ChangedKeys(prev, next);
    assert OwnerAfter(before, next, written, prev.Keys - next.Keys, after, a);
    if k in written {
      assert Wanted(next, written, a);
    }
  }

  /** Starting from any interface, all networks come out right if and only if the new
      configuration lists none twice and the peers it leaves alone already have theirs. */
  lemma UpdateDeliversNetworks(before: DevState, prev: Config, next: Config, after: DevState)
    requires Applied(before, prev, next, after)
    ensures OwnsAllListed(after, next) <==>
            && Disjoint(next)
            && forall k, a :: k in next && !Changed(prev, next, k) && Lists(next[k], a) ==> Has(before, a, k)
  {
    if OwnsAllListed(after, next) {
      assert Disjoint(next) by {
        forall k, l, a | k in next && l in next && Lists(next[k], a) && Lists(next[l], a) ensures k == l {
          assert Has(after, a, k) && Has(after, a, l);
        }
      }
      forall k, a | k in next && !Changed(prev, next, k) && Lists(next[k], a) ensures Has(before, a, k) {
        OwnerOf(before, prev, next, after, k, a);
      }
    } else if Disjoint(next) {
      var k, a :| k in next && Lists(next[k], a) && !Has(after, a, k);
      OwnerOf(before, prev, next, after, k, a);
    }
  }

  /** From an interface that has all networks of the old configuration, only the new
      one decides. */
  lemma UpdateKeepsOwnsAllListed(before: DevState, prev: Config, next: Config, after: DevState)
    requires OwnsAllListed(before, prev) && Applied(before, prev, next, after)
    ensures OwnsAllListed(after, next) <==> Disjoint(next)
  {
    UpdateDeliversNetworks(before, prev, next, after);
  }

  /** A peer the update does not write has a network afterwards if and only if it had it
      before, no peer that is written lists it, and it is not removed. */
  lemma UnwrittenPeerKeepsNetworks(
      before: DevState, prev: Config, next: Config, after: DevState, k: Key, a: AllowedNet)
    requires Applied(before, prev, next, after) && !Changed(prev, next, k)
    ensures Has(after, a, k) <==> Has(before, a, k) && !Claimed(prev, next, a) && (k in prev ==> k in next)
  {
    hide Applied;
    AppliedMeans(before, prev, next, after);
    var written := ChangedKeys(prev, next);
    assert OwnerAfter(before, next, written, prev.Keys - next.Keys, after, a);
    if Claimed(prev, next, a) {
      var l :| Changed(prev, next, l) && Lists(next[l], a);
      assert l in written;
    }
  }

  /** A peer that is written has each of its networks that no other written peer lists. */
  lemma UncontestedWriteDelivers(
      before: DevState, prev: Config, next: Config, after: DevState, k: Key, a: AllowedNet)
    requires Applied(before, prev, next, after) && Changed(prev, next, k) && Lists(next[k], a)
    requires forall l :: Changed(prev, next, l) && Lists(next[l], a) ==> l == k
    ensures Has(after, a, k)
  {
    hide Applied;
    AppliedMeans(before, prev, next, after);
    var written := ChangedKeys(prev, next);
    assert OwnerAfter(before, next, written, prev.Keys - next.Keys, after, a);
    assert k in written;
    assert Wanted(next, written, a);
  }

  /** Peers the configuration drops disappear, with their networks. Peers it never had
      keep their fields, and their networks unless a changed peer now lists them. */
  lemma UpdateTouchesOnlyItsPeers(before: DevState, prev: Config, next: Config, after: DevState, k: Key)
    requires Applied(before, prev, next, after) && k !in next
    ensures k in prev ==> k !in after.peers && forall a :: !Has(after, a, k)
    ensures k !in prev ==> (k in after.peers <==> k in before.peers)
    ensures k !in prev && k in before.peers ==> after.peers[k] == before.peers[k]
    ensures k !in prev ==> forall a :: Has(after, a, k) <==> Has(before, a, k) && !Claimed(prev, next, a)
  {
    hide Applied, Claimed, OwnerAfter;
    AppliedMeans(before, prev, next, after);
    forall a {
      UnwrittenPeerKeepsNetworks(before, prev, next, after, k, a);
    }
  }

  /** If no network is listed twice, all orders of walking the maps give the same
      interface. */
  lemma OrderDoesNotMatter(before: DevState, prev: Config, next: Config, after: DevState, other: DevState)
    requires Applied(before, prev, next, after) && Applied(before, prev, next, other) && Disjoint(next)
    ensures after == other
  {
    hide Applied;
    AppliedMeans(before, prev, next, after);
    AppliedMeans(before, prev, next, other);
    var written, gone := ChangedKeys(prev, next), prev.Keys - next.Keys;
    forall a
      ensures a in after.owner <==> a in other.owner
      ensures a in after.owner ==> after.owner[a] == other.owner[a]
    {
      assert OwnerAfter(before, next, written, gone, after, a);
      assert OwnerAfter(before, next, written, gone, other, a);
    }
  }

  /** A peer joins that the interface already has with a preshared key, and is to have
      none: the update leaves the old key in place. */
  lemma JoiningPeerKeepsItsKey() returns (before: DevState, next: Config, after: DevState)
    ensures before == DevState(map[1 := DevPeer(None, 7, 0)], map[])
    ensures next == map[1 := Peer(None, None, 0, [], [])]
    ensures AppliedInOrder(before, map[], next, [1], after) && FieldsAgree(before, map[])
    ensures !FieldsAgree(after, next) && after.peers[1].psk == 7
  {
    var prev: Config := map[];
    next := map[1 := Peer(None, None, 0, [], [])];
    before := DevState(map[1 := DevPeer(None, 7, 0)], map[]);
    var s := SectionFor(prev, next, 1);
    after := AddConf(before, [s]);
    assert AppliedInOrder(before, prev, next, [1], after) by {
      assert Sections(prev, next, [1]) == [s];
      assert ChangedKeys(prev, next) == {1} && prev.Keys - next.Keys == {};
      RemoveNone(after);
    }
    AddOne(before, [], s);
    AddNothing(before);
    assert [] + [s] == [s];
    assert !PeerAgrees(after, next, 1);
  }

  /** An update to the same configuration would change nothing, so leaving it out is
      the same. */
  lemma SameConfigurationIsNoUpdate(dev: DevState, cfg: Config)
    ensures Applied(dev, cfg, cfg, dev)
  {
    assert cfg.Keys - cfg.Keys == {};
    RemoveNone(dev);
    assert AppliedInOrder(dev, cfg, cfg, [], dev);
  }

  // ----- whole runs -----

  ghost predicate Run(devs: seq<DevState>, cfgs: seq<Config>) {
    && |devs| == |cfgs| > 0
    && forall i :: 0 < i < |devs| ==> Applied(devs[i - 1], cfgs[i - 1], cfgs[i], devs[i])
  }

  lemma {:induction false} RunOwnsOnlyListed(devs: seq<DevState>, cfgs: seq<Config>, i: nat)
    requires Run(devs, cfgs) && OwnsOnlyListed(devs[0], cfgs[0]) && i < |devs|
    ensures OwnsOnlyListed(devs[i], cfgs[i])
  {
    hide Applied;
    if i > 0 {
      RunOwnsOnlyListed(devs, cfgs, i - 1);
      UpdateKeepsOwnsOnlyListed(devs[i - 1], cfgs[i - 1], cfgs[i], devs[i]);
    }
  }

  /** Throughout a run the peers have all their networks if and only if no
      configuration of the run lists a network twice. */
  lemma {:induction false} RunDeliversIffDisjoint(devs: seq<DevState>, cfgs: seq<Config>, n: nat)
    requires Run(devs, cfgs) && OwnsAllListed(devs[0], cfgs[0]) && n < |devs|
    ensures (forall i :: 0 <= i <= n ==> OwnsAllListed(devs[i], cfgs[i])) <==>
            (forall i :: 0 <= i <= n ==> Disjoint(cfgs[i]))
  {
    hide Applied;
    if n == 0 {
      assert Disjoint(cfgs[0]) by {
        forall k, l, a | k in cfgs[0] && l in cfgs[0] && Lists(cfgs[0][k], a) && Lists(cfgs[0][l], a) ensures k == l {
          assert Has(devs[0], a, k) && Has(devs[0], a, l);
        }
      }
    } else {
      RunDeliversIffDisjoint(devs, cfgs, n - 1);
      if OwnsAllListed(devs[n - 1], cfgs[n - 1]) {
        UpdateKeepsOwnsAllListed(devs[n - 1], cfgs[n - 1], cfgs[n], devs[n]);
      }
    }
  }

  /** A peer that no update after step `m` writes or removes has a network at step `n`
      if and only if it had it at `m` and no peer written since lists it. */
  lemma {:induction false} UnwrittenPeerOverRun(
      devs: seq<DevState>, cfgs: seq<Config>, m: nat, n: nat, k: Key, a: AllowedNet)
    requires Run(devs, cfgs) && m <= n < |devs|
    requires forall i :: m < i <= n ==> Unwritten(cfgs, i, k)
    ensures Has(devs[n], a, k) <==> Has(devs[m], a, k) && forall i :: m < i <= n ==> !ClaimedAt(cfgs, i, a)
    decreases n
  {
    hide Applied, Claimed;
    if m < n {
      UnwrittenPeerOverRun(devs, cfgs, m, n - 1, k, a);
      assert Unwritten(cfgs, n, k);
      UnwrittenPeerKeepsNetworks(devs[n - 1], cfgs[n - 1], cfgs[n], devs[n], k, a);
      assert ClaimedAt(cfgs, n, a) <==> Claimed(cfgs[n - 1], cfgs[n], a);
    }
  }

  predicate Unwritten(cfgs: seq<Config>, i: nat, k: Key)
    requires 0 < i < |cfgs|
  {
    !Changed(cfgs[i - 1], cfgs[i], k) && (k in cfgs[i - 1] ==> k in cfgs[i])
  }

  ghost predicate ClaimedAt(cfgs: seq<Config>, i: nat, a: AllowedNet)
    requires 0 < i < |cfgs|
  {
    Claimed(cfgs[i - 1], cfgs[i], a)
  }

  /** A peer that is in no configuration of a run stays as it was: it is there or not,
      its fields are the same, and it keeps exactly the networks it had that no peer
      written during the run lists. */
  lemma {:induction false} RunLeavesForeignPeersIntact(devs: seq<DevState>, cfgs: seq<Config>, n: nat, k: Key)
    requires Run(devs, cfgs) && n < |devs|
    requires forall i :: 0 <= i <= n ==> k !in cfgs[i]
    ensures k in devs[n].peers <==> k in devs[0].peers
    ensures k in devs[n].peers ==> devs[n].peers[k] == devs[0].peers[k]
    ensures forall a :: Has(devs[n], a, k) <==>
      Has(devs[0], a, k) && forall i :: 0 < i <= n ==> !ClaimedAt(cfgs, i, a)
  {
    hide Applied, Claimed;
    if n > 0 {
      RunLeavesForeignPeersIntact(devs, cfgs, n - 1, k);
      UpdateTouchesOnlyItsPeers(devs[n - 1], cfgs[n - 1], cfgs[n], devs[n], k);
    }
    forall a {
      UnwrittenPeerOverRun(devs, cfgs, 0, n, k, a);
    }
  }

  /** A peer that was in the configuration and no longer is has left the interface, with
      all its networks, and stays away until a configuration has it again. */
  lemma {:induction false} RunRemovesDroppedPeers(devs: seq<DevState>, cfgs: seq<Config>, m: nat, n: nat, k: Key)
    requires Run(devs, cfgs) && m < n < |devs| && k in cfgs[m]
    requires forall i :: m < i <= n ==> k !in cfgs[i]
    ensures k !in devs[n].peers && forall a :: !Has(devs[n], a, k)
    decreases n
  {
    hide Applied, Claimed;
    if m + 1 < n {
      RunRemovesDroppedPeers(devs, cfgs, m, n - 1, k);
    }
    UpdateTouchesOnlyItsPeers(devs[n - 1], cfgs[n - 1], cfgs[n], devs[n], k);
  }

  /** The last step up to `n` at which the peer was written or removed, or 0. */
  function LastWrite(cfgs: seq<Config>, n: nat, k: Key): (m: nat)
    requires n < |cfgs|
    ensures m <= n
    ensures m > 0 ==> !Unwritten(cfgs, m, k)
    ensures forall i :: m < i <= n ==> Unwritten(cfgs, i, k)
  {
    if n == 0 || !Unwritten(cfgs, n, k) then n
    else LastWrite(cfgs, n - 1, k)
  }

  /** No other peer was written with the network when `k` last was, or since. */
  ghost predicate Uncontested(cfgs: seq<Config>, n: nat, k: Key, a: AllowedNet)
    requires n < |cfgs|
  {
    var m := LastWrite(cfgs, n, k);
    && (m > 0 ==> forall l :: Changed(cfgs[m - 1], cfgs[m], l) && Lists(cfgs[m][l], a) ==> l == k)
    && (forall i :: m < i <= n ==> !ClaimedAt(cfgs, i, a))
  }

  /** The exact condition at one step of a run: a peer has a network it lists if and only
      if it got it when it was last written and no peer written since lists it. */
  lemma DeliveredSinceLastWrite(devs: seq<DevState>, cfgs: seq<Config>, n: nat)
    requires Run(devs, cfgs) && n < |devs|
    ensures OwnsAllListed(devs[n], cfgs[n]) <==>
      forall k, a :: k in cfgs[n] && Lists(cfgs[n][k], a) ==>
        var m := LastWrite(cfgs, n, k);
        Has(devs[m], a, k) && forall i :: m < i <= n ==> !ClaimedAt(cfgs, i, a)
  {
    hide Applied, Run, ClaimedAt, Unwritten;
    RunIsLong(devs, cfgs);
    forall k, a | k in cfgs[n] && Lists(cfgs[n][k], a)
      ensures var m := LastWrite(cfgs, n, k);
        Has(devs[n], a, k) <==> Has(devs[m], a, k) && forall i :: m < i <= n ==> !ClaimedAt(cfgs, i, a)
    {
      UnwrittenPeerOverRun(devs, cfgs, LastWrite(cfgs, n, k), n, k, a);
    }
  }

  lemma RunIsLong(devs: seq<DevState>, cfgs: seq<Config>)
    requires Run(devs, cfgs)
    ensures |devs| == |cfgs| > 0
  {}

  /** The configurations alone guarantee it, whatever the orders of walking the maps, if
      each network is uncontested since its peer was last written. */
  lemma UncontestedIsDelivered(devs: seq<DevState>, cfgs: seq<Config>, n: nat)
    requires Run(devs, cfgs) && OwnsAllListed(devs[0], cfgs[0]) && n < |devs|
    requires forall k, a :: k in cfgs[n] && Lists(cfgs[n][k], a) ==> Uncontested(cfgs, n, k, a)
    ensures OwnsAllListed(devs[n], cfgs[n])
  {
    hide Applied;
    forall k, a | k in cfgs[n] && Lists(cfgs[n][k], a)
      ensures Has(devs[n], a, k)
    {
      var m := LastWrite(cfgs, n, k);
      assert Uncontested(cfgs, n, k, a);
      UnwrittenPeerOverRun(devs, cfgs, m, n, k, a);
      SameSinceLastWrite(cfgs, n, k);
      if m > 0 {
        UncontestedWriteDelivers(devs[m - 1], cfgs[m - 1], cfgs[m], devs[m], k, a);
      }
    }
  }

  lemma {:induction false} SameSinceLastWrite(cfgs: seq<Config>, n: nat, k: Key)
    requires n < |cfgs| && k in cfgs[n]
    ensures var m := LastWrite(cfgs, n, k);
      k in cfgs[m] && cfgs[m][k] == cfgs[n][k] && (m > 0 ==> Changed(cfgs[m - 1], cfgs[m], k))
  {
    if LastWrite(cfgs, n, k) < n {
      assert Unwritten(cfgs, n, k);
      SameSinceLastWrite(cfgs, n - 1, k);
    }
  }

  /** Throughout a run the fields agree if and only if every peer joins cleanly. */
  lemma {:induction false} RunKeepsFieldsIffCleanJoins(devs: seq<DevState>, cfgs: seq<Config>, n: nat)
    requires Run(devs, cfgs) && FieldsAgree(devs[0], cfgs[0]) && n < |devs|
    ensures (forall i :: 0 <= i <= n ==> FieldsAgree(devs[i], cfgs[i])) <==>
            (forall i :: 0 < i <= n ==> JoinsCleanly(devs[i - 1], cfgs[i - 1], cfgs[i]))
  {
    hide Applied;
    if n > 0 {
      RunKeepsFieldsIffCleanJoins(devs, cfgs, n - 1);
      if FieldsAgree(devs[n - 1], cfgs[n - 1]) {
        UpdateSetsFields(devs[n - 1], cfgs[n - 1], cfgs[n], devs[n]);
      }
    }
  }

  /** A present configuration that lists nothing twice is not enough: after one that
      did, a peer that stays the same remains without its network. The interface is
      the one the commands leave behind when the first update writes peer 2 last. */
  lemma EarlierOverlapLeavesGaps() returns (devs: seq<DevState>, cfgs: seq<Config>)
    ensures |devs| == 3 && Run(devs, cfgs)
    ensures AppliedInOrder(devs[0], cfgs[0], cfgs[1], [1, 2], devs[1])
    ensures AppliedInOrder(devs[1], cfgs[1], cfgs[2], [], devs[2])
    ensures OwnsAllListed(devs[0], cfgs[0]) && FieldsAgree(devs[0], cfgs[0])
    ensures Disjoint(cfgs[2]) && !OwnsAllListed(devs[2], cfgs[2])
  {
    hide AddConf, ApplySection;
    var a := AllowedNet(V4, Net(0, 0));
    var p := Peer(None, None, 0, [a.net], []);
    var none: Config, both: Config, one: Config := map[], map[1 := p, 2 := p], map[1 := p];
    var s1, s2 := SectionFor(none, both, 1), SectionFor(none, both, 2);
    var d0 := DevState(map[], map[]);
    var d1 := AddConf(d0, [s1, s2]);
    var d2 := RemovePeers(d1, {2});
    devs, cfgs := [d0, d1, d2], [none, both, one];
    assert AppliedInOrder(d0, none, both, [1, 2], d1) by {
      assert Sections(none, both, [1, 2]) == [s1, s2];
      assert ChangedKeys(none, both) == {1, 2} && none.Keys - both.Keys == {};
      RemoveNone(d1);
    }
    assert AppliedInOrder(d1, both, one, [], d2) by {
      assert ChangedKeys(both, one) == {} && both.Keys - one.Keys == {2};
      AddNothing(d1);
      assert Sections(both, one, []) == [];
    }
    assert Lists(one[1], a) && !Has(d2, a, 1) by {
      assert [s1] + [s2] == [s1, s2] && Lists(p, a);
      LastWriterHas(d0, [s1], s2, a);
    }
  }
}
