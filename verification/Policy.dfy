/** What the collected configuration guarantees to the administrator, whatever the
    sources declare. */
module Policy {
  import opened Nets
  import opened NetLists
  import opened Model
  import opened Declarations
  import opened Wrappers

  // ----- which networks a peer may use -----

  ghost predicate RoutedTo(gc: GlobalConfig, local: Key, defs: seq<Def>, m: nat, k: Key)
    requires m < |defs|
  {
    Route(gc, local, defs[..m], defs[m]) == Some(k)
  }

  /** Definition `m` goes to `k`, declares `n`, and its source may grant `n`. */
  ghost predicate Justifies(gc: GlobalConfig, local: Key, defs: seq<Def>, m: nat, f: Family, k: Key, n: Net)
    requires m < |defs|
  {
    && RoutedTo(gc, local, defs, m, k)
    && n in defs[m].Decl().Nets(f)
    && WhollyCovered(Width(f), defs[m].src.Ranges(f), n)
  }

  lemma {:induction false} GrantedMeans(w: nat, ranges: seq<Net>, nets: seq<Net>, n: Net)
    ensures n in Granted(w, ranges, nets) <==> n in nets && WhollyCovered(w, ranges, n)
  {
    if nets != [] {
      GrantedMeans(w, ranges, nets[..|nets| - 1], n);
      assert nets == nets[..|nets| - 1] + [nets[|nets| - 1]];
    }
  }

  /** A peer may use a network exactly when some definition justifies it. */
  lemma {:induction false} DeliveredIffJustified(
      gc: GlobalConfig, local: Key, defs: seq<Def>, f: Family, k: Key, n: Net)
    ensures n in Delivered(gc, local, defs, f, k) <==>
            exists m :: 0 <= m < |defs| && Justifies(gc, local, defs, m, f, k, n)
  {
    hide Justifies, GrantedBy, Route;
    if defs != [] {
      var last := |defs| - 1;
      var front := defs[..last];
      DeliveredIffJustified(gc, local, front, f, k, n);
      LastJustifies(gc, local, defs, f, k, n);
      forall m | 0 <= m < last
        ensures Justifies(gc, local, defs, m, f, k, n) <==> Justifies(gc, local, front, m, f, k, n)
      {
        EarlierJustifies(gc, local, defs, m, f, k, n);
      }
      if exists m :: 0 <= m < |front| && Justifies(gc, local, front, m, f, k, n) {
        var m :| 0 <= m < |front| && Justifies(gc, local, front, m, f, k, n);
        assert Justifies(gc, local, defs, m, f, k, n);
      }
    }
  }

  lemma LastJustifies(gc: GlobalConfig, local: Key, defs: seq<Def>, f: Family, k: Key, n: Net)
    requires defs != []
    ensures var last := |defs| - 1;
      Justifies(gc, local, defs, last, f, k, n) <==>
      Route(gc, local, defs[..last], defs[last]) == Some(k) && n in GrantedBy(f, defs[last])
  {
    var d := defs[|defs| - 1];
    GrantedMeans(Width(f), d.src.Ranges(f), d.Decl().Nets(f), n);
  }

  lemma EarlierJustifies(gc: GlobalConfig, local: Key, defs: seq<Def>, m: nat, f: Family, k: Key, n: Net)
    requires m < |defs| - 1
    ensures Justifies(gc, local, defs, m, f, k, n) <==> Justifies(gc, local, defs[..|defs| - 1], m, f, k, n)
  {
    assert defs[..|defs| - 1][..m] == defs[..m];
  }

  lemma DeclaredNetIsJustified(
      gc: GlobalConfig, local: Key, defs: seq<Def>, f: Family, k: Key, n: Net) returns (m: nat)
    requires k in Declared(gc, local, defs) && n in Declared(gc, local, defs)[k].Nets(f)
    ensures m < |defs| && Justifies(gc, local, defs, m, f, k, n)
  {
    hide WhollyCovered, Justifies;
    DeliveredIffJustified(gc, local, defs, f, k, n);
    m :| 0 <= m < |defs| && Justifies(gc, local, defs, m, f, k, n);
  }

  lemma RoutedIsKnown(gc: GlobalConfig, local: Key, defs: seq<Def>, m: nat, k: Key)
    requires m < |defs| && RoutedTo(gc, local, defs, m, k)
    ensures Known(gc, local, defs, k)
  {
    if Known(gc, local, defs[..m], k) {
      var j :| 0 <= j < m && CreatesKey(gc, local, defs[..m][j], k);
      assert defs[j] == defs[..m][j];
    } else {
      assert CreatesKey(gc, local, defs[m], k);
    }
  }

  /** No address is ever allowed for a peer that the source of the definition behind
      it may not grant. */
  lemma AddressesComeFromPermittedRanges(
      gc: GlobalConfig, local: Key, defs: seq<Def>, f: Family, k: Key, x: int)
    requires k in Declared(gc, local, defs)
    requires Covered(Width(f), Declared(gc, local, defs)[k].Nets(f), x)
    ensures exists m ::
      0 <= m < |defs| && RoutedTo(gc, local, defs, m, k) && Covered(Width(f), defs[m].src.Ranges(f), x)
  {
    var nets := Declared(gc, local, defs)[k].Nets(f);
    var i :| 0 <= i < |nets| && Has(Width(f), nets[i], x);
    DeliveredIffJustified(gc, local, defs, f, k, nets[i]);
    var m :| 0 <= m < |defs| && Justifies(gc, local, defs, m, f, k, nets[i]);
  }

  // ----- which peers there are and how they are reached -----

  /** A source may define the key unless the key is pinned to a source of another name. */
  lemma AcceptedUnlessPinnedElsewhere(gc: GlobalConfig, src: SourceSettings, key: Key)
    ensures Accepts(gc, src, key) <==>
      (key !in gc.peers || gc.peers[key].source.None? || gc.peers[key].source == Some(src.name))
  {}

  /** The peers are the keys, other than the local one, that some source not kept from it
      by a pin defines as a server, or, if permitted, as a road warrior of this machine. */
  lemma WhoIsAPeer(gc: GlobalConfig, local: Key, defs: seq<Def>, k: Key)
    ensures k in Declared(gc, local, defs) <==>
      && k != local
      && exists m ::
           && 0 <= m < |defs|
           && defs[m].Decl().publicKey == k
           && (k in gc.peers && gc.peers[k].source.Some? ==> gc.peers[k].source.value == defs[m].src.name)
           && (defs[m].ServerDef? || (defs[m].roadWarrior.base == local && defs[m].src.allowRoadWarriors))
  {
    if exists m :: 0 <= m < |defs| && CreatesKey(gc, local, defs[m], k) {
      var m :| 0 <= m < |defs| && CreatesKey(gc, local, defs[m], k);
      assert defs[m].Decl().publicKey == k;
    }
    if k != local {
      forall m | 0 <= m < |defs| && defs[m].Decl().publicKey == k
        && (k in gc.peers && gc.peers[k].source.Some? ==> gc.peers[k].source.value == defs[m].src.name)
        && (defs[m].ServerDef? || (defs[m].roadWarrior.base == local && defs[m].src.allowRoadWarriors))
        ensures CreatesKey(gc, local, defs[m], k)
      {}
    }
  }

  /** How a peer is reached, field by field: the administrator's override for its key where
      there is one, and otherwise what the definition that created the peer and the
      settings of its source say. */
  lemma HowAPeerIsReached(gc: GlobalConfig, local: Key, defs: seq<Def>, k: Key) returns (m: nat)
    requires k in Declared(gc, local, defs)
    ensures m < |defs| && CreatesKey(gc, local, defs[m], k)
    ensures forall j :: 0 <= j < m ==> !CreatesKey(gc, local, defs[j], k)
    ensures k in gc.peers && gc.peers[k].endpoint.Some? ==>
      Declared(gc, local, defs)[k].endpoint == gc.peers[k].endpoint
    ensures k in gc.peers && gc.peers[k].psk.Some? ==>
      Declared(gc, local, defs)[k].psk == gc.peers[k].psk
    ensures k in gc.peers && gc.peers[k].keepalive.Some? ==>
      Declared(gc, local, defs)[k].keepalive == gc.peers[k].keepalive.value
    ensures k !in gc.peers || gc.peers[k].endpoint.None? ==>
      Declared(gc, local, defs)[k].endpoint == if defs[m].ServerDef? then Some(defs[m].server.endpoint) else None
    ensures k !in gc.peers || gc.peers[k].psk.None? ==>
      Declared(gc, local, defs)[k].psk == defs[m].src.psk
    ensures k !in gc.peers || gc.peers[k].keepalive.None? ==>
      Declared(gc, local, defs)[k].keepalive == gc.FixKeepalive(defs[m].Decl().keepalive)
  {
    hide Delivered;
    m := FirstCreator(gc, local, defs, k).value;
  }

  // ----- what the errors tell -----

  ghost predicate Reported(gc: GlobalConfig, local: Key, defs: seq<Def>, d: Def) {
    exists e :: e in Errors(gc, local, defs) && e.src == d.src.name && e.peer == d.Key()
  }

  /** A server definition of the local machine itself, which is skipped without notice. */
  predicate IsSelf(gc: GlobalConfig, local: Key, d: Def) {
    d.ServerDef? && d.Key() == local && Accepts(gc, d.src, d.Key())
  }

  ghost predicate FullyGranted(d: Def) {
    forall f: Family, n :: n in d.Decl().Nets(f) ==> WhollyCovered(Width(f), d.src.Ranges(f), n)
  }

  /** The definition is used as declared, or is about the local machine. */
  ghost predicate Clean(gc: GlobalConfig, local: Key, before: seq<Def>, d: Def) {
    || IsSelf(gc, local, d)
    || (&& Route(gc, local, before, d).Some?
        && (Creates(gc, local, d) ==> !Known(gc, local, before, d.Key()))
        && FullyGranted(d))
  }

  lemma NoIpErrorsIffFullyGranted(d: Def)
    ensures IpErrors(d) == [] <==> FullyGranted(d)
    ensures forall e :: e in IpErrors(d) ==> e.src == d.src.name && e.peer == d.Key()
  {
    GrantedAtMostAll(32, d.src.ipv4, d.Decl().ipv4);
    GrantedAtMostAll(128, d.src.ipv6, d.Decl().ipv6);
    assert FullyGranted(d) ==>
      (forall n :: n in d.Decl().Nets(V4) ==> WhollyCovered(32, d.src.Ranges(V4), n)) &&
      (forall n :: n in d.Decl().Nets(V6) ==> WhollyCovered(128, d.src.Ranges(V6), n));
  }

  /** One error tells about removed networks: none if all are granted, a minor one if some
      are, an important one if none is. */
  lemma IpErrorsMean(d: Def)
    ensures var refused :=
        || (exists n :: n in d.Decl().ipv4 && !WhollyCovered(32, d.src.ipv4, n))
        || (exists n :: n in d.Decl().ipv6 && !WhollyCovered(128, d.src.ipv6, n));
      var granted :=
        || (exists n :: n in d.Decl().ipv4 && WhollyCovered(32, d.src.ipv4, n))
        || (exists n :: n in d.Decl().ipv6 && WhollyCovered(128, d.src.ipv6, n));
      IpErrors(d) ==
        if !refused then []
        else if granted then [Error(d.src.name, d.Decl().publicKey, false, SomeIpsRemoved)]
        else [Error(d.src.name, d.Decl().publicKey, true, AllIpsRemoved)]
  {
    hide WhollyCovered;
    GrantedAtMostAll(32, d.src.ipv4, d.Decl().ipv4);
    GrantedAtMostAll(128, d.src.ipv6, d.Decl().ipv6);
    GrantedSome(32, d.src.ipv4, d.Decl().ipv4);
    GrantedSome(128, d.src.ipv6, d.Decl().ipv6);
  }

  lemma GrantedSome(w: nat, ranges: seq<Net>, nets: seq<Net>)
    ensures Granted(w, ranges, nets) != [] <==> exists n :: n in nets && WhollyCovered(w, ranges, n)
  {
    hide WhollyCovered;
    var granted := Granted(w, ranges, nets);
    if granted != [] {
      assert granted[0] in granted;
      GrantedMeans(w, ranges, nets, granted[0]);
    }
    if n :| n in nets && WhollyCovered(w, ranges, n) {
      GrantedMeans(w, ranges, nets, n);
    }
  }

  lemma NoErrorsIffClean(gc: GlobalConfig, local: Key, before: seq<Def>, d: Def)
    ensures ErrorsOf(gc, local, before, d) == [] <==> Clean(gc, local, before, d)
    ensures forall e :: e in ErrorsOf(gc, local, before, d) ==> e.src == d.src.name && e.peer == d.Key()
  {
    hide IpErrors, FullyGranted, Known;
    NoIpErrorsIffFullyGranted(d);
  }

  lemma {:induction false} ErrorsCollectAll(gc: GlobalConfig, local: Key, defs: seq<Def>, m: nat)
    requires m < |defs|
    ensures forall e :: e in ErrorsOf(gc, local, defs[..m], defs[m]) ==> e in Errors(gc, local, defs)
  {
    hide ErrorsOf;
    var last := |defs| - 1;
    if m < last {
      assert defs[..last][..m] == defs[..m];
      ErrorsCollectAll(gc, local, defs[..last], m);
    }
  }

  /** Nothing is lost silently: a declared network reaches the peer its definition is
      routed to, or an error names the source and the key, or the definition is about
      the local machine. */
  lemma NothingIsLostSilently(gc: GlobalConfig, local: Key, defs: seq<Def>, m: nat, f: Family, n: Net)
    requires m < |defs| && n in defs[m].Decl().Nets(f)
    ensures
      || (exists k :: RoutedTo(gc, local, defs, m, k)
           && k in Declared(gc, local, defs) && n in Declared(gc, local, defs)[k].Nets(f))
      || Reported(gc, local, defs, defs[m])
      || IsSelf(gc, local, defs[m])
  {
    var d := defs[m];
    var errors := ErrorsOf(gc, local, defs[..m], d);
    NoErrorsIffClean(gc, local, defs[..m], d);
    if errors != [] {
      ErrorsCollectAll(gc, local, defs, m);
      assert errors[0] in Errors(gc, local, defs);
    } else if !IsSelf(gc, local, d) {
      var k := Route(gc, local, defs[..m], d).value;
      RoutedIsKnown(gc, local, defs, m, k);
      assert Justifies(gc, local, defs, m, f, k, n);
      DeliveredIffJustified(gc, local, defs, f, k, n);
    }
  }

  /** The error list is empty if and only if every definition is used as declared. */
  lemma {:induction false} NoErrorsIffAllClean(gc: GlobalConfig, local: Key, defs: seq<Def>)
    ensures Errors(gc, local, defs) == [] <==>
            forall m :: 0 <= m < |defs| ==> Clean(gc, local, defs[..m], defs[m])
  {
    hide Clean, ErrorsOf;
    if defs != [] {
      var last := |defs| - 1;
      var front := defs[..last];
      NoErrorsIffAllClean(gc, local, front);
      NoErrorsIffClean(gc, local, front, defs[last]);
      forall m | 0 <= m < last
        ensures Clean(gc, local, defs[..m], defs[m]) <==> Clean(gc, local, front[..m], front[m])
      {
        assert defs[..m] == front[..m];
      }
    }
  }

  // ----- the two phases: all servers, then all road warriors -----

  predicate AllServers(s: seq<Def>) {
    forall i :: 0 <= i < |s| ==> s[i].ServerDef?
  }

  predicate AllRoadWarriors(s: seq<Def>) {
    forall i :: 0 <= i < |s| ==> s[i].RoadWarriorDef?
  }

  lemma KnownInPrefix(gc: GlobalConfig, local: Key, s: seq<Def>, t: seq<Def>, k: Key)
    requires |s| <= |t| && t[..|s|] == s && Known(gc, local, s, k)
    ensures Known(gc, local, t, k)
    ensures FirstCreator(gc, local, t, k) == FirstCreator(gc, local, s, k)
  {
    var i := FirstCreator(gc, local, s, k).value;
    assert forall m :: 0 <= m < |s| ==> t[m] == s[m];
    assert CreatesKey(gc, local, t[i], k);
    var j := FirstCreator(gc, local, t, k).value;
    assert i <= j && j <= i;
  }

  /** The first accepted server definition of a key decides how to reach the peer;
      further sources, with their servers after these and their road warriors after
      those, change nothing about that. */
  lemma FirstServerDecidesContact(
      gc: GlobalConfig, local: Key, servers: seq<Def>, moreServers: seq<Def>,
      warriors: seq<Def>, moreWarriors: seq<Def>, k: Key)
    requires Known(gc, local, servers, k)
    ensures var first := servers[FirstCreator(gc, local, servers, k).value];
      var contact := ContactOf(gc, first);
      var before := Declared(gc, local, servers + warriors);
      var after := Declared(gc, local, servers + moreServers + (warriors + moreWarriors));
      && CreatesKey(gc, local, first, k)
      && k in before && k in after
      && Contact(before[k].endpoint, before[k].psk, before[k].keepalive) == contact
      && Contact(after[k].endpoint, after[k].psk, after[k].keepalive) == contact
  {
    var before := servers + warriors;
    var after := servers + moreServers + (warriors + moreWarriors);
    assert before[..|servers|] == servers;
    assert after[..|servers|] == servers;
    KnownInPrefix(gc, local, servers, before, k);
    KnownInPrefix(gc, local, servers, after, k);
    var i := FirstCreator(gc, local, servers, k).value;
    assert before[i] == servers[i] && after[i] == servers[i];
  }

  /** Further sources never take a network away from a peer. */
  lemma {:induction false} MoreSourcesOnlyAdd(
      gc: GlobalConfig, local: Key, servers: seq<Def>, moreServers: seq<Def>,
      warriors: seq<Def>, moreWarriors: seq<Def>, f: Family, k: Key, n: Net)
    requires k in Declared(gc, local, servers + warriors)
    requires n in Declared(gc, local, servers + warriors)[k].Nets(f)
    ensures var after := Declared(gc, local, servers + moreServers + (warriors + moreWarriors));
      k in after && n in after[k].Nets(f)
  {
    var before := servers + warriors;
    var after := servers + moreServers + (warriors + moreWarriors);
    DeliveredIffJustified(gc, local, before, f, k, n);
    var m :| 0 <= m < |before| && Justifies(gc, local, before, m, f, k, n);
    var m' := RouteStays(gc, local, servers, moreServers, warriors, moreWarriors, m, k);
    assert Justifies(gc, local, after, m', f, k, n);
    RoutedIsKnown(gc, local, after, m', k);
    DeliveredIffJustified(gc, local, after, f, k, n);
  }

  lemma RouteStays(
      gc: GlobalConfig, local: Key, servers: seq<Def>, moreServers: seq<Def>,
      warriors: seq<Def>, moreWarriors: seq<Def>, m: nat, k: Key) returns (m': nat)
    requires m < |servers + warriors| && RoutedTo(gc, local, servers + warriors, m, k)
    ensures var after := servers + moreServers + (warriors + moreWarriors);
      m' < |after| && after[m'] == (servers + warriors)[m] && RoutedTo(gc, local, after, m', k)
  {
    var before := servers + warriors;
    var after := servers + moreServers + (warriors + moreWarriors);
    m' := if m < |servers| then m else m + |moreServers|;
    assert after[m'] == before[m];
    if Known(gc, local, before[..m], k) {
      var j :| 0 <= j < m && CreatesKey(gc, local, before[..m][j], k);
      var j' := if j < |servers| then j else j + |moreServers|;
      assert after[..m'][j'] == before[..m][j];
    }
  }

  /** Which peers there are, and where a road warrior goes: to a peer of its own only
      if the local machine is its base, otherwise to any accepted server, from
      whichever source, or to a local road warrior defined before it. */
  lemma RoadWarriorRouting(gc: GlobalConfig, local: Key, servers: seq<Def>, warriors: seq<Def>, m: nat)
    requires AllServers(servers) && AllRoadWarriors(warriors) && m < |warriors|
    ensures local !in Declared(gc, local, servers + warriors)
    ensures forall k :: k in Declared(gc, local, servers + warriors) <==>
              Known(gc, local, servers, k) || Known(gc, local, warriors, k)
    ensures var w := warriors[m].roadWarrior;
      var accepted := Accepts(gc, warriors[m].src, w.peer.publicKey) && w.peer.publicKey != local;
      Route(gc, local, (servers + warriors)[..|servers| + m], warriors[m]) ==
      if !accepted then None
      else if w.base == local then (if warriors[m].src.allowRoadWarriors then Some(w.peer.publicKey) else None)
      else if Known(gc, local, servers, w.base) || Known(gc, local, warriors[..m], w.base) then Some(w.base)
      else None
  {
    var all := servers + warriors;
    forall k ensures Known(gc, local, all, k) <==> Known(gc, local, servers, k) || Known(gc, local, warriors, k) {
      KnownConcat(gc, local, servers, warriors, k);
    }
    assert all[..|servers| + m] == servers + warriors[..m];
    KnownConcat(gc, local, servers, warriors[..m], warriors[m].roadWarrior.base);
  }

  lemma KnownConcat(gc: GlobalConfig, local: Key, s: seq<Def>, t: seq<Def>, k: Key)
    ensures Known(gc, local, s + t, k) <==> Known(gc, local, s, k) || Known(gc, local, t, k)
  {
    if Known(gc, local, s, k) {
      var i :| 0 <= i < |s| && CreatesKey(gc, local, s[i], k);
      assert (s + t)[i] == s[i];
    }
    if Known(gc, local, t, k) {
      var i :| 0 <= i < |t| && CreatesKey(gc, local, t[i], k);
      assert (s + t)[|s| + i] == t[i];
    }
  }

  /** A peer without an endpoint is a local road warrior without an endpoint override. */
  lemma OnlyLocalRoadWarriorsLackEndpoints(gc: GlobalConfig, local: Key, defs: seq<Def>, k: Key)
    requires k in Declared(gc, local, defs)
    ensures Declared(gc, local, defs)[k].endpoint.None? <==>
      && defs[FirstCreator(gc, local, defs, k).value].RoadWarriorDef?
      && (k in gc.peers ==> gc.peers[k].endpoint.None?)
    ensures Declared(gc, local, defs)[k].endpoint.None? ==>
      exists m :: 0 <= m < |defs| && CreatesKey(gc, local, defs[m], k)
        && defs[m].RoadWarriorDef? && defs[m].roadWarrior.base == local && defs[m].src.allowRoadWarriors
  {
    var i := FirstCreator(gc, local, defs, k).value;
    assert CreatesKey(gc, local, defs[i], k);
  }

  /** A pinned key exists only through its source; other sources reach it only with
      road warriors that have it as their base. */
  lemma PinnedKeyBelongsToItsSource(gc: GlobalConfig, local: Key, defs: seq<Def>, k: Key, source: string)
    requires k in gc.peers && gc.peers[k].source == Some(source)
    ensures forall m :: 0 <= m < |defs| && CreatesKey(gc, local, defs[m], k) ==> defs[m].src.name == source
    ensures k in Declared(gc, local, defs) ==>
      exists m :: 0 <= m < |defs| && defs[m].src.name == source && CreatesKey(gc, local, defs[m], k)
        && ContactOf(gc, defs[m]) == Contact(Declared(gc, local, defs)[k].endpoint,
             Declared(gc, local, defs)[k].psk, Declared(gc, local, defs)[k].keepalive)
    ensures forall m, f: Family, n :: 0 <= m < |defs| && Justifies(gc, local, defs, m, f, k, n) ==>
      defs[m].src.name == source || (defs[m].RoadWarriorDef? && defs[m].roadWarrior.base == k && defs[m].Key() != k)
  {
    if k in Declared(gc, local, defs) {
      var i := FirstCreator(gc, local, defs, k).value;
      assert CreatesKey(gc, local, defs[i], k);
    }
  }
}
