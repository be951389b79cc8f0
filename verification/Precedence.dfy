/** Which source decides when several define the same peer. */
module Precedence {
  import opened Model
  import opened Declarations
  import opened Policy
  import opened Updating
  import opened Schedule
  import opened Wrappers

  lemma FirstAfterUnknown(gc: GlobalConfig, local: Key, s: seq<Def>, t: seq<Def>, k: Key)
    requires !Known(gc, local, s, k) && Known(gc, local, t, k)
    ensures Known(gc, local, s + t, k)
    ensures (s + t)[FirstCreator(gc, local, s + t, k).value] == t[FirstCreator(gc, local, t, k).value]
  {
    hide Creates;
    KnownConcat(gc, local, s, t, k);
    var i := FirstCreator(gc, local, s + t, k).value;
    var j := FirstCreator(gc, local, t, k).value;
    assert forall m :: 0 <= m < |s| ==> (s + t)[m] == s[m];
    assert forall m :: 0 <= m < |t| ==> (s + t)[|s| + m] == t[m];
    assert i <= |s| + j;
    assert (s + t)[i] == t[i - |s|];
  }

  lemma FirstInPrefix(gc: GlobalConfig, local: Key, s: seq<Def>, t: seq<Def>, k: Key)
    requires Known(gc, local, s, k)
    ensures Known(gc, local, s + t, k)
    ensures (s + t)[FirstCreator(gc, local, s + t, k).value] == s[FirstCreator(gc, local, s, k).value]
  {
    hide Creates;
    assert (s + t)[..|s|] == s;
    KnownInPrefix(gc, local, s, s + t, k);
  }

  lemma FirstOfBothPhases(
      gc: GlobalConfig, local: Key, servers: seq<Def>, warriors: seq<Def>, k: Key)
    requires Known(gc, local, servers + warriors, k)
    ensures Known(gc, local, servers, k) || Known(gc, local, warriors, k)
    ensures (servers + warriors)[FirstCreator(gc, local, servers + warriors, k).value] ==
            if Known(gc, local, servers, k) then servers[FirstCreator(gc, local, servers, k).value]
            else warriors[FirstCreator(gc, local, warriors, k).value]
  {
    hide *;
    KnownConcat(gc, local, servers, warriors, k);
    if Known(gc, local, servers, k) {
      FirstInPrefix(gc, local, servers, warriors, k);
    } else {
      FirstAfterUnknown(gc, local, servers, warriors, k);
    }
  }

  /** The definition that decides how a peer is reached: the first accepted server if
      there is any, in whichever source, and only otherwise the first local road warrior. */
  lemma {:induction false} ServersGoFirst(gc: GlobalConfig, local: Key, servers: seq<Def>, warriors: seq<Def>, k: Key)
    requires k in Declared(gc, local, servers + warriors)
    ensures Known(gc, local, servers, k) || Known(gc, local, warriors, k)
    ensures var p := Declared(gc, local, servers + warriors)[k];
      Contact(p.endpoint, p.psk, p.keepalive) ==
      ContactOf(gc, if Known(gc, local, servers, k) then servers[FirstCreator(gc, local, servers, k).value]
                    else warriors[FirstCreator(gc, local, warriors, k).value])
  {
    hide CreatesKey, ContactOf, Delivered;
    FirstOfBothPhases(gc, local, servers, warriors, k);
  }

  /** The definition in force that decides how `k` is reached. */
  function Decider(gc: GlobalConfig, local: Key, views: seq<View>, ts: int, k: Key): Def
    requires Known(gc, local, DefsAt(views, ts), k)
  {
    DefsAt(views, ts)[FirstCreator(gc, local, DefsAt(views, ts), k).value]
  }

  /** The decider in terms of the two phases; it is a server exactly if there is one. */
  lemma DeciderByPhase(gc: GlobalConfig, local: Key, views: seq<View>, ts: int, k: Key)
    requires Known(gc, local, DefsAt(views, ts), k)
    ensures var s, w := ServersAt(views, ts), RoadWarriorsAt(views, ts);
      && Decider(gc, local, views, ts, k).ServerDef? == Known(gc, local, s, k)
      && (Known(gc, local, s, k) ==> Decider(gc, local, views, ts, k) == s[FirstCreator(gc, local, s, k).value])
      && (!Known(gc, local, s, k) ==>
            Known(gc, local, w, k) && Decider(gc, local, views, ts, k) == w[FirstCreator(gc, local, w, k).value])
  {
    hide Known, ServersAt, RoadWarriorsAt;
    var s, w := ServersAt(views, ts), RoadWarriorsAt(views, ts);
    FirstOfBothPhases(gc, local, s, w, k);
    if Known(gc, local, s, k) {
      ServersAtFrom(views, ts, FirstCreator(gc, local, s, k).value);
    } else {
      RoadWarriorsAtFrom(views, ts, FirstCreator(gc, local, w, k).value);
    }
  }

  /** Appending sources leaves the deciding definition of a peer in place if and only if
      the peer is a server already, or none of the appended sources has it as one. */
  lemma DeciderStaysIff(gc: GlobalConfig, local: Key, views: seq<View>, more: seq<View>, ts: int, k: Key)
    requires Known(gc, local, DefsAt(views, ts), k)
    ensures Known(gc, local, DefsAt(views + more, ts), k)
    ensures Decider(gc, local, views + more, ts, k) == Decider(gc, local, views, ts, k) <==>
      Known(gc, local, ServersAt(views, ts), k) || !Known(gc, local, ServersAt(more, ts), k)
  {
    hide Known, ServersAt, RoadWarriorsAt, Decider;
    var s, t := ServersAt(views, ts), ServersAt(more, ts);
    var v, w := RoadWarriorsAt(views, ts), RoadWarriorsAt(more, ts);
    DefsOfMoreSources(views, more, ts);
    KnownConcat(gc, local, s, v, k);
    KnownConcat(gc, local, s, t, k);
    KnownConcat(gc, local, v, w, k);
    KnownConcat(gc, local, s + t, v + w, k);
    DeciderByPhase(gc, local, views, ts, k);
    DeciderByPhase(gc, local, views + more, ts, k);
    if Known(gc, local, s, k) {
      FirstInPrefix(gc, local, s, t, k);
    } else if !Known(gc, local, t, k) {
      FirstInPrefix(gc, local, v, w, k);
    }
  }

  /** When the documented rule holds: the first source that defines a peer decides how it
      is reached if and only if it has the peer as a server or no later source does. */
  lemma FirstSourceDecidesIff(gc: GlobalConfig, local: Key, views: seq<View>, ts: int, k: Key, i: nat)
    requires i < |views|
    requires Known(gc, local, DefsAt([views[i]], ts), k) && !Known(gc, local, DefsAt(views[..i], ts), k)
    ensures Known(gc, local, DefsAt(views, ts), k)
    ensures Decider(gc, local, views, ts, k) == Decider(gc, local, [views[i]], ts, k) <==>
      Known(gc, local, ServersAt([views[i]], ts), k) || !Known(gc, local, ServersAt(views[i + 1..], ts), k)
  {
    hide Known, ServersAt, RoadWarriorsAt, Decider;
    var upto := views[..i] + [views[i]];
    assert views == upto + views[i + 1..];
    UnknownSourcesDoNotDecide(gc, local, views[..i], [views[i]], ts, k);
    DeciderStaysIff(gc, local, upto, views[i + 1..], ts, k);
  }

  lemma UnknownSourcesDoNotDecide(
      gc: GlobalConfig, local: Key, views: seq<View>, more: seq<View>, ts: int, k: Key)
    requires !Known(gc, local, DefsAt(views, ts), k) && Known(gc, local, DefsAt(more, ts), k)
    ensures Known(gc, local, DefsAt(views + more, ts), k)
    ensures Known(gc, local, ServersAt(views + more, ts), k) <==> Known(gc, local, ServersAt(more, ts), k)
    ensures Decider(gc, local, views + more, ts, k) == Decider(gc, local, more, ts, k)
  {
    hide Known, ServersAt, RoadWarriorsAt, Decider;
    var s, t := ServersAt(views, ts), ServersAt(more, ts);
    var v, w := RoadWarriorsAt(views, ts), RoadWarriorsAt(more, ts);
    DefsOfMoreSources(views, more, ts);
    KnownConcat(gc, local, s, v, k);
    KnownConcat(gc, local, t, w, k);
    KnownConcat(gc, local, s, t, k);
    KnownConcat(gc, local, v, w, k);
    KnownConcat(gc, local, s + t, v + w, k);
    DeciderByPhase(gc, local, more, ts, k);
    DeciderByPhase(gc, local, views + more, ts, k);
    if Known(gc, local, t, k) {
      FirstAfterUnknown(gc, local, s, t, k);
    } else {
      FirstAfterUnknown(gc, local, v, w, k);
    }
  }

  /** Sources listed later never take a network away from a peer, and they change how it
      is reached only by having it as a server when no earlier source does. */
  lemma LaterSourcesDisturbNothing(
      gc: GlobalConfig, local: Key, views: seq<View>, more: seq<View>, ts: int, k: Key)
    requires Known(gc, local, DefsAt(views, ts), k)
    ensures var before := Declared(gc, local, DefsAt(views, ts));
      var after := Declared(gc, local, DefsAt(views + more, ts));
      && k in before && k in after
      && (forall f: Family, n :: n in before[k].Nets(f) ==> n in after[k].Nets(f))
      && (Known(gc, local, ServersAt(views, ts), k) || !Known(gc, local, ServersAt(more, ts), k) ==>
            after[k] == before[k].(ipv4 := after[k].ipv4, ipv6 := after[k].ipv6))
  {
    hide ServersAt, RoadWarriorsAt, ContactOf, Delivered, Known;
    DeciderStaysIff(gc, local, views, more, ts, k);
    DeclaredByDecider(gc, local, views, ts, k);
    DeclaredByDecider(gc, local, views + more, ts, k);
    NetworksStay(gc, local, views, more, ts, k);
  }

  lemma DeclaredByDecider(gc: GlobalConfig, local: Key, views: seq<View>, ts: int, k: Key)
    requires Known(gc, local, DefsAt(views, ts), k)
    ensures var c := Declared(gc, local, DefsAt(views, ts));
      && k in c
      && Contact(c[k].endpoint, c[k].psk, c[k].keepalive) == ContactOf(gc, Decider(gc, local, views, ts, k))
  {}

  lemma NetworksStay(gc: GlobalConfig, local: Key, views: seq<View>, more: seq<View>, ts: int, k: Key)
    requires k in Declared(gc, local, DefsAt(views, ts))
    ensures k in Declared(gc, local, DefsAt(views + more, ts))
    ensures forall f: Family, n :: n in Declared(gc, local, DefsAt(views, ts))[k].Nets(f) ==>
      n in Declared(gc, local, DefsAt(views + more, ts))[k].Nets(f)
  {
    hide Declared, Known;
    DefsOfMoreSources(views, more, ts);
    var s, t := ServersAt(views, ts), ServersAt(more, ts);
    var v, w := RoadWarriorsAt(views, ts), RoadWarriorsAt(more, ts);
    StaysDeclared(gc, local, s, t, v, w, k);
    forall f: Family, n | n in Declared(gc, local, s + v)[k].Nets(f)
      ensures n in Declared(gc, local, s + t + (v + w))[k].Nets(f)
    {
      MoreSourcesOnlyAdd(gc, local, s, t, v, w, f, k, n);
    }
  }

  lemma StaysDeclared(
      gc: GlobalConfig, local: Key, s: seq<Def>, t: seq<Def>, v: seq<Def>, w: seq<Def>, k: Key)
    requires k in Declared(gc, local, s + v)
    ensures k in Declared(gc, local, s + t + (v + w))
  {
    hide Creates;
    KnownConcat(gc, local, s, v, k);
    KnownConcat(gc, local, s, t, k);
    KnownConcat(gc, local, v, w, k);
    KnownConcat(gc, local, s + t, v + w, k);
  }

  /** So it need not be the first source that defines the peer: here that one has it as
      a road warrior, a later one has it as a server, and the later one decides. */
  lemma {:induction false} FirstSourceNeedNotDecide() returns (gc: GlobalConfig, local: Key, views: seq<View>, k: Key)
    ensures |views| == 2
    ensures k in Declared(gc, local, DefsAt(views[..1], 0)) && k in Declared(gc, local, DefsAt(views, 0))
    ensures Declared(gc, local, DefsAt(views[..1], 0))[k].psk == views[0].config.psk
    ensures Declared(gc, local, DefsAt(views, 0))[k].psk == views[1].config.psk != views[0].config.psk
  {
    gc, local, k := GlobalConfig(10, 0, map[]), 1, 2;
    var decl := PeerDecl(k, [], [], 0);
    var a := SourceSettings("a", Some(Secret(5)), [], [], true);
    var b := SourceSettings("b", Some(Secret(6)), [], [], true);
    var warrior := RoadWarrior(decl, local);
    var server := Server(decl, Endpoint(7, 656));
    var va := View(a, SourceData(SourceConfig([], [warrior]), None), 0, None);
    var vb := View(b, SourceData(SourceConfig([server], []), None), 0, None);
    views := [va, vb];
    var w, s := RoadWarriorDef(a, warrior), ServerDef(b, server);
    DefsOfMoreSources([], [va], 0);
    DefsOfMoreSources([va], [vb], 0);
    assert views[..1] == [va] && views == [va] + [vb];
    assert RoadWarriorsOf(a, [warrior]) == [w] && ServersOf(b, [server]) == [s];
    assert ServersAt([va], 0) == [] && RoadWarriorsAt([va], 0) == [w];
    assert ServersAt([vb], 0) == [s] && RoadWarriorsAt([vb], 0) == [];
    assert DefsAt(views[..1], 0) == [] + [w];
    assert DefsAt(views, 0) == [s] + [w];
    assert CreatesKey(gc, local, [w][0], k) && CreatesKey(gc, local, [s][0], k);
    KnownConcat(gc, local, [], [w], k);
    KnownConcat(gc, local, [s], [w], k);
    ServersGoFirst(gc, local, [], [w], k);
    ServersGoFirst(gc, local, [s], [w], k);
  }
}
