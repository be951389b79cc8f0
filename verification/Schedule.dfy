/** Which configuration of each source is in force at a given system time. */
module Schedule {
  import opened Model
  import opened Declarations
  import opened Updating
  import opened Wrappers

  /** The longest the daemon waits before it looks at the schedule again: 2^20 seconds. */
  const HORIZON: nat := 0x10_0000 * SECOND

  predicate Pending(v: View, ts: int) {
    v.data.next.Some? && ts < v.data.next.value.at
  }

  function Selected(v: View, ts: int): SourceConfig {
    if v.data.next.Some? && !Pending(v, ts) then v.data.next.value.config else v.data.config
  }

  function ServersOf(src: SourceSettings, s: seq<Server>): seq<Def> {
    seq(|s|, i requires 0 <= i < |s| => ServerDef(src, s[i]))
  }

  function RoadWarriorsOf(src: SourceSettings, s: seq<RoadWarrior>): seq<Def> {
    seq(|s|, i requires 0 <= i < |s| => RoadWarriorDef(src, s[i]))
  }

  function ServersAt(views: seq<View>, ts: int): seq<Def> {
    if views == [] then []
    else
      var v := views[|views| - 1];
      ServersAt(views[..|views| - 1], ts) + ServersOf(v.config, Selected(v, ts).servers)
  }

  function RoadWarriorsAt(views: seq<View>, ts: int): seq<Def> {
    if views == [] then []
    else
      var v := views[|views| - 1];
      RoadWarriorsAt(views[..|views| - 1], ts) + RoadWarriorsOf(v.config, Selected(v, ts).roadWarriors)
  }

  /** All definitions in force: the servers of all sources, then the road warriors. */
  function DefsAt(views: seq<View>, ts: int): seq<Def> {
    ServersAt(views, ts) + RoadWarriorsAt(views, ts)
  }

  /** The earliest pending switch, or the horizon. */
  function NextSwitch(views: seq<View>, ts: int): int {
    if views == [] then ts + HORIZON
    else
      var v := views[|views| - 1];
      var t := NextSwitch(views[..|views| - 1], ts);
      if Pending(v, ts) then Min(t, v.data.next.value.at) else t
  }

  lemma NoSources(ts: int)
    ensures ServersAt([], ts) == [] && RoadWarriorsAt([], ts) == [] && NextSwitch([], ts) == ts + HORIZON
  {}

  lemma OneMoreSource(views: seq<View>, ts: int, i: nat)
    requires i < |views|
    ensures var sc := Selected(views[i], ts);
      && ServersAt(views[..i + 1], ts) == ServersAt(views[..i], ts) + ServersOf(views[i].config, sc.servers)
      && RoadWarriorsAt(views[..i + 1], ts) ==
         RoadWarriorsAt(views[..i], ts) + RoadWarriorsOf(views[i].config, sc.roadWarriors)
      && NextSwitch(views[..i + 1], ts) ==
         if Pending(views[i], ts) then Min(NextSwitch(views[..i], ts), views[i].data.next.value.at)
         else NextSwitch(views[..i], ts)
  {
    assert views[..i + 1][..i] == views[..i];
  }

  /** The next switch lies in the future, at most the horizon away, not after any
      pending switch, and is one of them unless it is the horizon. */
  lemma {:induction false} NextSwitchIsEarliest(views: seq<View>, ts: int)
    ensures ts < NextSwitch(views, ts) <= ts + HORIZON
    ensures forall i :: 0 <= i < |views| && Pending(views[i], ts) ==>
      NextSwitch(views, ts) <= views[i].data.next.value.at
    ensures NextSwitch(views, ts) < ts + HORIZON ==>
      exists i :: 0 <= i < |views| && Pending(views[i], ts) && views[i].data.next.value.at == NextSwitch(views, ts)
  {
    if views != [] {
      NextSwitchIsEarliest(views[..|views| - 1], ts);
    }
  }

  lemma {:induction false} SamePhases(views: seq<View>, ts: int, later: int)
    requires forall i :: 0 <= i < |views| ==> Selected(views[i], ts) == Selected(views[i], later)
    ensures ServersAt(views, ts) == ServersAt(views, later)
    ensures RoadWarriorsAt(views, ts) == RoadWarriorsAt(views, later)
  {
    if views != [] {
      var front := views[..|views| - 1];
      assert forall i :: 0 <= i < |front| ==> front[i] == views[i];
      SamePhases(front, ts, later);
    }
  }

  /** As long as no source is refreshed, the definitions in force, and with them the
      configuration for any key, stay the same until the next switch. */
  lemma NothingChangesBeforeTheNextSwitch(gc: GlobalConfig, local: Key, views: seq<View>, ts: int, later: int)
    requires ts <= later < NextSwitch(views, ts)
    ensures DefsAt(views, later) == DefsAt(views, ts)
    ensures Declared(gc, local, DefsAt(views, later)) == Declared(gc, local, DefsAt(views, ts))
    ensures Errors(gc, local, DefsAt(views, later)) == Errors(gc, local, DefsAt(views, ts))
  {
    NextSwitchIsEarliest(views, ts);
    SamePhases(views, ts, later);
  }

  /** Below the horizon the next switch is one: some source has its present
      configuration before that time and its next one from then on. */
  lemma NextSwitchTakesPlace(views: seq<View>, ts: int) returns (i: nat)
    requires NextSwitch(views, ts) < ts + HORIZON
    ensures i < |views| && views[i].data.next.Some?
    ensures forall t :: t < NextSwitch(views, ts) ==> Selected(views[i], t) == views[i].data.config
    ensures forall t :: t >= NextSwitch(views, ts) ==> Selected(views[i], t) == views[i].data.next.value.config
  {
    NextSwitchIsEarliest(views, ts);
    i :| 0 <= i < |views| && Pending(views[i], ts) && views[i].data.next.value.at == NextSwitch(views, ts);
  }

  /** By the clock alone: a source has its next configuration from the announced time on
      and its present one before; the next switch is the earliest announced time still
      to come, at most 2^20 seconds ahead. */
  lemma SwitchesByTheClock(views: seq<View>, ts: int)
    ensures forall i :: 0 <= i < |views| && views[i].data.next.None? ==> Selected(views[i], ts) == views[i].data.config
    ensures forall i :: 0 <= i < |views| && views[i].data.next.Some? ==>
      var next := views[i].data.next.value;
      && (next.at <= ts ==> Selected(views[i], ts) == next.config)
      && (ts < next.at ==> Selected(views[i], ts) == views[i].data.config && NextSwitch(views, ts) <= next.at)
    ensures ts < NextSwitch(views, ts) <= ts + 1_048_576_000_000_000
    ensures NextSwitch(views, ts) == ts + 1_048_576_000_000_000 ||
      exists i :: 0 <= i < |views| && views[i].data.next.Some? && views[i].data.next.value.at == NextSwitch(views, ts)
  {
    NextSwitchIsEarliest(views, ts);
  }

  // ----- what the sources serve is in force -----

  lemma DefsOfMoreSources(views: seq<View>, more: seq<View>, ts: int)
    ensures ServersAt(views + more, ts) == ServersAt(views, ts) + ServersAt(more, ts)
    ensures RoadWarriorsAt(views + more, ts) == RoadWarriorsAt(views, ts) + RoadWarriorsAt(more, ts)
  {
    hide ServersAt, RoadWarriorsAt;
    ServersOfMoreSources(views, more, ts);
    RoadWarriorsOfMoreSources(views, more, ts);
  }

  lemma {:induction false} ServersOfMoreSources(views: seq<View>, more: seq<View>, ts: int)
    ensures ServersAt(views + more, ts) == ServersAt(views, ts) + ServersAt(more, ts)
  {
    hide ServersOf, Selected;
    if more == [] {
      assert views + more == views;
    } else {
      ServersOfMoreSources(views, more[..|more| - 1], ts);
      DropLastOfBoth(views, more);
    }
  }

  lemma {:induction false} RoadWarriorsOfMoreSources(views: seq<View>, more: seq<View>, ts: int)
    ensures RoadWarriorsAt(views + more, ts) == RoadWarriorsAt(views, ts) + RoadWarriorsAt(more, ts)
  {
    hide RoadWarriorsOf, Selected;
    if more == [] {
      assert views + more == views;
    } else {
      RoadWarriorsOfMoreSources(views, more[..|more| - 1], ts);
      DropLastOfBoth(views, more);
    }
  }

  lemma DropLastOfBoth(views: seq<View>, more: seq<View>)
    requires more != []
    ensures (views + more)[..|views + more| - 1] == views + more[..|more| - 1]
    ensures (views + more)[|views + more| - 1] == more[|more| - 1]
  {}

  /** Where the definitions of source `i` are: in each phase all of them, in the order
      served, after those of the sources before it and before those of the sources after. */
  lemma DefsOfSource(views: seq<View>, ts: int, i: nat) returns (servers: seq<Def>, warriors: seq<Def>)
    requires i < |views|
    ensures ServersAt(views, ts) == ServersAt(views[..i], ts) + servers + ServersAt(views[i + 1..], ts)
    ensures RoadWarriorsAt(views, ts) == RoadWarriorsAt(views[..i], ts) + warriors + RoadWarriorsAt(views[i + 1..], ts)
    ensures DefsAt(views, ts) == ServersAt(views, ts) + RoadWarriorsAt(views, ts)
    ensures var sc := Selected(views[i], ts);
      && |servers| == |sc.servers| && |warriors| == |sc.roadWarriors|
      && (forall j :: 0 <= j < |servers| ==> servers[j] == ServerDef(views[i].config, sc.servers[j]))
      && (forall j :: 0 <= j < |warriors| ==> warriors[j] == RoadWarriorDef(views[i].config, sc.roadWarriors[j]))
  {
    hide ServersAt, RoadWarriorsAt, NextSwitch;
    var sc := Selected(views[i], ts);
    servers, warriors := ServersOf(views[i].config, sc.servers), RoadWarriorsOf(views[i].config, sc.roadWarriors);
    OneMoreSource(views, ts, i);
    DefsOfMoreSources(views[..i + 1], views[i + 1..], ts);
    assert views[..i + 1] + views[i + 1..] == views;
  }

  /** Every definition a source serves in the configuration in force is in force. */
  lemma ServedIsInForce(views: seq<View>, ts: int, i: nat)
    requires i < |views|
    ensures forall s :: s in Selected(views[i], ts).servers ==> ServerDef(views[i].config, s) in DefsAt(views, ts)
    ensures forall w :: w in Selected(views[i], ts).roadWarriors ==>
      RoadWarriorDef(views[i].config, w) in DefsAt(views, ts)
  {
    hide ServersAt, RoadWarriorsAt, Selected;
    var servers, warriors := DefsOfSource(views, ts, i);
    var sc := Selected(views[i], ts);
    forall s | s in sc.servers ensures ServerDef(views[i].config, s) in DefsAt(views, ts) {
      var j :| 0 <= j < |sc.servers| && sc.servers[j] == s;
      assert servers[j] in servers;
    }
    forall w | w in sc.roadWarriors ensures RoadWarriorDef(views[i].config, w) in DefsAt(views, ts) {
      var j :| 0 <= j < |sc.roadWarriors| && sc.roadWarriors[j] == w;
      assert warriors[j] in warriors;
    }
  }

  // ----- where the definitions come from -----

  lemma {:induction false} ServersAtFrom(views: seq<View>, ts: int, m: nat)
    requires m < |ServersAt(views, ts)|
    ensures ServersAt(views, ts)[m].ServerDef?
    ensures exists i ::
      && 0 <= i < |views|
      && ServersAt(views, ts)[m].src == views[i].config
      && ServersAt(views, ts)[m].server in Selected(views[i], ts).servers
  {
    var front := views[..|views| - 1];
    if m < |ServersAt(front, ts)| {
      ServersAtFrom(front, ts, m);
      var i :| 0 <= i < |front| && ServersAt(front, ts)[m].src == front[i].config
        && ServersAt(front, ts)[m].server in Selected(front[i], ts).servers;
      assert views[i] == front[i];
    }
  }

  lemma {:induction false} RoadWarriorsAtFrom(views: seq<View>, ts: int, m: nat)
    requires m < |RoadWarriorsAt(views, ts)|
    ensures RoadWarriorsAt(views, ts)[m].RoadWarriorDef?
    ensures exists i ::
      && 0 <= i < |views|
      && RoadWarriorsAt(views, ts)[m].src == views[i].config
      && RoadWarriorsAt(views, ts)[m].roadWarrior in Selected(views[i], ts).roadWarriors
  {
    var front := views[..|views| - 1];
    if m < |RoadWarriorsAt(front, ts)| {
      RoadWarriorsAtFrom(front, ts, m);
      var i :| 0 <= i < |front| && RoadWarriorsAt(front, ts)[m].src == front[i].config
        && RoadWarriorsAt(front, ts)[m].roadWarrior in Selected(front[i], ts).roadWarriors;
      assert views[i] == front[i];
    }
  }

  /** Every definition in force carries the settings of one of the sources. */
  lemma DefsCarrySettings(views: seq<View>, ts: int, m: nat)
    requires m < |DefsAt(views, ts)|
    ensures exists i :: 0 <= i < |views| && DefsAt(views, ts)[m].src == views[i].config
  {
    var s := |ServersAt(views, ts)|;
    if m < s {
      ServersAtFrom(views, ts, m);
    } else {
      RoadWarriorsAtFrom(views, ts, m - s);
    }
  }
}
