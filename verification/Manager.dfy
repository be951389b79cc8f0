/** The daemon: refreshing the sources, building the configuration in force, applying
    it, and deciding when to wake up. The clocks and the outcome of each fetch come
    from outside. */
module Managing {
  import opened Model
  import opened Declarations
  import opened Builder
  import opened Updating
  import opened Schedule
  import opened Devices
  import opened Refinement
  import opened Wrappers

  /** What one update reads from outside: the monotonic clock at the start, for each
      source the outcome of the fetch if one is due, the interface's public key, and
      both clocks after the refresh. */
  datatype Env = Env(start: int, attempts: seq<Attempt>, publicKey: Key, now: int, sysnow: int)

  /** The monotonic clock never goes back. */
  ghost predicate ClockOk(env: Env) {
    && (forall i :: 0 <= i < |env.attempts| ==> env.start <= env.attempts[i].at <= env.now)
    && (forall i, j :: 0 <= i < j < |env.attempts| ==> env.attempts[i].at <= env.attempts[j].at)
    && env.start <= env.now
  }

  // ----- refreshing -----

  /** The last clock reading before source `i` is looked at. */
  function ClockAt(views: seq<View>, env: Env, i: nat): int
    requires i <= |views| == |env.attempts|
    decreases i, 0
  {
    if i == 0 then env.start
    else if Due(views, env, i - 1) then env.attempts[i - 1].at
    else ClockAt(views, env, i - 1)
  }

  predicate Due(views: seq<View>, env: Env, i: nat)
    requires i < |views| == |env.attempts|
    decreases i, 1
  {
    ClockAt(views, env, i) >= views[i].nextUpdate
  }

  function Refreshed(refresh: nat, views: seq<View>, env: Env, i: nat): View
    requires i < |views| == |env.attempts|
  {
    if Due(views, env, i) then AfterFetch(refresh, views[i], env.attempts[i]) else views[i]
  }

  function AfterRefresh(refresh: nat, views: seq<View>, env: Env): (r: seq<View>)
    requires |views| == |env.attempts|
    ensures |r| == |views| && forall i :: 0 <= i < |r| ==> r[i] == Refreshed(refresh, views, env, i)
  {
    seq(|views|, i requires 0 <= i < |views| => Refreshed(refresh, views, env, i))
  }

  /** The earliest time a source is due again, at most one refresh time from the start. */
  function NextRefresh(refresh: nat, start: int, views: seq<View>): int {
    if views == [] then start + refresh
    else Min(NextRefresh(refresh, start, views[..|views| - 1]), views[|views| - 1].nextUpdate)
  }

  lemma RefreshStart(refresh: nat, views: seq<View>, env: Env)
    requires |views| == |env.attempts|
    ensures ClockAt(views, env, 0) == env.start
    ensures NextRefresh(refresh, env.start, []) == env.start + refresh
  {}

  /** What looking at source `i` does to the source, the clock and the refresh time. */
  lemma RefreshStep(refresh: nat, views: seq<View>, env: Env, after: seq<View>, i: nat)
    requires i < |views| == |env.attempts| && after == AfterRefresh(refresh, views, env)
    ensures var due := ClockAt(views, env, i) >= views[i].nextUpdate;
      && ClockAt(views, env, i + 1) == (if due then env.attempts[i].at else ClockAt(views, env, i))
      && after[i] == (if due then AfterFetch(refresh, views[i], env.attempts[i]) else views[i])
    ensures NextRefresh(refresh, env.start, after[..i + 1]) ==
      Min(NextRefresh(refresh, env.start, after[..i]), after[i].nextUpdate)
    ensures ValidData(views[i].data) && (env.attempts[i].result.Fetched? ==> ValidData(env.attempts[i].result.data)) ==>
      ValidData(after[i].data)
  {
    hide ValidData;
    assert after[..i + 1][..i] == after[..i];
  }

  lemma {:induction false} NextRefreshIsEarliest(refresh: nat, start: int, views: seq<View>)
    ensures NextRefresh(refresh, start, views) <= start + refresh
    ensures forall i :: 0 <= i < |views| ==> NextRefresh(refresh, start, views) <= views[i].nextUpdate
    ensures NextRefresh(refresh, start, views) == start + refresh ||
      exists i :: 0 <= i < |views| && NextRefresh(refresh, start, views) == views[i].nextUpdate
  {
    if views != [] {
      NextRefreshIsEarliest(refresh, start, views[..|views| - 1]);
    }
  }

  lemma {:induction false} ClockMovesForward(views: seq<View>, env: Env, i: nat)
    requires |views| == |env.attempts| && ClockOk(env) && i <= |views|
    ensures env.start <= ClockAt(views, env, i) <= env.now
    ensures forall j :: i <= j < |views| ==> ClockAt(views, env, i) <= env.attempts[j].at
  {
    if i > 0 {
      ClockMovesForward(views, env, i - 1);
    }
  }

  /** Every source due at the start is fetched, and a source left alone was not due when
      it was looked at. */
  lemma RefreshLeavesNothingDue(refresh: nat, views: seq<View>, env: Env, i: nat)
    requires |views| == |env.attempts| && ClockOk(env) && i < |views|
    ensures views[i].nextUpdate <= env.start ==>
      Refreshed(refresh, views, env, i) == AfterFetch(refresh, views[i], env.attempts[i])
    ensures Refreshed(refresh, views, env, i) == AfterFetch(refresh, views[i], env.attempts[i])
      || (Refreshed(refresh, views, env, i) == views[i] && views[i].nextUpdate > env.start)
    ensures Refreshed(refresh, views, env, i).nextUpdate >= env.start
  {
    ClockMovesForward(views, env, i);
  }

  /** A source is fetched exactly if it is due at the start, or when some earlier source's
      fetch in the same refresh is over. */
  lemma FetchedExactlyIfDue(refresh: nat, views: seq<View>, env: Env, i: nat)
    requires |views| == |env.attempts| && ClockOk(env) && i < |views|
    ensures Due(views, env, i) <==>
      || views[i].nextUpdate <= env.start
      || exists j :: 0 <= j < i && Due(views, env, j) && views[i].nextUpdate <= env.attempts[j].at
    ensures Refreshed(refresh, views, env, i) ==
      if Due(views, env, i) then AfterFetch(refresh, views[i], env.attempts[i]) else views[i]
    ensures views[i].nextUpdate > env.now ==> Refreshed(refresh, views, env, i) == views[i]
  {
    hide AfterFetch;
    ClockMovesForward(views, env, i);
    ClockIsLastFetch(views, env, i);
  }

  lemma {:induction false} ClockIsLastFetch(views: seq<View>, env: Env, i: nat)
    requires |views| == |env.attempts| && ClockOk(env) && i <= |views|
    ensures forall j :: 0 <= j < i && Due(views, env, j) ==> env.attempts[j].at <= ClockAt(views, env, i)
    ensures ClockAt(views, env, i) == env.start ||
      exists j :: 0 <= j < i && Due(views, env, j) && ClockAt(views, env, i) == env.attempts[j].at
  {
    if i > 0 {
      ClockIsLastFetch(views, env, i - 1);
      ClockMovesForward(views, env, i - 1);
    }
  }

  // ----- waking up -----

  /** The instant `update` returns. */
  function WakeUp(tCfg: int, tRefresh: int, now: int): int {
    if tCfg < tRefresh then tCfg
    else if tRefresh > now then tRefresh
    else now
  }

  function Wake(refresh: nat, env: Env, views: seq<View>): int {
    WakeUp(env.now + (NextSwitch(views, env.sysnow) - env.sysnow), NextRefresh(refresh, env.start, views), env.now)
  }

  /** The daemon wakes at the earliest of: a source is due, a scheduled switch, one
      refresh time after the start; at once if that has passed, never before now. */
  lemma WakeIsEarliest(refresh: nat, env: Env, views: seq<View>)
    ensures var wake := Wake(refresh, env, views);
      && env.now <= wake
      && (forall i :: 0 <= i < |views| ==> wake == env.now || wake <= views[i].nextUpdate)
      && (wake == env.now || wake <= env.start + refresh)
      && wake - env.now <= NextSwitch(views, env.sysnow) - env.sysnow
      && (wake == env.now ==>
            env.start + refresh <= env.now || exists i :: 0 <= i < |views| && views[i].nextUpdate <= env.now)
      && (wake == env.now || wake == env.start + refresh
          || wake - env.now == NextSwitch(views, env.sysnow) - env.sysnow
          || exists i :: 0 <= i < |views| && wake == views[i].nextUpdate)
  {
    NextRefreshIsEarliest(refresh, env.start, views);
    NextSwitchIsEarliest(views, env.sysnow);
  }

  /** Until the daemon wakes, the configuration in force is the one it has applied. */
  lemma NoSwitchIsMissed(refresh: nat, gc: GlobalConfig, env: Env, views: seq<View>, elapsed: nat)
    requires env.now + elapsed < Wake(refresh, env, views)
    ensures Declared(gc, env.publicKey, DefsAt(views, env.sysnow + elapsed)) ==
            Declared(gc, env.publicKey, DefsAt(views, env.sysnow))
  {
    hide Declared, DefsAt, Errors, Wake;
    WakeIsEarliest(refresh, env, views);
    NothingChangesBeforeTheNextSwitch(gc, env.publicKey, views, env.sysnow, env.sysnow + elapsed);
  }

  // ----- the daemon -----

  datatype Daemon = Daemon(views: seq<View>, current: Config, dev: DevState)

  /** One successful update. */
  ghost predicate Step(gc: GlobalConfig, refresh: nat, s: Daemon, env: Env, t: Daemon, wake: int) {
    && |s.views| == |env.attempts|
    && t.views == AfterRefresh(refresh, s.views, env)
    && t.current == Declared(gc, env.publicKey, DefsAt(t.views, env.sysnow))
    && Applied(s.dev, s.current, t.current, t.dev)
    && wake == Wake(refresh, env, t.views)
  }

  class Manager {
    const gc: GlobalConfig
    const updater: Updater
    const device: Device
    const sources: seq<Source>
    var current: Config

    constructor (gc: GlobalConfig, updater: Updater, device: Device, sources: seq<Source>, current: Config)
      ensures this.gc == gc && this.updater == updater && this.device == device
      ensures this.sources == sources && this.current == current
    {
      this.gc, this.updater, this.device, this.sources, this.current := gc, updater, device, sources, current;
    }

    ghost predicate Valid()
      reads this, sources
    {
      && (forall i, j :: 0 <= i < j < |sources| ==> sources[i] != sources[j])
      && (forall i :: 0 <= i < |sources| ==> ValidSettings(sources[i].config) && ValidData(sources[i].data))
    }

    function Views(): (r: seq<View>)
      reads sources
      ensures |r| == |sources| && forall i :: 0 <= i < |r| ==> r[i] == sources[i].Fields()
    {
      seq(|sources|, i reads sources requires 0 <= i < |sources| => sources[i].Fields())
    }

    function State(): Daemon
      reads this, sources, device
    {
      Daemon(Views(), current, device.dev)
    }

    method Refresh(env: Env) returns (tRefresh: int)
      requires Valid() && |env.attempts| == |sources|
      requires forall i :: 0 <= i < |sources| && env.attempts[i].result.Fetched? ==>
        ValidData(env.attempts[i].result.data)
      modifies sources
      ensures Valid()
      ensures Views() == AfterRefresh(updater.RefreshTime(), old(Views()), env)
      ensures tRefresh == NextRefresh(updater.RefreshTime(), env.start, Views())
    {
      hide AfterFetch, ValidData, ValidSettings, ClockAt, Due, Refreshed, NextRefresh;
      var refresh := updater.RefreshTime();
      var now := env.start;
      tRefresh := now + refresh;
      ghost var before := Views();
      ghost var after := AfterRefresh(refresh, before, env);
      RefreshStart(refresh, before, env);
      for i := 0 to |sources|
        invariant Valid()
        invariant forall k :: 0 <= k < i ==> sources[k].Fields() == after[k]
        invariant forall k :: i <= k < |sources| ==> sources[k].Fields() == before[k]
        invariant now == ClockAt(before, env, i)
        invariant tRefresh == NextRefresh(refresh, env.start, after[..i])
      {
        RefreshStep(refresh, before, env, after, i);
        var src := sources[i];
        assert src.Fields() == before[i];
        if now >= src.nextUpdate {
          var _, at := updater.Update(src, env.attempts[i]);
          now := at;
        }
        tRefresh := Min(tRefresh, src.nextUpdate);
        assert src.Fields() == after[i];
      }
      assert after[..|sources|] == after;
    }

    /** The configuration in force at `ts`, the errors, and when to look again. */
    method MakeConfig(publicKey: Key, ts: int) returns (cfg: Config, errs: seq<Error>, tCfg: int)
      requires Valid()
      ensures cfg == Declared(gc, publicKey, DefsAt(Views(), ts))
      ensures errs == Errors(gc, publicKey, DefsAt(Views(), ts))
      ensures tCfg == NextSwitch(Views(), ts)
    {
      hide Declared, Errors, NextSwitch, ServersAt, RoadWarriorsAt, Selected;
      var selected;
      selected, tCfg := Select(ts);
      var builder := new ConfigBuilder(publicKey, gc);
      ghost var views := Views();
      NoSources(ts);
      for i := 0 to |selected|
        invariant builder.Valid() && fresh(builder) && builder.gc == gc && builder.local == publicKey
        invariant builder.defs == ServersAt(views[..i], ts)
      {
        OneMoreSource(views, ts, i);
        AddServers(builder, selected[i].0, selected[i].1);
      }
      assert views[..|views|] == views;
      for i := 0 to |selected|
        invariant builder.Valid() && fresh(builder) && builder.gc == gc && builder.local == publicKey
        invariant builder.defs == ServersAt(views, ts) + RoadWarriorsAt(views[..i], ts)
      {
        OneMoreSource(views, ts, i);
        AddRoadWarriors(builder, selected[i].0, selected[i].1);
      }
      cfg, errs := builder.c, builder.err;
    }

    /** The configuration of each source in force at `ts`, and the next switch. */
    method Select(ts: int) returns (selected: seq<(Source, SourceConfig)>, tCfg: int)
      requires Valid()
      ensures |selected| == |sources|
      ensures forall k :: 0 <= k < |sources| ==> selected[k] == (sources[k], Selected(Views()[k], ts))
      ensures forall k :: 0 <= k < |sources| ==> ValidSettings(sources[k].config) && ValidSourceConfig(selected[k].1)
      ensures tCfg == NextSwitch(Views(), ts)
    {
      hide ValidSettings, ValidSourceConfig, NextSwitch;
      tCfg := ts + HORIZON;
      selected := [];
      ghost var views := Views();
      NoSources(ts);
      for i := 0 to |sources|
        invariant |selected| == i
        invariant forall k :: 0 <= k < i ==> selected[k] == (sources[k], Selected(views[k], ts))
        invariant forall k :: 0 <= k < i ==> ValidSourceConfig(selected[k].1)
        invariant tCfg == NextSwitch(views[..i], ts)
      {
        OneMoreSource(views, ts, i);
        var src := sources[i];
        assert views[i] == src.Fields();
        var sc := src.data.config;
        if src.data.next.Some? {
          var next := src.data.next.value;
          if ts >= next.at {
            sc := next.config;
          } else {
            tCfg := Min(tCfg, next.at);
          }
        }
        selected := selected + [(src, sc)];
      }
      assert views[..|views|] == views;
    }

    method AddServers(builder: ConfigBuilder, src: Source, sc: SourceConfig)
      requires builder.Valid() && ValidSettings(src.config) && ValidSourceConfig(sc)
      modifies builder
      ensures builder.Valid() && builder.defs == old(builder.defs) + ServersOf(src.config, sc.servers)
    {
      hide Declared, Errors, ValidSettings;
      ghost var all := ServersOf(src.config, sc.servers);
      for j := 0 to |sc.servers|
        invariant builder.Valid() && builder.defs == old(builder.defs) + all[..j]
      {
        assert all[..j + 1] == all[..j] + [ServerDef(src.config, sc.servers[j])];
        builder.AddServer(src.config, sc.servers[j]);
      }
    }

    method AddRoadWarriors(builder: ConfigBuilder, src: Source, sc: SourceConfig)
      requires builder.Valid() && ValidSettings(src.config) && ValidSourceConfig(sc)
      modifies builder
      ensures builder.Valid() && builder.defs == old(builder.defs) + RoadWarriorsOf(src.config, sc.roadWarriors)
    {
      hide Declared, Errors, ValidSettings;
      ghost var all := RoadWarriorsOf(src.config, sc.roadWarriors);
      for j := 0 to |sc.roadWarriors|
        invariant builder.Valid() && builder.defs == old(builder.defs) + all[..j]
      {
        assert all[..j + 1] == all[..j] + [RoadWarriorDef(src.config, sc.roadWarriors[j])];
        builder.AddRoadWarrior(src.config, sc.roadWarriors[j]);
      }
    }

    method Update(env: Env) returns (wake: int)
      requires Valid() && |env.attempts| == |sources|
      requires forall i :: 0 <= i < |sources| && env.attempts[i].result.Fetched? ==>
        ValidData(env.attempts[i].result.data)
      modifies this`current, sources, device
      ensures Valid()
      ensures Step(gc, updater.RefreshTime(), old(State()), env, State(), wake)
    {
      hide Declared, Errors, DefsAt, Applied, AfterRefresh, NextSwitch, NextRefresh, ValidSettings, ValidData;
      var tRefresh := Refresh(env);
      var config, errors, tCfgSys := MakeConfig(env.publicKey, env.sysnow);
      NextSwitchIsEarliest(Views(), env.sysnow);
      var timeToCfg := if tCfgSys >= env.sysnow then tCfgSys - env.sysnow else 0;
      var tCfg := env.now + timeToCfg;
      SameConfigurationIsNoUpdate(device.dev, config);
      if config != current {
        device.ApplyDiff(current, config);
        current := config;
      }
      wake := if tCfg < tRefresh then tCfg else if tRefresh > env.now then tRefresh else env.now;
    }
  }
}
