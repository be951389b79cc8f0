/** What holds throughout every run of the daemon, whatever the sources serve, however
    often fetches fail, and in whatever order the maps are walked. */
module Runs {
  import opened Nets
  import opened NetLists
  import opened Model
  import opened Declarations
  import opened Policy
  import opened Updating
  import opened Schedule
  import opened Devices
  import opened Refinement
  import opened Managing

  datatype History = History(states: seq<Daemon>, envs: seq<Env>, wakes: seq<int>)

  ghost predicate StepAt(gc: GlobalConfig, refresh: nat, h: History, i: nat)
    requires |h.states| == |h.envs| + 1 == |h.wakes| + 1 && i < |h.envs|
  {
    Step(gc, refresh, h.states[i], h.envs[i], h.states[i + 1], h.wakes[i])
  }

  ghost predicate DaemonRun(gc: GlobalConfig, refresh: nat, h: History) {
    && |h.states| == |h.envs| + 1 == |h.wakes| + 1
    && forall i :: 0 <= i < |h.envs| ==> StepAt(gc, refresh, h, i)
  }

  function Devs(h: History): (r: seq<DevState>)
    ensures |r| == |h.states| && forall i :: 0 <= i < |r| ==> r[i] == h.states[i].dev
  {
    seq(|h.states|, i requires 0 <= i < |h.states| => h.states[i].dev)
  }

  function Configs(h: History): (r: seq<Config>)
    ensures |r| == |h.states| && forall i :: 0 <= i < |r| ==> r[i] == h.states[i].current
  {
    seq(|h.states|, i requires 0 <= i < |h.states| => h.states[i].current)
  }

  lemma DeviceRun(gc: GlobalConfig, refresh: nat, h: History)
    requires DaemonRun(gc, refresh, h)
    ensures Run(Devs(h), Configs(h))
  {
    hide Applied;
    forall i | 0 < i < |Devs(h)| ensures Applied(Devs(h)[i - 1], Configs(h)[i - 1], Configs(h)[i], Devs(h)[i]) {
      assert StepAt(gc, refresh, h, i - 1);
    }
  }

  lemma {:induction false} SettingsNeverChange(gc: GlobalConfig, refresh: nat, h: History, i: nat)
    requires DaemonRun(gc, refresh, h) && i < |h.states|
    ensures |h.states[i].views| == |h.states[0].views|
    ensures forall j :: 0 <= j < |h.states[i].views| ==> h.states[i].views[j].config == h.states[0].views[j].config
  {
    hide Applied, Declared;
    if i > 0 {
      SettingsNeverChange(gc, refresh, h, i - 1);
      assert StepAt(gc, refresh, h, i - 1);
    }
  }

  /** The definition `m` in force after update `i` gives `a` to peer `k`: it is routed
      there and declares the network, and its source, one of those configured, may grant
      all of it. */
  ghost predicate GivenBy(gc: GlobalConfig, h: History, i: nat, m: nat, k: Key, a: AllowedNet)
    requires 0 < i < |h.states| == |h.envs| + 1
  {
    var defs := DefsAt(h.states[i].views, h.envs[i - 1].sysnow);
    && m < |defs|
    && Justifies(gc, h.envs[i - 1].publicKey, defs, m, a.family, k, a.net)
    && exists j :: 0 <= j < |h.states[0].views| && defs[m].src == h.states[0].views[j].config
  }

  /** At no time does the interface let a tracked peer use a network other than by a
      definition in force, routed to that peer, whose own source the administrator
      permits all of the network; and the machine itself is never a tracked peer. */
  lemma NoPeerExceedsThePermittedRanges(gc: GlobalConfig, refresh: nat, h: History, i: nat, a: AllowedNet)
    requires DaemonRun(gc, refresh, h) && OwnsOnlyListed(h.states[0].dev, h.states[0].current)
    requires 0 < i < |h.states|
    ensures h.envs[i - 1].publicKey !in h.states[i].current
    ensures a in h.states[i].dev.owner && h.states[i].dev.owner[a] in h.states[i].current ==>
      exists m :: GivenBy(gc, h, i, m, h.states[i].dev.owner[a], a)
  {
    hide Applied, Justifies, Route;
    var s := h.states[i];
    var local := h.envs[i - 1].publicKey;
    var defs := DefsAt(s.views, h.envs[i - 1].sysnow);
    assert s.current == Declared(gc, local, defs) by {
      assert StepAt(gc, refresh, h, i - 1);
    }
    LocalKeyIsNoPeer(gc, local, defs);
    DeviceRun(gc, refresh, h);
    RunOwnsOnlyListed(Devs(h), Configs(h), i);
    if a in s.dev.owner && s.dev.owner[a] in s.current {
      var k := s.dev.owner[a];
      var m := DeclaredNetIsJustified(gc, local, defs, a.family, k, a.net);
      DefsCarrySettings(s.views, h.envs[i - 1].sysnow, m);
      var j :| 0 <= j < |s.views| && defs[m].src == s.views[j].config;
      SettingsNeverChange(gc, refresh, h, i);
      assert defs[m].src == h.states[0].views[j].config;
      assert GivenBy(gc, h, i, m, k, a);
    }
  }

  lemma LocalKeyIsNoPeer(gc: GlobalConfig, local: Key, defs: seq<Def>)
    ensures local !in Declared(gc, local, defs)
  {}

  /** What source `i` serves in the configuration in force is not lost silently: each of its
      networks reaches a peer, or an error names the source and the key, or it is the
      server definition of this machine. */
  lemma NothingServedIsLostSilently(
      gc: GlobalConfig, local: Key, views: seq<View>, ts: int, i: nat, d: Def, f: Family, n: Net)
    requires i < |views| && d.src == views[i].config && n in d.Decl().Nets(f)
    requires if d.ServerDef? then d.server in Selected(views[i], ts).servers
             else d.roadWarrior in Selected(views[i], ts).roadWarriors
    ensures var defs := DefsAt(views, ts);
      || (exists k :: (k == d.Key() || (d.RoadWarriorDef? && k == d.roadWarrior.base))
            && k in Declared(gc, local, defs) && n in Declared(gc, local, defs)[k].Nets(f))
      || Reported(gc, local, defs, d)
      || IsSelf(gc, local, d)
  {
    hide Declared, DefsAt, Selected;
    ServedIsInForce(views, ts, i);
    var defs := DefsAt(views, ts);
    assert d in defs;
    var m :| 0 <= m < |defs| && defs[m] == d;
    NothingIsLostSilently(gc, local, defs, m, f, n);
    RoutedWhere(gc, local, defs, m);
  }

  lemma RoutedWhere(gc: GlobalConfig, local: Key, defs: seq<Def>, m: nat)
    requires m < |defs|
    ensures forall k :: RoutedTo(gc, local, defs, m, k) ==>
      k == defs[m].Key() || (defs[m].RoadWarriorDef? && k == defs[m].roadWarrior.base)
  {}

  /** The interface shows all tracked peers as configured. */
  ghost predicate Follows(s: Daemon) {
    FieldsAgree(s.dev, s.current) && OwnsOnlyListed(s.dev, s.current) && OwnsAllListed(s.dev, s.current)
  }

  /** Throughout a run the interface follows the tracked configuration if and only if no
      configuration lists a network twice and all peers join cleanly. */
  lemma InterfaceFollowsTheConfiguration(gc: GlobalConfig, refresh: nat, h: History)
    requires DaemonRun(gc, refresh, h) && Follows(h.states[0])
    ensures (forall i :: 0 <= i < |h.states| ==> Follows(h.states[i])) <==>
            && (forall i :: 0 <= i < |h.states| ==> Disjoint(h.states[i].current))
            && (forall i :: 0 < i < |h.states| ==> JoinsCleanly(Devs(h)[i - 1], Configs(h)[i - 1], Configs(h)[i]))
  {
    hide DaemonRun, Run, FieldsAgree, OwnsOnlyListed, OwnsAllListed, Disjoint, JoinsCleanly;
    RunHasStates(gc, refresh, h);
    var devs, cfgs, n := Devs(h), Configs(h), |h.states| - 1;
    DeviceRun(gc, refresh, h);
    forall i | 0 <= i < |h.states| ensures OwnsOnlyListed(devs[i], cfgs[i]) {
      RunOwnsOnlyListed(devs, cfgs, i);
    }
    RunDeliversIffDisjoint(devs, cfgs, n);
    RunKeepsFieldsIffCleanJoins(devs, cfgs, n);
    assert forall i :: 0 <= i <= n ==> devs[i] == h.states[i].dev && cfgs[i] == h.states[i].current;
  }

  lemma RunHasStates(gc: GlobalConfig, refresh: nat, h: History)
    requires DaemonRun(gc, refresh, h)
    ensures |h.states| > 0
  {}

  /** Peers that no configuration of the run has stay as they were; only networks that
      a peer written during the run lists leave them. */
  lemma ForeignPeersStayIntact(gc: GlobalConfig, refresh: nat, h: History, n: nat, k: Key)
    requires DaemonRun(gc, refresh, h) && n < |h.states|
    requires forall i :: 0 <= i <= n ==> k !in h.states[i].current
    ensures k in h.states[n].dev.peers <==> k in h.states[0].dev.peers
    ensures k in h.states[n].dev.peers ==> h.states[n].dev.peers[k] == h.states[0].dev.peers[k]
    ensures forall a :: Refinement.Has(h.states[n].dev, a, k) <==>
      Refinement.Has(h.states[0].dev, a, k) && forall i :: 0 < i <= n ==> !ClaimedAt(Configs(h), i, a)
  {
    hide DaemonRun, Run, ClaimedAt;
    DeviceRun(gc, refresh, h);
    RunLeavesForeignPeersIntact(Devs(h), Configs(h), n, k);
  }

  /** A peer that leaves the configuration leaves the interface for as long. */
  lemma DroppedPeersAreGone(gc: GlobalConfig, refresh: nat, h: History, m: nat, n: nat, k: Key)
    requires DaemonRun(gc, refresh, h) && m < n < |h.states| && k in h.states[m].current
    requires forall i :: m < i <= n ==> k !in h.states[i].current
    ensures k !in h.states[n].dev.peers && forall a :: !Refinement.Has(h.states[n].dev, a, k)
  {
    hide DaemonRun, Run;
    DeviceRun(gc, refresh, h);
    RunRemovesDroppedPeers(Devs(h), Configs(h), m, n, k);
  }

  // ----- the sources over a run -----

  /** The fetches made for source `j` in the first `i` updates. */
  ghost function AttemptsFor(gc: GlobalConfig, refresh: nat, h: History, i: nat, j: nat): seq<Attempt>
    requires DaemonRun(gc, refresh, h) && i < |h.states| && j < |h.states[0].views|
  {
    if i == 0 then []
    else
      SettingsNeverChange(gc, refresh, h, i - 1);
      assert StepAt(gc, refresh, h, i - 1);
      var earlier := AttemptsFor(gc, refresh, h, i - 1, j);
      if Due(h.states[i - 1].views, h.envs[i - 1], j) then earlier + [h.envs[i - 1].attempts[j]] else earlier
  }

  /** Throughout a run each source is as its own fetches left it. */
  lemma {:induction false} SourcesReplayTheirFetches(gc: GlobalConfig, refresh: nat, h: History, i: nat, j: nat)
    requires DaemonRun(gc, refresh, h) && i < |h.states| && j < |h.states[0].views|
    ensures |h.states[i].views| == |h.states[0].views|
    ensures h.states[i].views[j] == Replay(refresh, h.states[0].views[j], AttemptsFor(gc, refresh, h, i, j))
  {
    hide Applied, Declared;
    SettingsNeverChange(gc, refresh, h, i);
    if i > 0 {
      SettingsNeverChange(gc, refresh, h, i - 1);
      SourcesReplayTheirFetches(gc, refresh, h, i - 1, j);
      assert StepAt(gc, refresh, h, i - 1);
      var earlier := AttemptsFor(gc, refresh, h, i - 1, j);
      assert (earlier + [h.envs[i - 1].attempts[j]])[..|earlier|] == earlier;
    }
  }

  /** Throughout a run every source serves the data of its last successful fetch, or
      what it started with, and a failed one is tried again within a third of the
      refresh time. */
  lemma SourcesKeepGoodDataAndRetry(gc: GlobalConfig, refresh: nat, h: History, i: nat, j: nat)
    requires DaemonRun(gc, refresh, h) && i < |h.states| && j < |h.states[0].views|
    requires BackoffBounded(refresh, h.states[0].views[j])
    ensures var fetches := AttemptsFor(gc, refresh, h, i, j);
      && j < |h.states[i].views|
      && BackoffBounded(refresh, h.states[i].views[j])
      && h.states[i].views[j].data == LastGoodData(h.states[0].views[j].data, fetches)
      && (fetches != [] && fetches[|fetches| - 1].result.Failed? ==>
            h.states[i].views[j].nextUpdate <= fetches[|fetches| - 1].at + refresh / 3)
  {
    hide *;
    var fetches := AttemptsFor(gc, refresh, h, i, j);
    SourcesReplayTheirFetches(gc, refresh, h, i, j);
    FailuresKeepDataAndRetry(refresh, h.states[0].views[j], fetches);
  }

  /** Throughout a run the delays of each source are those of its present row of failures,
      counting the ones before the run. */
  lemma SourcesFollowTheirDelays(gc: GlobalConfig, refresh: nat, h: History, i: nat, j: nat, m: nat)
    requires DaemonRun(gc, refresh, h) && i < |h.states| && j < |h.states[0].views|
    requires InRow(refresh, h.states[0].views[j], m)
    ensures var fetches := AttemptsFor(gc, refresh, h, i, j);
      var n := FailuresInARow(m, fetches);
      && j < |h.states[i].views|
      && InRow(refresh, h.states[i].views[j], n)
      && (fetches != [] ==>
            var delay := if n == 0 then refresh else Delay(refresh, n - 1);
            h.states[i].views[j].nextUpdate == fetches[|fetches| - 1].at + delay)
  {
    hide *;
    SourcesReplayTheirFetches(gc, refresh, h, i, j);
    HistoryDecides(refresh, h.states[0].views[j], m, AttemptsFor(gc, refresh, h, i, j));
  }

  /** After each update the daemon sleeps at most until a third of the refresh time has
      passed since a failed fetch, at most until a source not fetched in the run is due,
      and in no case past a scheduled switch. */
  lemma FailedFetchesWakeTheDaemon(gc: GlobalConfig, refresh: nat, h: History, i: nat, j: nat)
    requires DaemonRun(gc, refresh, h) && i < |h.envs| && j < |h.states[0].views|
    requires BackoffBounded(refresh, h.states[0].views[j])
    ensures var fetches := AttemptsFor(gc, refresh, h, i + 1, j);
      && (fetches != [] && fetches[|fetches| - 1].result.Failed? ==>
            h.wakes[i] == h.envs[i].now || h.wakes[i] <= fetches[|fetches| - 1].at + refresh / 3)
      && (fetches == [] ==> h.wakes[i] == h.envs[i].now || h.wakes[i] <= h.states[0].views[j].nextUpdate)
      && h.wakes[i] - h.envs[i].now <= NextSwitch(h.states[i + 1].views, h.envs[i].sysnow) - h.envs[i].sysnow
  {
    hide Applied, Declared;
    SourcesKeepGoodDataAndRetry(gc, refresh, h, i + 1, j);
    SourcesReplayTheirFetches(gc, refresh, h, i + 1, j);
    assert StepAt(gc, refresh, h, i);
    WakeIsEarliest(refresh, h.envs[i], h.states[i + 1].views);
  }

  /** Each update wakes the daemon exactly at the first of: a source is due, an announced
      switch, one refresh time after the start of the update; or at once if that is past.
      Before it never wakes. */
  lemma WakesAreExact(gc: GlobalConfig, refresh: nat, h: History, i: nat)
    requires DaemonRun(gc, refresh, h) && i < |h.envs|
    ensures var views, env, wake := h.states[i + 1].views, h.envs[i], h.wakes[i];
      && wake >= env.now
      && (wake > env.now ==>
            && wake <= env.start + refresh
            && (forall j :: 0 <= j < |views| ==> wake <= views[j].nextUpdate))
      && (forall j :: 0 <= j < |views| && views[j].data.next.Some? && env.sysnow < views[j].data.next.value.at ==>
            wake - env.now <= views[j].data.next.value.at - env.sysnow)
      && wake - env.now <= 1_048_576_000_000_000
      && (wake == env.now ==>
            env.start + refresh <= env.now || exists j :: 0 <= j < |views| && views[j].nextUpdate <= env.now)
      && (wake > env.now ==>
            || wake == env.start + refresh
            || wake - env.now == 1_048_576_000_000_000
            || (exists j :: 0 <= j < |views| && wake == views[j].nextUpdate)
            || (exists j :: 0 <= j < |views| && views[j].data.next.Some?
                  && wake - env.now == views[j].data.next.value.at - env.sysnow))
  {
    hide Applied, Declared;
    assert StepAt(gc, refresh, h, i);
    WakeIsEarliest(refresh, h.envs[i], h.states[i + 1].views);
    SwitchesByTheClock(h.states[i + 1].views, h.envs[i].sysnow);
  }

  /** No source starves: if no update takes longer than `long` and each starts at most
      `late` after the daemon was to wake, then no source is ever overdue by more than
      both together when an update starts, and that update fetches it. */
  lemma NoSourceStarves(gc: GlobalConfig, refresh: nat, h: History, i: nat, j: nat, long: nat, late: nat)
    requires DaemonRun(gc, refresh, h) && i + 1 < |h.envs| && j < |h.states[0].views|
    requires ClockOk(h.envs[i]) && h.envs[i].now <= h.envs[i].start + long
    requires ClockOk(h.envs[i + 1]) && h.envs[i + 1].start <= h.wakes[i] + late
    ensures |h.states[i + 1].views| == |h.states[i + 2].views| == |h.envs[i + 1].attempts| > j
    ensures var due := h.states[i + 1].views[j].nextUpdate;
      && h.envs[i + 1].start <= due + long + late
      && (due <= h.envs[i + 1].start ==>
            h.states[i + 2].views[j] == AfterFetch(refresh, h.states[i + 1].views[j], h.envs[i + 1].attempts[j]))
  {
    hide Applied, Declared;
    SettingsNeverChange(gc, refresh, h, i);
    SettingsNeverChange(gc, refresh, h, i + 1);
    SettingsNeverChange(gc, refresh, h, i + 2);
    assert StepAt(gc, refresh, h, i) && StepAt(gc, refresh, h, i + 1);
    WakeIsEarliest(refresh, h.envs[i], h.states[i + 1].views);
    RefreshLeavesNothingDue(refresh, h.states[i].views, h.envs[i], j);
    RefreshLeavesNothingDue(refresh, h.states[i + 1].views, h.envs[i + 1], j);
  }
}
