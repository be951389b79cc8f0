/** Fetching a source: what a success and a failure do to it, and when it is tried
    again. Times and durations are in nanoseconds. */
module Updating {
  import opened Bits
  import opened Model
  import opened Wrappers

  const SECOND: nat := 1_000_000_000

  datatype FetchResult = Fetched(data: SourceData) | Failed

  /** One fetch and the clock when it was over. */
  datatype Attempt = Attempt(result: FetchResult, at: int)

  /** The present fields of a source. */
  datatype View = View(config: SourceSettings, data: SourceData, nextUpdate: int, backoff: Option<nat>)

  function Min(a: int, b: int): int {
    if a < b then a else b
  }

  function FirstDelay(refresh: nat): nat {
    Min(10 * SECOND, refresh / 10)
  }

  function NextDelay(refresh: nat, b: nat): nat {
    Min(b + b / 3, refresh / 3)
  }

  function AfterFetch(refresh: nat, v: View, attempt: Attempt): View {
    match attempt.result
    case Fetched(data) =>
      v.(data := data, backoff := None, nextUpdate := attempt.at + refresh)
    case Failed =>
      var b := if v.backoff.Some? then v.backoff.value else FirstDelay(refresh);
      v.(nextUpdate := attempt.at + b, backoff := Some(NextDelay(refresh, b)))
  }

  /** The view of a source after a sequence of fetches. */
  function Replay(refresh: nat, v: View, history: seq<Attempt>): View {
    if history == [] then v
    else AfterFetch(refresh, Replay(refresh, v, history[..|history| - 1]), history[|history| - 1])
  }

  /** The fetches made at the start: one, and two more until one succeeds if the source
      is required and nothing is stored. */
  function StartAttempts(required: bool, stored: Option<SourceData>, attempts: seq<Attempt>): seq<Attempt>
    requires |attempts| == 3
  {
    if attempts[0].result.Fetched? || stored.Some? || !required then attempts[..1]
    else if attempts[1].result.Fetched? then attempts[..2]
    else attempts
  }

  /** A source after its start-up. */
  function Started(
      refresh: nat, v: View, required: bool, stored: Option<SourceData>, attempts: seq<Attempt>): View
    requires |attempts| == 3
  {
    var r := Replay(refresh, v, StartAttempts(required, stored, attempts));
    if attempts[0].result.Failed? && stored.Some? then r.(data := stored.value) else r
  }

  lemma ReplayFirst(refresh: nat, v: View, attempts: seq<Attempt>)
    requires |attempts| == 3
    ensures var v1 := AfterFetch(refresh, v, attempts[0]);
      var v2 := AfterFetch(refresh, v1, attempts[1]);
      && Replay(refresh, v, attempts[..1]) == v1
      && Replay(refresh, v, attempts[..2]) == v2
      && Replay(refresh, v, attempts) == AfterFetch(refresh, v2, attempts[2])
  {
    assert attempts[..1][..0] == [] && attempts[..2][..1] == attempts[..1];
    assert attempts[..2] == attempts[..|attempts| - 1];
  }

  /** `next` is `b` and a third of it, rounded down, but not more than a third of the
      refresh time. */
  predicate GrowsByAThird(refresh: nat, b: int, next: int) {
    && next <= refresh / 3
    && 3 * next <= 4 * b
    && (next < refresh / 3 ==> 3 * next > 4 * b - 3)
  }

  class Source {
    const config: SourceSettings
    var data: SourceData
    var nextUpdate: int
    var backoff: Option<nat>

    function Fields(): View
      reads this
    {
      View(config, data, nextUpdate, backoff)
    }

    constructor (config: SourceSettings, now: int)
      ensures Fields() == View(config, SourceData(SourceConfig([], []), None), now, None)
    {
      this.config := config;
      data := SourceData(SourceConfig([], []), None);
      nextUpdate := now;
      backoff := None;
    }
  }

  class Updater {
    const refreshSec: nat

    constructor (refreshSec: nat)
      ensures this.refreshSec == refreshSec
    {
      this.refreshSec := refreshSec;
    }

    function RefreshTime(): (r: nat)
      ensures r == refreshSec * 1_000_000_000
    {
      refreshSec * SECOND
    }

    method Update(src: Source, attempt: Attempt) returns (ok: bool, now: int)
      modifies src
      ensures src.Fields() == AfterFetch(RefreshTime(), old(src.Fields()), attempt)
      ensures ok == attempt.result.Fetched? && now == attempt.at
      ensures ok ==> src.data == attempt.result.data && src.backoff == None
      ensures ok ==> src.nextUpdate == now + refreshSec * 1_000_000_000
      ensures !ok ==> src.data == old(src.data) && src.backoff.Some?
      ensures !ok && old(src.backoff).Some? ==> src.nextUpdate == now + old(src.backoff).value
      ensures !ok && old(src.backoff).None? ==>
        src.nextUpdate == now + if refreshSec >= 100 then 10_000_000_000 else refreshSec * 100_000_000
      ensures !ok ==> GrowsByAThird(refreshSec * 1_000_000_000, src.nextUpdate - now, src.backoff.value)
    {
      var refresh := RefreshTime();
      now := attempt.at;
      if attempt.result.Fetched? {
        src.data := attempt.result.data;
        src.backoff := None;
        src.nextUpdate := now + refresh;
        return true, now;
      }
      var b := match src.backoff
        case Some(b) => b
        case None => Min(10 * SECOND, refresh / 10);
      src.nextUpdate := now + b;
      src.backoff := Some(Min(b + b / 3, refresh / 3));
      ok := false;
    }

    /** Loads what an earlier run stored, if anything; no effect on the schedule. */
    method CacheLoad(src: Source, stored: Option<SourceData>) returns (ok: bool)
      modifies src`data
      ensures ok == stored.Some?
      ensures src.data == if stored.Some? then stored.value else old(src.data)
    {
      if stored.None? {
        return false;
      }
      src.data := stored.value;
      return true;
    }

    /** A required source must be fetched in one of three attempts or be found in the
        cache; any other may start out empty. */
    method InitSource(src: Source, required: bool, stored: Option<SourceData>, attempts: seq<Attempt>)
      returns (ok: bool)
      requires |attempts| == 3
      modifies src
      ensures ok <==> !required || stored.Some? || exists i :: 0 <= i < 3 && attempts[i].result.Fetched?
      ensures ok && required ==>
        stored == Some(src.data) || exists i :: 0 <= i < 3 && attempts[i].result == Fetched(src.data)
      ensures src.data == old(src.data) || stored == Some(src.data) ||
        exists i :: 0 <= i < 3 && attempts[i].result == Fetched(src.data)
      ensures src.Fields() == Started(RefreshTime(), old(src.Fields()), required, stored, attempts)
    {
      hide AfterFetch, Replay, GrowsByAThird;
      ReplayFirst(RefreshTime(), src.Fields(), attempts);
      var now;
      ok, now := Update(src, attempts[0]);
      if ok {
        return;
      }
      ok := CacheLoad(src, stored);
      if ok {
        return;
      }
      if !required {
        return true;
      }
      ok, now := Update(src, attempts[1]);
      if ok {
        return;
      }
      ok, now := Update(src, attempts[2]);
    }
  }

  // ----- the delays -----

  /** The delay after the (n+1)-th failure in a row. */
  function Delay(refresh: nat, n: nat): nat {
    if n == 0 then FirstDelay(refresh) else NextDelay(refresh, Delay(refresh, n - 1))
  }

  /** The first delay is ten seconds, or a tenth of a refresh time below 100 seconds;
      each further failure adds a third, rounded down, up to a third of the refresh time. */
  lemma DelaysGrowByAThird(refresh: nat, n: nat)
    ensures Delay(refresh, 0) == if refresh >= 100_000_000_000 then 10_000_000_000 else refresh / 10
    ensures 3 * Delay(refresh, n + 1) <= 4 * Delay(refresh, n)
    ensures Delay(refresh, n + 1) < refresh / 3 ==> 3 * Delay(refresh, n + 1) > 4 * Delay(refresh, n) - 3
    ensures Delay(refresh, n + 1) <= refresh / 3
  {
    DelaysGrowToAThird(refresh, n, n + 1);
  }

  /** Delays grow along a row of failures and never exceed a third of the refresh time. */
  lemma {:induction false} DelaysGrowToAThird(refresh: nat, m: nat, n: nat)
    requires m <= n
    ensures FirstDelay(refresh) <= Delay(refresh, m) <= Delay(refresh, n) <= refresh / 3
    decreases n
  {
    if m < n {
      DelaysGrowToAThird(refresh, m, n - 1);
    } else if n > 0 {
      DelaysGrowToAThird(refresh, n - 1, n - 1);
    }
  }

  /** Three more failures at least double the delay, rounding included. */
  lemma ThreeFailuresDouble(refresh: nat, n: nat)
    requires refresh >= SECOND
    ensures Delay(refresh, n + 3) >= Min(2 * Delay(refresh, n), refresh / 3)
  {
    DelaysGrowToAThird(refresh, 0, n);
    assert Delay(refresh, n + 2) == NextDelay(refresh, Delay(refresh, n + 1));
    DelaysGrowToAThird(refresh, n, n);
    GrowThrice(refresh, Delay(refresh, n));
  }

  lemma GrowThrice(refresh: nat, b: nat)
    requires 8 <= b <= refresh / 3
    ensures var b2 := NextDelay(refresh, NextDelay(refresh, b));
      NextDelay(refresh, b2) >= Min(2 * b, refresh / 3)
  {}

  /** The delay is exactly a third of the refresh time after a number of failures
      logarithmic in it. */
  lemma {:induction false} DelayReachesAThird(refresh: nat, k: nat, n: nat)
    requires refresh >= SECOND && Pow2(k) * FirstDelay(refresh) >= refresh / 3 && n >= 3 * k
    ensures Delay(refresh, n) == refresh / 3
  {
    DelayDoubles(refresh, k);
    DelaysGrowToAThird(refresh, 3 * k, n);
  }

  lemma {:induction false} DelayDoubles(refresh: nat, k: nat)
    requires refresh >= SECOND
    ensures Delay(refresh, 3 * k) >= Min(Pow2(k) * FirstDelay(refresh), refresh / 3)
  {
    if k > 0 {
      DelayDoubles(refresh, k - 1);
      ThreeFailuresDouble(refresh, 3 * (k - 1));
      assert 3 * (k - 1) + 3 == 3 * k;
      DoubleProduct(Pow2(k - 1), FirstDelay(refresh));
    }
  }

  /** For every refresh time the configuration can hold, 84 failures are enough. */
  lemma EightyFourFailuresSuffice(refreshSec: nat, n: nat)
    requires 1 <= refreshSec < 0x1_0000_0000 && n >= 84
    ensures Delay(refreshSec * SECOND, n) == refreshSec * SECOND / 3
  {
    assert Pow2(4) == 16;
    Pow2Sum(4, 4);
    Pow2Sum(8, 8);
    Pow2Sum(16, 8);
    Pow2Sum(24, 4);
    assert Pow2(28) == 0x1000_0000;
    var refresh := refreshSec * SECOND;
    assert FirstDelay(refresh) >= refresh / 0x1_0000_0000 + 1 && 0x1000_0000 * FirstDelay(refresh) >= refresh / 3;
    DelayReachesAThird(refresh, 28, n);
  }

  // ----- whole histories -----

  /** The number of failures since the last success, if `m` came before the history. */
  function FailuresInARow(m: nat, history: seq<Attempt>): nat {
    if history == [] then m
    else if history[|history| - 1].result.Fetched? then 0
    else FailuresInARow(m, history[..|history| - 1]) + 1
  }

  /** What the last success brought. */
  function LastGoodData(data: SourceData, history: seq<Attempt>): SourceData {
    if history == [] then data
    else match history[|history| - 1].result
      case Fetched(d) => d
      case Failed => LastGoodData(data, history[..|history| - 1])
  }

  /** The source has failed `m` times since its last success. */
  predicate InRow(refresh: nat, v: View, m: nat) {
    v.backoff == if m == 0 then None else Some(Delay(refresh, m))
  }

  /** Over any history, also one that starts inside a row of failures, the data is that
      of the last success, and the next attempt comes one refresh time after a success
      or the n-th delay after the n-th failure in a row. */
  lemma {:induction false} HistoryDecides(refresh: nat, v: View, m: nat, history: seq<Attempt>)
    requires InRow(refresh, v, m)
    ensures var r := Replay(refresh, v, history);
      var n := FailuresInARow(m, history);
      && r.config == v.config
      && r.data == LastGoodData(v.data, history)
      && InRow(refresh, r, n)
      && (history != [] ==>
        r.nextUpdate == history[|history| - 1].at + if n == 0 then refresh else Delay(refresh, n - 1))
  {
    hide AfterFetch, Delay, InRow;
    if history != [] {
      var front := history[..|history| - 1];
      HistoryDecides(refresh, v, m, front);
      FetchInRow(refresh, Replay(refresh, v, front), FailuresInARow(m, front), history[|history| - 1]);
    }
  }

  /** One more fetch, after `m` failures in a row. */
  lemma FetchInRow(refresh: nat, v: View, m: nat, attempt: Attempt)
    requires InRow(refresh, v, m)
    ensures var r := AfterFetch(refresh, v, attempt);
      && r.config == v.config
      && match attempt.result
         case Fetched(data) => r.data == data && InRow(refresh, r, 0) && r.nextUpdate == attempt.at + refresh
         case Failed => r.data == v.data && InRow(refresh, r, m + 1) && r.nextUpdate == attempt.at + Delay(refresh, m)
  {}

  /** The delay in use, if any, is at most a third of the refresh time. */
  predicate BackoffBounded(refresh: nat, v: View) {
    v.backoff.Some? ==> v.backoff.value <= refresh / 3
  }

  lemma RowIsBounded(refresh: nat, v: View, m: nat)
    requires InRow(refresh, v, m)
    ensures BackoffBounded(refresh, v)
  {
    DelaysGrowToAThird(refresh, m, m);
  }

  ghost predicate AllFailed(history: seq<Attempt>) {
    forall i :: 0 <= i < |history| ==> history[i].result.Failed?
  }

  lemma {:induction false} FailuresCount(m: nat, data: SourceData, earlier: seq<Attempt>, failures: seq<Attempt>)
    requires AllFailed(failures)
    ensures FailuresInARow(m, earlier + failures) == FailuresInARow(m, earlier) + |failures|
    ensures LastGoodData(data, earlier + failures) == LastGoodData(data, earlier)
  {
    if failures == [] {
      assert earlier + failures == earlier;
    } else {
      var front := failures[..|failures| - 1];
      FailuresCount(m, data, earlier, front);
      assert (earlier + failures)[..|earlier + failures| - 1] == earlier + front;
    }
  }

  /** After a success and then failures only, whatever came before: the data is that of
      the success, and the source is due one refresh time after the success, or after
      the delay of the last failure. */
  lemma AfterTheLastSuccess(
      refresh: nat, v: View, m: nat, earlier: seq<Attempt>, data: SourceData, at: int, failures: seq<Attempt>)
    requires InRow(refresh, v, m) && AllFailed(failures)
    ensures var r := Replay(refresh, v, earlier + [Attempt(Fetched(data), at)] + failures);
      && r.config == v.config && r.data == data
      && (failures == [] ==> r.backoff == None && r.nextUpdate == at + refresh)
      && (failures != [] ==>
            && r.backoff == Some(Delay(refresh, |failures|))
            && r.nextUpdate == failures[|failures| - 1].at + Delay(refresh, |failures| - 1))
  {
    hide AfterFetch, Delay, Replay;
    var success := earlier + [Attempt(Fetched(data), at)];
    assert success[|success| - 1].result == Fetched(data);
    HistoryDecides(refresh, v, m, success + failures);
    FailuresCount(m, v.data, success, failures);
  }

  /** With failures only, after `m` earlier ones: the data is what it was. */
  lemma WithoutSuccess(refresh: nat, v: View, m: nat, failures: seq<Attempt>)
    requires InRow(refresh, v, m) && AllFailed(failures) && failures != []
    ensures var r := Replay(refresh, v, failures);
      && r.config == v.config && r.data == v.data
      && r.backoff == Some(Delay(refresh, m + |failures|))
      && r.nextUpdate == failures[|failures| - 1].at + Delay(refresh, m + |failures| - 1)
  {
    hide AfterFetch, Delay, Replay;
    HistoryDecides(refresh, v, m, failures);
    FailuresCount(m, v.data, [], failures);
    assert [] + failures == failures;
  }

  /** A source fresh from its start-up is somewhere in a row of at most three failures,
      which count towards the delays of the run that follows; with a cached copy, or if
      it is not required, one failed fetch leaves it there. Its data is that of the
      fetch that succeeded, else the cached copy, else what it had. */
  lemma StartLeavesARow(
      refresh: nat, v: View, required: bool, stored: Option<SourceData>, attempts: seq<Attempt>)
    requires v.backoff.None? && |attempts| == 3
    ensures var made := StartAttempts(required, stored, attempts);
      var r := Started(refresh, v, required, stored, attempts);
      var last := made[|made| - 1];
      var n := FailuresInARow(0, made);
      && n <= 3 && InRow(refresh, r, n) && BackoffBounded(refresh, r)
      && (n == 0 <==> last.result.Fetched?)
      && (attempts[0].result.Failed? && (stored.Some? || !required) ==> n == 1)
      && r.nextUpdate == last.at + (if n == 0 then refresh else Delay(refresh, n - 1))
      && r.data == (if last.result.Fetched? then last.result.data else if stored.Some? then stored.value else v.data)
      && (attempts[0].result.Fetched? || stored.Some? || !required ==> made == [attempts[0]])
      && (attempts[0].result.Failed? && stored.None? && required ==>
            if attempts[1].result.Fetched? then made == [attempts[0], attempts[1]]
            else made == [attempts[0], attempts[1], attempts[2]])
  {
    hide AfterFetch, Delay, Replay, StartAttempts;
    var made := StartAttempts(required, stored, attempts);
    OnlyTheLastMaySucceed(required, stored, attempts);
    var front := made[..|made| - 1];
    HistoryDecides(refresh, v, 0, made);
    FailuresCount(0, v.data, [], front);
    assert [] + front == front;
    RowIsBounded(refresh, Replay(refresh, v, made), FailuresInARow(0, made));
  }

  lemma OnlyTheLastMaySucceed(required: bool, stored: Option<SourceData>, attempts: seq<Attempt>)
    requires |attempts| == 3
    ensures var made := StartAttempts(required, stored, attempts);
      && made != [] && AllFailed(made[..|made| - 1])
      && (attempts[0].result.Fetched? || stored.Some? || !required ==> made == [attempts[0]])
      && (attempts[0].result.Failed? && stored.None? && required ==>
            if attempts[1].result.Fetched? then made == [attempts[0], attempts[1]]
            else made == [attempts[0], attempts[1], attempts[2]])
  {}

  /** From any source whose delay is bounded: the last good data stays, and after a
      failure the next attempt comes within a third of the refresh time. */
  lemma {:induction false} FailuresKeepDataAndRetry(refresh: nat, v: View, history: seq<Attempt>)
    requires BackoffBounded(refresh, v)
    ensures var r := Replay(refresh, v, history);
      && BackoffBounded(refresh, r)
      && r.config == v.config
      && r.data == LastGoodData(v.data, history)
      && (history != [] && history[|history| - 1].result.Failed? ==>
            var at := history[|history| - 1].at; at <= r.nextUpdate <= at + refresh / 3)
  {
    if history != [] {
      FailuresKeepDataAndRetry(refresh, v, history[..|history| - 1]);
    }
  }
}
