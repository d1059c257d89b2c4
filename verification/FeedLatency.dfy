/** The Page-Hinkley latency detector (research_loop/feed_latency_monitor.py). */
module FeedLatency {
  import opened Contracts
  import opened Persistence

  const DELTA := 0.005
  const THRESHOLD := 50.0

  datatype Observation = Observation(latency: real, at: int)

  function InitialState(): LatencyState {
    LatencyState(0.0, 0.0, 0, None, false)
  }

  /** One update: the new state, and whether this observation is the one that tripped it. */
  function Step(s: LatencyState, o: Observation, delta: real, threshold: real): (LatencyState, bool) {
    var sum := s.cumulative + (o.latency - delta);
    var least := if sum < s.minimum then sum else s.minimum;
    var tripped := s.tripped || sum - least > threshold;
    (LatencyState(sum, least, s.observations + 1, Some(o.at), tripped), !s.tripped && tripped)
  }

  /** update_page_hinkley refuses negative latencies. */
  function UpdatePageHinkley(s: LatencyState, o: Observation, delta: real,
                             threshold: real): Result<(LatencyState, bool)> {
    if o.latency < 0.0 then Raised(ValueError) else Ok(Step(s, o, delta, threshold))
  }

  /** The state after further observations. */
  function StreamFrom(s: LatencyState, obs: seq<Observation>, delta: real, threshold: real): LatencyState
  {
    if obs == [] then s
    else Step(StreamFrom(s, obs[..|obs| - 1], delta, threshold), obs[|obs| - 1], delta, threshold).0
  }

  /** The state after a history of observations since the last reset. */
  function Streamed(obs: seq<Observation>, delta: real, threshold: real): LatencyState {
    StreamFrom(InitialState(), obs, delta, threshold)
  }

  lemma {:induction false} StreamAppend(s: LatencyState, xs: seq<Observation>, ys: seq<Observation>, delta: real,
                                        threshold: real)
    ensures StreamFrom(s, xs + ys, delta, threshold)
              == StreamFrom(StreamFrom(s, xs, delta, threshold), ys, delta, threshold)
  {
    if ys == [] {
      assert xs + ys == xs;
    } else {
      StreamAppend(s, xs, ys[..|ys| - 1], delta, threshold);
      assert (xs + ys)[..|xs + ys| - 1] == xs + ys[..|ys| - 1];
    }
  }

  /** Whether the last observation of the history was reported as newly tripping. */
  function NewlyTripped(obs: seq<Observation>, delta: real, threshold: real): bool
    requires obs != []
  {
    Step(Streamed(obs[..|obs| - 1], delta, threshold), obs[|obs| - 1], delta, threshold).1
  }

  // ----- batch definition

  /** Drift accumulated over the contiguous window [i, j). */
  function WindowDrift(obs: seq<Observation>, delta: real, i: nat, j: nat): real
    requires i <= j <= |obs|
    decreases j
  {
    if i == j then 0.0 else WindowDrift(obs, delta, i, j - 1) + (obs[j - 1].latency - delta)
  }

  /** Some window ending after at least one observation drifted by more than the threshold. */
  ghost predicate SomeWindowExceeds(obs: seq<Observation>, delta: real, threshold: real) {
    exists i, j :: 0 <= i <= j <= |obs| && j > 0 && WindowDrift(obs, delta, i, j) > threshold
  }

  lemma {:induction false} DriftOfPrefix(obs: seq<Observation>, delta: real, n: nat, i: nat, j: nat)
    requires i <= j <= n <= |obs|
    ensures WindowDrift(obs[..n], delta, i, j) == WindowDrift(obs, delta, i, j)
  {
    if i < j { DriftOfPrefix(obs, delta, n, i, j - 1); }
  }

  lemma {:induction false} DriftSplits(obs: seq<Observation>, delta: real, i: nat, j: nat)
    requires i <= j <= |obs|
    ensures WindowDrift(obs, delta, 0, j) == WindowDrift(obs, delta, 0, i) + WindowDrift(obs, delta, i, j)
  {
    if i < j { DriftSplits(obs, delta, i, j - 1); }
  }

  /** The running sum is the drift since the reset; the running minimum is the least drift of any prefix. */
  lemma {:induction false} StreamedSums(obs: seq<Observation>, delta: real, threshold: real)
    ensures var s, n := Streamed(obs, delta, threshold), |obs|;
            && s.cumulative == WindowDrift(obs, delta, 0, n) && s.observations == n
            && s.updated == (if n == 0 then None else Some(obs[n - 1].at))
            && (forall i :: 0 <= i <= n ==> s.minimum <= WindowDrift(obs, delta, 0, i))
            && exists i :: 0 <= i <= n && s.minimum == WindowDrift(obs, delta, 0, i)
  {
    var n := |obs|;
    if n == 0 {
      assert WindowDrift(obs, delta, 0, 0) == 0.0;
    } else {
      var front := obs[..n - 1];
      StreamedSums(front, delta, threshold);
      forall i | 0 <= i <= n - 1 ensures WindowDrift(front, delta, 0, i) == WindowDrift(obs, delta, 0, i) {
        DriftOfPrefix(obs, delta, n - 1, 0, i);
      }
      var s, s' := Streamed(front, delta, threshold), Streamed(obs, delta, threshold);
      var k :| 0 <= k <= n - 1 && s.minimum == WindowDrift(front, delta, 0, k);
      if s'.minimum == s.minimum {
        assert s'.minimum == WindowDrift(obs, delta, 0, k);
      } else {
        assert s'.minimum == WindowDrift(obs, delta, 0, n);
      }
    }
  }

  /** Streaming equals batch: the statistic is the largest drift over the trailing windows, the empty one included. */
  lemma StatisticIsMaxTrailingDrift(obs: seq<Observation>, delta: real, threshold: real)
    ensures var s, n := Streamed(obs, delta, threshold), |obs|;
            && (forall i :: 0 <= i <= n ==> WindowDrift(obs, delta, i, n) <= s.cumulative - s.minimum)
            && exists i :: 0 <= i <= n && WindowDrift(obs, delta, i, n) == s.cumulative - s.minimum
  {
    var s, n := Streamed(obs, delta, threshold), |obs|;
    StreamedSums(obs, delta, threshold);
    forall i | 0 <= i <= n ensures WindowDrift(obs, delta, i, n) == s.cumulative - WindowDrift(obs, delta, 0, i) {
      DriftSplits(obs, delta, i, n);
    }
    var k :| 0 <= k <= n && s.minimum == WindowDrift(obs, delta, 0, k);
    assert WindowDrift(obs, delta, k, n) == s.cumulative - s.minimum;
  }

  /** The latch is set exactly when some contiguous window, at any time since the reset, drifted past the threshold. */
  lemma {:induction false} TrippedIffSomeWindowExceeds(obs: seq<Observation>, delta: real, threshold: real)
    ensures Streamed(obs, delta, threshold).tripped <==> SomeWindowExceeds(obs, delta, threshold)
  {
    var n := |obs|;
    if n > 0 {
      var front := obs[..n - 1];
      TrippedIffSomeWindowExceeds(front, delta, threshold);
      StatisticIsMaxTrailingDrift(obs, delta, threshold);
      if SomeWindowExceeds(front, delta, threshold) {
        var i, j :| 0 <= i <= j <= |front| && j > 0 && WindowDrift(front, delta, i, j) > threshold;
        DriftOfPrefix(obs, delta, n - 1, i, j);
        assert WindowDrift(obs, delta, i, j) > threshold;
      }
      if SomeWindowExceeds(obs, delta, threshold) {
        var i, j :| 0 <= i <= j <= |obs| && j > 0 && WindowDrift(obs, delta, i, j) > threshold;
        if j < n {
          DriftOfPrefix(obs, delta, n - 1, i, j);
          assert WindowDrift(front, delta, i, j) > threshold;
        }
      }
    }
  }

  /** For a non-negative threshold only non-empty windows matter. */
  lemma NonEmptyWindowsSuffice(obs: seq<Observation>, delta: real, threshold: real)
    requires threshold >= 0.0
    ensures Streamed(obs, delta, threshold).tripped <==>
            exists i, j :: 0 <= i < j <= |obs| && WindowDrift(obs, delta, i, j) > threshold
  {
    TrippedIffSomeWindowExceeds(obs, delta, threshold);
    if SomeWindowExceeds(obs, delta, threshold) {
      var i, j :| 0 <= i <= j <= |obs| && j > 0 && WindowDrift(obs, delta, i, j) > threshold;
      assert 0 <= i < j <= |obs| && WindowDrift(obs, delta, i, j) > threshold;
    }
    if exists i, j :: 0 <= i < j <= |obs| && WindowDrift(obs, delta, i, j) > threshold {
      var i, j :| 0 <= i < j <= |obs| && WindowDrift(obs, delta, i, j) > threshold;
      assert 0 <= i <= j <= |obs| && j > 0 && WindowDrift(obs, delta, i, j) > threshold;
    }
  }

  /** How many observations of the history were reported as newly tripping. */
  function TripCount(obs: seq<Observation>, delta: real, threshold: real): nat
  {
    if obs == [] then 0
    else TripCount(obs[..|obs| - 1], delta, threshold) + if NewlyTripped(obs, delta, threshold) then 1 else 0
  }

  /** Exactly one report if the detector has tripped since the reset, none otherwise. */
  lemma {:induction false} TripsAtMostOnce(obs: seq<Observation>, delta: real, threshold: real)
    ensures TripCount(obs, delta, threshold) == if Streamed(obs, delta, threshold).tripped then 1 else 0
  {
    if obs != [] {
      TripsAtMostOnce(obs[..|obs| - 1], delta, threshold);
    }
  }

  // ----- the stored detector

  function LoadOrInitial(latency: map<string, LatencyState>, feed: string): LatencyState {
    if feed in latency then latency[feed] else InitialState()
  }

  /** observe_latency. */
  method ObserveLatency(db: Database, feed: string, o: Observation, delta: real, threshold: real)
    returns (r: Result<(LatencyState, bool)>)
    requires db.Schema()
    modifies db`latency
    ensures db.Schema() && (old(db.Valid()) ==> db.Valid())
    ensures r.Raised? <==> o.latency < 0.0
    ensures r.Raised? ==> db.latency == old(db.latency)
    ensures r.Ok? ==>
              && r.value == Step(LoadOrInitial(old(db.latency), feed), o, delta, threshold)
              && db.latency == old(db.latency)[feed := r.value.0]
  {
    var current := LoadOrInitial(db.latency, feed);
    r := UpdatePageHinkley(current, o, delta, threshold);
    if r.Ok? {
      db.UpsertLatency(feed, r.value.0);
    }
  }

  /**
   * What observe_latency reports about a feed with the given history: the state stored is that of the
   * longer history, and the observation trips iff it completes the first window past the threshold.
   */
  lemma ObservationTripsIff(history: seq<Observation>, o: Observation, delta: real, threshold: real)
    ensures var r := Step(Streamed(history, delta, threshold), o, delta, threshold);
            && r.0 == Streamed(history + [o], delta, threshold)
            && (r.0.tripped <==> SomeWindowExceeds(history + [o], delta, threshold))
            && (r.1 <==>
                  SomeWindowExceeds(history + [o], delta, threshold) && !SomeWindowExceeds(history, delta, threshold))
  {
    assert (history + [o])[..|history + [o]| - 1] == history;
    TrippedIffSomeWindowExceeds(history, delta, threshold);
    TrippedIffSomeWindowExceeds(history + [o], delta, threshold);
  }

  /** reset_for_feed: the history restarts. */
  method ResetForFeed(db: Database, feed: string)
    requires db.Schema()
    modifies db`latency
    ensures db.Schema() && (old(db.Valid()) ==> db.Valid())
    ensures db.latency == old(db.latency)[feed := InitialState()]
  {
    db.UpsertLatency(feed, InitialState());
  }
}
