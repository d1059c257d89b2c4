/** The scheduler object and its checks of the feed tables (scheduler/calendar.py). */
module ReleaseCalendar {
  import opened Contracts
  import opened StableSort
  import opened Persistence
  import opened FeedLatency
  import opened Firings

  const LOOKBACK := 14 * DAY
  const DEFAULT_TOLERANCE_MINUTES := 120

  datatype DataSource = DataSource(toleranceMinutes: int, consumedBy: seq<string>)

  /** The payload of a data_ingestion_failure event. */
  datatype Failure = Failure(feed: string, scheduledAt: int, now: int, desks: seq<string>, detectedBy: Detector)

  type Prints = map<string, seq<int>>

  function PrintsOf(prints: Prints, feed: string): seq<int> {
    if feed in prints then prints[feed] else []
  }

  /** In seconds. */
  function Tolerance(sources: map<string, DataSource>, feed: string): int {
    60 * if feed in sources then sources[feed].toleranceMinutes else DEFAULT_TOLERANCE_MINUTES
  }

  function Desks(sources: map<string, DataSource>, feed: string): seq<string> {
    if feed in sources then sources[feed].consumedBy else []
  }

  function Distance(p: int, t: int): (d: nat)
    ensures d == p - t || d == t - p
  {
    if p >= t then p - t else t - p
  }

  /** A print landed within the tolerance of the release scheduled at t. */
  predicate OnTime(prints: seq<int>, t: int, tolerance: int) {
    exists p :: p in prints && Distance(p, t) <= tolerance
  }

  function Matched(prints: seq<int>, t: int, tolerance: int): seq<int>
  {
    if prints == [] then []
    else
      var p := prints[|prints| - 1];
      Matched(prints[..|prints| - 1], t, tolerance) + if Distance(p, t) <= tolerance then [p] else []
  }

  /** min(prints, key=distance): the first of the nearest. */
  function Nearest(prints: seq<int>, t: int): int
    requires prints != []
  {
    if |prints| == 1 then prints[0]
    else
      var m := Nearest(prints[..|prints| - 1], t);
      if Distance(prints[|prints| - 1], t) < Distance(m, t) then prints[|prints| - 1] else m
  }

  /** The arrival the detector is fed: the nearest print if one is on time, else still pending now. */
  function Arrival(prints: seq<int>, t: int, tolerance: int, now: int): int {
    var matched := Matched(prints, t, tolerance);
    if matched == [] then now else Nearest(matched, t)
  }

  function Latency(prints: seq<int>, t: int, tolerance: int, now: int): nat {
    var late := Arrival(prints, t, tolerance, now) - t;
    if late < 0 then 0 else late
  }

  lemma {:induction false} MatchedExact(prints: seq<int>, t: int, tolerance: int)
    ensures forall p :: p in Matched(prints, t, tolerance) <==> p in prints && Distance(p, t) <= tolerance
  {
    if prints != [] {
      MatchedExact(prints[..|prints| - 1], t, tolerance);
      assert prints == prints[..|prints| - 1] + [prints[|prints| - 1]];
    }
  }

  /** The matched prints are listed in their own order. */
  lemma {:induction false} MatchedFrom(prints: seq<int>, t: int, tolerance: int, i: nat) returns (k: nat)
    requires i < |Matched(prints, t, tolerance)|
    ensures k < |prints| && prints[k] == Matched(prints, t, tolerance)[i]
    ensures Matched(prints[..k], t, tolerance) == Matched(prints, t, tolerance)[..i]
  {
    var n := |prints| - 1;
    if i < |Matched(prints[..n], t, tolerance)| {
      k := MatchedFrom(prints[..n], t, tolerance, i);
      assert prints[..n][..k] == prints[..k];
    } else {
      k := n;
    }
  }

  lemma {:induction false} NearestIsNearest(prints: seq<int>, t: int)
    requires prints != []
    ensures Nearest(prints, t) in prints
    ensures forall p :: p in prints ==> Distance(Nearest(prints, t), t) <= Distance(p, t)
    ensures exists i :: 0 <= i < |prints| && prints[i] == Nearest(prints, t)
                        && forall j :: 0 <= j < i ==> Distance(prints[i], t) < Distance(prints[j], t)
  {
    if |prints| > 1 {
      var front := prints[..|prints| - 1];
      NearestIsNearest(front, t);
      assert prints == front + [prints[|prints| - 1]];
      var i :| 0 <= i < |front| && front[i] == Nearest(front, t)
               && forall j :: 0 <= j < i ==> Distance(front[i], t) < Distance(front[j], t);
      assert forall j :: 0 <= j < i ==> prints[j] == front[j];
      assert prints[i] == front[i];
    }
  }

  /** An on-time release is measured against the nearest of all its prints, any other one against now. */
  lemma ArrivalMeaning(prints: seq<int>, t: int, tolerance: int, now: int)
    ensures OnTime(prints, t, tolerance) ==>
              var a := Arrival(prints, t, tolerance, now);
              a in prints && Distance(a, t) <= tolerance && forall p :: p in prints ==> Distance(a, t) <= Distance(p, t)
    ensures !OnTime(prints, t, tolerance) ==> Arrival(prints, t, tolerance, now) == now
  {
    var matched := Matched(prints, t, tolerance);
    MatchedExact(prints, t, tolerance);
    if matched != [] {
      NearestIsNearest(matched, t);
    } else {
      forall p | p in prints ensures Distance(p, t) > tolerance {}
    }
  }

  /** The first of the prints nearest to the release. */
  ghost predicate FirstNearest(prints: seq<int>, t: int, k: nat)
    requires k < |prints|
  {
    && (forall j :: 0 <= j < |prints| ==> Distance(prints[k], t) <= Distance(prints[j], t))
    && forall j :: 0 <= j < k ==> Distance(prints[k], t) < Distance(prints[j], t)
  }

  lemma ArrivalIsFirstNearest(prints: seq<int>, t: int, tolerance: int, now: int, k: nat)
    requires k < |prints| && FirstNearest(prints, t, k) && t - tolerance <= prints[k] <= t + tolerance
    ensures Arrival(prints, t, tolerance, now) == prints[k]
  {
    var matched := Matched(prints, t, tolerance);
    MatchedExact(prints, t, tolerance);
    assert prints[k] in prints && prints[k] in matched;
    NearestIsNearest(matched, t);
    var i :| 0 <= i < |matched| && matched[i] == Nearest(matched, t)
             && forall j :: 0 <= j < i ==> Distance(matched[i], t) < Distance(matched[j], t);
    var k' := MatchedFrom(prints, t, tolerance, i);
    MatchedExact(prints[..k'], t, tolerance);
    assert k' >= k;
    forall p | p in matched[..i] ensures Distance(prints[k], t) < Distance(p, t) {}
    assert prints[k] !in prints[..k'];
    assert forall j :: 0 <= j < k' ==> prints[..k'][j] == prints[j];
  }

  /** The latency of a release met on time is how late the first of its nearest prints was, zero if it was early. */
  lemma MetLatency(prints: seq<int>, t: int, tolerance: int, now: int, k: nat)
    requires k < |prints| && FirstNearest(prints, t, k) && t - tolerance <= prints[k] <= t + tolerance
    ensures prints[k] >= t ==> Latency(prints, t, tolerance, now) == prints[k] - t
    ensures prints[k] <= t ==> Latency(prints, t, tolerance, now) == 0
  {
    ArrivalIsFirstNearest(prints, t, tolerance, now, k);
  }

  /** The latency of a release not met on time is its age. */
  lemma PendingLatency(prints: seq<int>, t: int, tolerance: int, now: int)
    requires t <= now && forall p :: p in prints ==> p < t - tolerance || p > t + tolerance
    ensures Latency(prints, t, tolerance, now) == now - t
  {
    ArrivalMeaning(prints, t, tolerance, now);
  }

  function ObservationOf(sources: map<string, DataSource>, prints: Prints, now: int, f: Firing): Observation {
    var feed := f.event.id;
    Observation(Latency(PrintsOf(prints, feed), f.ts, Tolerance(sources, feed), now) as real, now)
  }

  /** In the catalogue's terms: minutes of tolerance, two hours for a feed it does not list. */
  ghost predicate WithinTolerance(sources: map<string, DataSource>, feed: string, p: int, t: int) {
    if feed in sources then t - 60 * sources[feed].toleranceMinutes <= p <= t + 60 * sources[feed].toleranceMinutes
    else t - 7200 <= p <= t + 7200
  }

  /** A detector is fed at the time of the pass: the age of a release without a print within the tolerance. */
  lemma PendingObservation(sources: map<string, DataSource>, prints: Prints, now: int, f: Firing)
    requires f.ts <= now
    requires f.event.id in prints ==>
               forall p :: p in prints[f.event.id] ==> !WithinTolerance(sources, f.event.id, p, f.ts)
    ensures ObservationOf(sources, prints, now, f) == Observation((now - f.ts) as real, now)
  {
    var feed := f.event.id;
    forall p | p in PrintsOf(prints, feed)
      ensures p < f.ts - Tolerance(sources, feed) || p > f.ts + Tolerance(sources, feed) {
      assert !WithinTolerance(sources, feed, p, f.ts);
    }
    PendingLatency(PrintsOf(prints, feed), f.ts, Tolerance(sources, feed), now);
  }

  /** And the delay of the first of the nearest prints of any other release. */
  lemma MetObservation(sources: map<string, DataSource>, prints: Prints, now: int, f: Firing, k: nat)
    requires f.event.id in prints && k < |prints[f.event.id]|
    requires var ps := prints[f.event.id];
             FirstNearest(ps, f.ts, k) && WithinTolerance(sources, f.event.id, ps[k], f.ts)
    ensures var p := prints[f.event.id][k];
            ObservationOf(sources, prints, now, f)
              == Observation(if p >= f.ts then (p - f.ts) as real else 0.0, now)
  {
    MetLatency(PrintsOf(prints, f.event.id), f.ts, Tolerance(sources, f.event.id), now, k);
  }

  /** What the detector of one feed is fed by a pass over the firings. */
  function ObservationsOf(sources: map<string, DataSource>, prints: Prints, now: int, fs: seq<Firing>,
                          feed: string): seq<Observation>
  {
    if fs == [] then []
    else
      var front, f := fs[..|fs| - 1], fs[|fs| - 1];
      ObservationsOf(sources, prints, now, front, feed) +
      if f.event.id == feed then [ObservationOf(sources, prints, now, f)] else []
  }

  /** The detector of the feed after the first firings of the pass. */
  function DetectorAfter(sources: map<string, DataSource>, prints: Prints, now: int, latency: map<string, LatencyState>,
                         fs: seq<Firing>, feed: string): LatencyState
  {
    StreamFrom(LoadOrInitial(latency, feed), ObservationsOf(sources, prints, now, fs, feed), DELTA, THRESHOLD)
  }

  function FailureAt(sources: map<string, DataSource>, now: int, f: Firing): Failure {
    Failure(f.event.id, f.ts, now, Desks(sources, f.event.id), PageHinkley)
  }

  /** One event per firing that newly trips the detector of a feed without an open incident. */
  function Emitted(sources: map<string, DataSource>, prints: Prints, now: int, latency: map<string, LatencyState>,
                   incidents: seq<Incident>, fs: seq<Firing>): seq<Failure>
  {
    if fs == [] then []
    else
      var front, f := fs[..|fs| - 1], fs[|fs| - 1];
      var before := DetectorAfter(sources, prints, now, latency, front, f.event.id);
      var trips := Step(before, ObservationOf(sources, prints, now, f), DELTA, THRESHOLD).1;
      Emitted(sources, prints, now, latency, incidents, front) +
      if trips && OpenIncident(incidents, f.event.id).None? then [FailureAt(sources, now, f)] else []
  }

  lemma DetectorStep(sources: map<string, DataSource>, prints: Prints, now: int, latency: map<string, LatencyState>,
                     fs: seq<Firing>, feed: string)
    requires fs != []
    ensures var front, f := fs[..|fs| - 1], fs[|fs| - 1];
            DetectorAfter(sources, prints, now, latency, fs, feed)
            == (if f.event.id == feed
                then Step(DetectorAfter(sources, prints, now, latency, front, feed),
                    ObservationOf(sources, prints, now, f), DELTA, THRESHOLD).0
                else DetectorAfter(sources, prints, now, latency, front, feed))
  {
    var front, f := fs[..|fs| - 1], fs[|fs| - 1];
    var seen := ObservationsOf(sources, prints, now, front, feed);
    var all := ObservationsOf(sources, prints, now, fs, feed);
    if f.event.id == feed {
      assert all[..|all| - 1] == seen;
    } else {
      assert all == seen;
    }
  }

  /** Every feed's stored detector is the one reached by the given firings. */
  ghost predicate Detectors(stored: map<string, LatencyState>, sources: map<string, DataSource>, prints: Prints,
                            now: int,
                            latency: map<string, LatencyState>, fs: seq<Firing>)
  {
    forall feed :: LoadOrInitial(stored, feed) == DetectorAfter(sources, prints, now, latency, fs, feed)
  }

  lemma ObservedOne(stored: map<string, LatencyState>, sources: map<string, DataSource>, prints: Prints, now: int,
                    latency: map<string, LatencyState>, incidents: seq<Incident>, fs: seq<Firing>, n: nat)
    requires n < |fs|
    requires Detectors(stored, sources, prints, now, latency, fs[..n])
    ensures var r := Step(LoadOrInitial(stored, fs[n].event.id), ObservationOf(sources, prints, now, fs[n]), DELTA,
              THRESHOLD);
            && Detectors(stored[fs[n].event.id := r.0], sources, prints, now, latency, fs[..n + 1])
            && Emitted(sources, prints, now, latency, incidents, fs[..n + 1])
               == Emitted(sources, prints, now, latency, incidents, fs[..n]) +
                  if r.1 && OpenIncident(incidents, fs[n].event.id).None? then [FailureAt(sources, now, fs[n])] else []
  {
    var f := fs[n];
    var r := Step(LoadOrInitial(stored, f.event.id), ObservationOf(sources, prints, now, f), DELTA, THRESHOLD);
    assert fs[..n + 1][..n] == fs[..n];
    var stored' := stored[f.event.id := r.0];
    forall feed ensures LoadOrInitial(stored', feed)
        == DetectorAfter(sources, prints, now, latency, fs[..n + 1], feed) {
      DetectorStep(sources, prints, now, latency, fs[..n + 1], feed);
    }
  }

  predicate EmittedFor(es: seq<Failure>, feed: string) {
    exists i :: 0 <= i < |es| && es[i].feed == feed
  }

  /**
   * A pass emits for a feed iff the feed has no open incident and its detector goes from untripped to
   * tripped during the pass.
   */
  lemma {:induction false} EmittedExact(sources: map<string, DataSource>, prints: Prints, now: int,
                                        latency: map<string, LatencyState>, incidents: seq<Incident>, fs: seq<Firing>,
                                        feed: string)
    ensures EmittedFor(Emitted(sources, prints, now, latency, incidents, fs), feed) <==>
              && OpenIncident(incidents, feed).None?
              && !LoadOrInitial(latency, feed).tripped
              && DetectorAfter(sources, prints, now, latency, fs, feed).tripped
  {
    if fs != [] {
      var front := fs[..|fs| - 1];
      EmittedExact(sources, prints, now, latency, incidents, front, feed);
      DetectorStep(sources, prints, now, latency, fs, feed);
      EmittedGrows(Emitted(sources, prints, now, latency, incidents, front),
          Emitted(sources, prints, now, latency, incidents, fs), feed);
      LatchedFrom(LoadOrInitial(latency, feed), ObservationsOf(sources, prints, now, front, feed));
    }
  }

  /**
   * In terms of the data: with the feed's detector tracking a history since its last reset, the pass
   * emits iff no incident is open and the pass completes the first window that drifts past the threshold.
   */
  lemma EmittedIffWindow(sources: map<string, DataSource>, prints: Prints, now: int, latency: map<string, LatencyState>,
                         incidents: seq<Incident>, fs: seq<Firing>, feed: string, history: seq<Observation>)
    requires LoadOrInitial(latency, feed) == Streamed(history, 0.005, 50.0)
    ensures var seen := history + ObservationsOf(sources, prints, now, fs, feed);
            && DetectorAfter(sources, prints, now, latency, fs, feed) == Streamed(seen, 0.005, 50.0)
            && (EmittedFor(Emitted(sources, prints, now, latency, incidents, fs), feed) <==>
                  && OpenIncident(incidents, feed).None?
                  && !SomeWindowExceeds(history, 0.005, 50.0)
                  && SomeWindowExceeds(seen, 0.005, 50.0))
  {
    var more := ObservationsOf(sources, prints, now, fs, feed);
    StreamAppend(InitialState(), history, more, DELTA, THRESHOLD);
    EmittedExact(sources, prints, now, latency, incidents, fs, feed);
    TrippedIffSomeWindowExceeds(history, DELTA, THRESHOLD);
    TrippedIffSomeWindowExceeds(history + more, DELTA, THRESHOLD);
  }

  /** The k-th firing of the pass sets the latch of its feed's detector. */
  ghost predicate TripsAt(sources: map<string, DataSource>, prints: Prints, now: int,
                          latency: map<string, LatencyState>, fs: seq<Firing>, k: nat)
    requires k < |fs|
  {
    && !DetectorAfter(sources, prints, now, latency, fs[..k], fs[k].event.id).tripped
    && DetectorAfter(sources, prints, now, latency, fs[..k + 1], fs[k].event.id).tripped
  }

  /** The event reports the firing: the feed, when it was due, the time of the pass and the desks that use the feed. */
  ghost predicate Reports(sources: map<string, DataSource>, now: int, e: Failure, f: Firing) {
    && e.feed == f.event.id && e.scheduledAt == f.ts && e.now == now && e.detectedBy == PageHinkley
    && (if e.feed in sources then e.desks == sources[e.feed].consumedBy else e.desks == [])
  }

  /** Some firing of the pass both trips its detector and is reported by the event. */
  ghost predicate Explained(sources: map<string, DataSource>, prints: Prints, now: int,
                            latency: map<string, LatencyState>, fs: seq<Firing>, e: Failure) {
    exists k :: 0 <= k < |fs| && TripsAt(sources, prints, now, latency, fs, k) && Reports(sources, now, e, fs[k])
  }

  lemma StillExplained(sources: map<string, DataSource>, prints: Prints, now: int, latency: map<string, LatencyState>,
                       fs: seq<Firing>, e: Failure, n: nat)
    requires n <= |fs| && Explained(sources, prints, now, latency, fs[..n], e)
    ensures Explained(sources, prints, now, latency, fs, e)
  {
    var k :| 0 <= k < n && TripsAt(sources, prints, now, latency, fs[..n], k) && Reports(sources, now, e, fs[..n][k]);
    assert fs[..n][..k] == fs[..k] && fs[..n][..k + 1] == fs[..k + 1];
    assert TripsAt(sources, prints, now, latency, fs, k);
  }

  lemma LastTrips(sources: map<string, DataSource>, prints: Prints, now: int, latency: map<string, LatencyState>,
                  fs: seq<Firing>)
    requires fs != []
    requires var n := |fs| - 1;
             Step(DetectorAfter(sources, prints, now, latency, fs[..n], fs[n].event.id),
                  ObservationOf(sources, prints, now, fs[n]), DELTA, THRESHOLD).1
    ensures Explained(sources, prints, now, latency, fs, FailureAt(sources, now, fs[|fs| - 1]))
  {
    var n := |fs| - 1;
    DetectorStep(sources, prints, now, latency, fs, fs[n].event.id);
    assert fs[..n + 1] == fs;
    assert TripsAt(sources, prints, now, latency, fs, n);
  }

  /** Every event emitted reports the firing that tripped the detector. */
  lemma {:induction false} EmittedDetails(sources: map<string, DataSource>, prints: Prints, now: int,
                                          latency: map<string, LatencyState>, incidents: seq<Incident>,
                                          fs: seq<Firing>, e: Failure)
    requires e in Emitted(sources, prints, now, latency, incidents, fs)
    ensures Explained(sources, prints, now, latency, fs, e)
  {
    var n := |fs| - 1;
    if e in Emitted(sources, prints, now, latency, incidents, fs[..n]) {
      EmittedDetails(sources, prints, now, latency, incidents, fs[..n], e);
      StillExplained(sources, prints, now, latency, fs, e, n);
    } else {
      LastTrips(sources, prints, now, latency, fs);
    }
  }

  /** Never twice for one feed. */
  lemma {:induction false} EmittedOnce(sources: map<string, DataSource>, prints: Prints, now: int,
                                       latency: map<string, LatencyState>, incidents: seq<Incident>, fs: seq<Firing>)
    ensures var es := Emitted(sources, prints, now, latency, incidents, fs);
            forall i, j :: 0 <= i < j < |es| ==> es[i].feed != es[j].feed
  {
    if fs != [] {
      var front, f := fs[..|fs| - 1], fs[|fs| - 1];
      var es' := Emitted(sources, prints, now, latency, incidents, front);
      EmittedOnce(sources, prints, now, latency, incidents, front);
      EmittedExact(sources, prints, now, latency, incidents, front, f.event.id);
      if DetectorAfter(sources, prints, now, latency, front, f.event.id).tripped {
        assert Emitted(sources, prints, now, latency, incidents, fs) == es';
      } else if OpenIncident(incidents, f.event.id).None? {
        LatchedFrom(LoadOrInitial(latency, f.event.id), ObservationsOf(sources, prints, now, front, f.event.id));
        assert !EmittedFor(es', f.event.id);
        assert forall i :: 0 <= i < |es'| ==> es'[i].feed != f.event.id;
      }
    }
  }

  lemma EmittedGrows(es': seq<Failure>, es: seq<Failure>, feed: string)
    requires es == es' || (|es| == |es'| + 1 && es[..|es'|] == es')
    ensures EmittedFor(es, feed) <==> EmittedFor(es', feed) || (|es| > |es'| && es[|es'|].feed == feed)
  {
    if EmittedFor(es', feed) {
      var i :| 0 <= i < |es'| && es'[i].feed == feed;
      assert es[i].feed == feed;
    }
  }

  lemma {:induction false} LatchedFrom(s: LatencyState, obs: seq<Observation>)
    ensures s.tripped ==> StreamFrom(s, obs, DELTA, THRESHOLD).tripped
  {
    if obs != [] { LatchedFrom(s, obs[..|obs| - 1]); }
  }

  // ----- a run of passes: the look-back is not remembered between them

  datatype Pass = Pass(now: int, prints: Prints)

  function Window(events: seq<Event>, now: int): seq<Firing>
    requires Crons(events)
  {
    Between(events, now - LOOKBACK, now)
  }

  /** A pass looks back fourteen days. */
  lemma WindowExact(events: seq<Event>, now: int, f: Firing)
    requires Crons(events)
    ensures f in Window(events, now) <==> f.event in events && Due(f.event, f.ts) && now - 1209600 < f.ts <= now
  {
    BetweenExact(events, now - LOOKBACK, now);
  }

  /** What the detector of a feed is fed by the passes, one after another. */
  function RunObservations(events: seq<Event>, sources: map<string, DataSource>, passes: seq<Pass>, feed: string)
    : seq<Observation>
    requires Crons(events)
  {
    if passes == [] then []
    else
      var p := passes[|passes| - 1];
      RunObservations(events, sources, passes[..|passes| - 1], feed)
      + ObservationsOf(sources, p.prints, p.now, Window(events, p.now), feed)
  }

  /** The stored detectors before, between and after the passes, with nothing reset in between. */
  ghost predicate RunOfPasses(events: seq<Event>, sources: map<string, DataSource>, passes: seq<Pass>,
                              states: seq<map<string, LatencyState>>)
    requires Crons(events)
  {
    && |states| == |passes| + 1
    && forall k :: 0 <= k < |passes| ==>
         Detectors(states[k + 1], sources, passes[k].prints, passes[k].now, states[k], Window(events, passes[k].now))
  }

  /** A run of passes is one stream: every pass feeds its whole window again. */
  lemma {:induction false} RunIsOneStream(events: seq<Event>, sources: map<string, DataSource>, passes: seq<Pass>,
                                          states: seq<map<string, LatencyState>>, feed: string)
    requires Crons(events) && RunOfPasses(events, sources, passes, states)
    ensures LoadOrInitial(states[|passes|], feed) ==
            StreamFrom(LoadOrInitial(states[0], feed), RunObservations(events, sources, passes, feed), DELTA, THRESHOLD)
  {
    if passes != [] {
      var n := |passes| - 1;
      RunIsOneStream(events, sources, passes[..n], states[..n + 1], feed);
      var p := passes[n];
      StreamAppend(LoadOrInitial(states[0], feed), RunObservations(events, sources, passes[..n], feed),
          ObservationsOf(sources, p.prints, p.now, Window(events, p.now), feed), DELTA, THRESHOLD);
    }
  }

  /** The firings the passes at these times feed. */
  function RunFirings(events: seq<Event>, nows: seq<int>): seq<Firing>
    requires Crons(events)
  {
    if nows == [] then [] else RunFirings(events, nows[..|nows| - 1]) + Window(events, nows[|nows| - 1])
  }

  predicate Sees(now: int, t: int) {
    now - LOOKBACK < t <= now
  }

  /** How many of the passes look back on time t. */
  function TimesSeen(nows: seq<int>, t: int): nat
  {
    if nows == [] then 0
    else TimesSeen(nows[..|nows| - 1], t) + if Sees(nows[|nows| - 1], t) then 1 else 0
  }

  /** The calendar entries under which a firing is due. */
  ghost function Entries(events: seq<Event>, f: Firing): nat {
    if Due(f.event, f.ts) then multiset(events)[f.event] else 0
  }

  lemma WindowCount(events: seq<Event>, now: int, f: Firing)
    requires Crons(events)
    ensures multiset(Window(events, now))[f] == if Sees(now, f.ts) then Entries(events, f) else 0
  {
    BetweenCount(events, now - LOOKBACK, now, f);
  }

  lemma OnceMore(before: seq<Firing>, window: seq<Firing>, f: Firing, k: nat, seen: bool, m: nat)
    requires multiset(before)[f] == k * m && multiset(window)[f] == if seen then m else 0
    ensures multiset(before + window)[f] == (k + if seen then 1 else 0) * m
  {
    CountAppend(before, window, f);
  }

  /** A due release is fed, once per calendar entry, by every pass that looks back on it. */
  lemma {:induction false} TimesFed(events: seq<Event>, nows: seq<int>, f: Firing, m: nat)
    requires Crons(events) && m == Entries(events, f)
    ensures multiset(RunFirings(events, nows))[f] == TimesSeen(nows, f.ts) * m
  {
    if nows != [] {
      var n := |nows| - 1;
      TimesFed(events, nows[..n], f, m);
      WindowCount(events, nows[n], f);
      OnceMore(RunFirings(events, nows[..n]), Window(events, nows[n]), f, TimesSeen(nows[..n], f.ts),
               Sees(nows[n], f.ts), m);
    }
  }

  /** No two passes look back on the same time. */
  ghost predicate Apart(nows: seq<int>) {
    forall i, j :: 0 <= i < j < |nows| ==> nows[j] - nows[i] >= LOOKBACK || nows[i] - nows[j] >= LOOKBACK
  }

  lemma {:induction false} SeenIff(nows: seq<int>, t: int)
    ensures TimesSeen(nows, t) > 0 <==> exists i :: 0 <= i < |nows| && Sees(nows[i], t)
  {
    if nows != [] {
      var front := nows[..|nows| - 1];
      SeenIff(front, t);
      assert forall i :: 0 <= i < |front| ==> front[i] == nows[i];
    }
  }

  lemma {:induction false} SeenTwice(nows: seq<int>, i: nat, j: nat, t: int)
    requires i < j < |nows| && Sees(nows[i], t) && Sees(nows[j], t)
    ensures TimesSeen(nows, t) >= 2
  {
    var front := nows[..|nows| - 1];
    if j < |front| {
      SeenTwice(front, i, j, t);
    } else {
      assert front[i] == nows[i];
      SeenIff(front, t);
    }
  }

  lemma {:induction false} ApartSeesOnce(nows: seq<int>, t: int)
    requires Apart(nows)
    ensures TimesSeen(nows, t) <= 1
  {
    if nows != [] {
      var front := nows[..|nows| - 1];
      assert forall i :: 0 <= i < |front| ==> front[i] == nows[i];
      ApartSeesOnce(front, t);
      SeenIff(front, t);
    }
  }

  ghost predicate FedOnce(events: seq<Event>, nows: seq<int>)
    requires Crons(events)
  {
    forall f :: multiset(RunFirings(events, nows))[f] <= 1
  }

  ghost predicate Unrepeated(events: seq<Event>) {
    forall e :: multiset(events)[e] <= 1
  }

  lemma AtMostOnce(k: nat, m: nat)
    requires k <= 1 && m <= 1
    ensures k * m <= 1
  {
  }

  lemma SeenOnceFedOnce(events: seq<Event>, nows: seq<int>)
    requires Crons(events) && Unrepeated(events)
    requires forall f: Firing :: f.event in events && Due(f.event, f.ts) ==> TimesSeen(nows, f.ts) <= 1
    ensures FedOnce(events, nows)
  {
    forall f ensures multiset(RunFirings(events, nows))[f] <= 1 {
      TimesFed(events, nows, f, Entries(events, f));
      assert f.event in events <==> f.event in multiset(events);
      if Entries(events, f) > 0 { AtMostOnce(TimesSeen(nows, f.ts), Entries(events, f)); }
    }
  }

  lemma SeenTwiceFedTwice(e: Event, nows: seq<int>, t: int)
    requires Cron(e.next) && Due(e, t) && TimesSeen(nows, t) >= 2
    ensures Crons([e]) && Unrepeated([e]) && !FedOnce([e], nows)
  {
    assert multiset([e])[e] == 1;
    TimesFed([e], nows, Firing(e, t), 1);
  }

  lemma {:induction false} NotApartSeesTwice(nows: seq<int>) returns (t: int)
    requires !Apart(nows)
    ensures t in nows && TimesSeen(nows, t) >= 2
  {
    var i, j :| 0 <= i < j < |nows| && -LOOKBACK < nows[j] - nows[i] < LOOKBACK;
    t := if nows[i] <= nows[j] then nows[i] else nows[j];
    SeenTwice(nows, i, j, t);
  }

  /** Due at every second. */
  function EverySecond(): Event {
    Event("feed", (t: int) => t + 1)
  }

  lemma EverySecondIsDue(t: int)
    ensures Cron(EverySecond().next) && Due(EverySecond(), t)
  {
    forall u ensures EverySecond().next(u) == u + 1 {}
  }

  /** Calendars to the second have each release fed at most once exactly when the passes are a look-back apart. */
  lemma FedOnceIffApart(nows: seq<int>)
    ensures (forall events :: Crons(events) && Unrepeated(events) ==> FedOnce(events, nows)) <==> Apart(nows)
  {
    if Apart(nows) {
      forall events | Crons(events) && Unrepeated(events) ensures FedOnce(events, nows) {
        forall t ensures TimesSeen(nows, t) <= 1 { ApartSeesOnce(nows, t); }
        SeenOnceFedOnce(events, nows);
      }
    } else {
      var t := NotApartSeesTwice(nows);
      EverySecondIsDue(t);
      SeenTwiceFedTwice(EverySecond(), nows, t);
    }
  }

  // ----- five-field crons are due on whole minutes only

  ghost predicate OnMinutes(events: seq<Event>) {
    forall e, t :: e in events ==> e.next(t) % 60 == 0
  }

  /** The start of the minute of t. */
  function Minute(t: int): int {
    60 * (t / 60)
  }

  function Minutes(nows: seq<int>): (ms: seq<int>)
    ensures |ms| == |nows| && forall i :: 0 <= i < |nows| ==> ms[i] == Minute(nows[i])
  {
    seq(|nows|, i requires 0 <= i < |nows| => Minute(nows[i]))
  }

  lemma SeesOnMinutes(now: int, t: int)
    requires t % 60 == 0
    ensures Sees(now, t) <==> Sees(Minute(now), t)
  {
    assert t == 60 * (t / 60) && LOOKBACK == 60 * 20160;
  }

  lemma {:induction false} SeenOnMinutes(nows: seq<int>, t: int)
    requires t % 60 == 0
    ensures TimesSeen(nows, t) == TimesSeen(Minutes(nows), t)
  {
    if nows != [] {
      var n := |nows| - 1;
      SeenOnMinutes(nows[..n], t);
      SeesOnMinutes(nows[n], t);
      assert Minutes(nows)[..n] == Minutes(nows[..n]);
    }
  }

  function NextMinute(t: int): int {
    Minute(t) + 60
  }

  /** Due at every minute. */
  function EveryMinute(): Event {
    Event("feed", (t: int) => NextMinute(t))
  }

  lemma WithinMinute(u: int, v: int)
    requires u <= v < NextMinute(u)
    ensures NextMinute(v) == NextMinute(u)
  {
    assert v / 60 == u / 60;
  }

  lemma MinuteBounds(u: int)
    ensures Minute(u) <= u < NextMinute(u) && NextMinute(u) % 60 == 0
  {
  }

  lemma EveryMinuteIsCron()
    ensures Cron(EveryMinute().next) && OnMinutes([EveryMinute()])
  {
    forall u ensures EveryMinute().next(u) == NextMinute(u) > u && NextMinute(u) % 60 == 0 { MinuteBounds(u); }
    forall u, v | u <= v < EveryMinute().next(u) ensures EveryMinute().next(v) == EveryMinute().next(u) {
      WithinMinute(u, v);
    }
  }

  lemma EveryMinuteIsDue(t: int)
    requires t % 60 == 0
    ensures Due(EveryMinute(), t)
  {
    assert NextMinute(t - 1) == t;
  }

  /**
   Calendars to the minute, as five-field crons are, have each release fed at most once exactly when the
   passes, rounded down to the minute, are a look-back apart.
   */
  lemma FedOnceOnMinutesIff(nows: seq<int>)
    ensures (forall events :: Crons(events) && Unrepeated(events) && OnMinutes(events) ==> FedOnce(events, nows))
            <==> Apart(Minutes(nows))
  {
    if Apart(Minutes(nows)) {
      forall events | Crons(events) && Unrepeated(events) && OnMinutes(events) ensures FedOnce(events, nows) {
        forall f: Firing | f.event in events && Due(f.event, f.ts) ensures TimesSeen(nows, f.ts) <= 1 {
          assert f.event.next(f.ts - 1) % 60 == 0;
          SeenOnMinutes(nows, f.ts);
          ApartSeesOnce(Minutes(nows), f.ts);
        }
        SeenOnceFedOnce(events, nows);
      }
    } else {
      var t := NotApartSeesTwice(Minutes(nows));
      assert t % 60 == 0;
      SeenOnMinutes(nows, t);
      EveryMinuteIsCron();
      EveryMinuteIsDue(t);
      SeenTwiceFedTwice(EveryMinute(), nows, t);
    }
  }

  /** A release of the incident's feed due after it was opened was met on time. */
  ghost predicate Recovered(events: seq<Event>, sources: map<string, DataSource>, prints: Prints, now: int,
                            r: Incident) {
    exists i, t :: 0 <= i < |events| && events[i].id == r.feed && r.openedAt < t <= now && Due(events[i], t)
                   && OnTime(PrintsOf(prints, r.feed), t, Tolerance(sources, r.feed))
  }

  // ----- the documented rule looks at the next release only

  /** A release of the feed is due at t, after the incident was opened and by now. */
  ghost predicate DueAfter(events: seq<Event>, r: Incident, now: int, t: int) {
    r.openedAt < t <= now && exists i :: 0 <= i < |events| && events[i].id == r.feed && Due(events[i], t)
  }

  ghost predicate NextRelease(events: seq<Event>, r: Incident, now: int, t: int) {
    DueAfter(events, r, now, t) && forall u :: DueAfter(events, r, now, u) ==> t <= u
  }

  ghost predicate MetAt(sources: map<string, DataSource>, prints: Prints, r: Incident, t: int) {
    OnTime(PrintsOf(prints, r.feed), t, Tolerance(sources, r.feed))
  }

  ghost predicate NextReleaseMet(events: seq<Event>, sources: map<string, DataSource>, prints: Prints, now: int,
                                 r: Incident) {
    exists t :: NextRelease(events, r, now, t) && MetAt(sources, prints, r, t)
  }

  lemma {:induction false} NextReleaseExists(events: seq<Event>, r: Incident, now: int, t: int) returns (first: int)
    requires DueAfter(events, r, now, t)
    ensures NextRelease(events, r, now, first)
    decreases t - r.openedAt
  {
    if u :| DueAfter(events, r, now, u) && u < t {
      first := NextReleaseExists(events, r, now, u);
    } else {
      first := t;
    }
  }

  lemma RecoveredIffSomeMet(events: seq<Event>, sources: map<string, DataSource>, prints: Prints, now: int, r: Incident)
    ensures Recovered(events, sources, prints, now, r) <==>
            exists t :: DueAfter(events, r, now, t) && MetAt(sources, prints, r, t)
  {
    if Recovered(events, sources, prints, now, r) {
      var i, t :| 0 <= i < |events| && events[i].id == r.feed && r.openedAt < t <= now && Due(events[i], t)
                  && OnTime(PrintsOf(prints, r.feed), t, Tolerance(sources, r.feed));
      assert DueAfter(events, r, now, t) && MetAt(sources, prints, r, t);
    }
  }

  /**
   The code's rule and the documented one differ exactly when the first release due after the incident
   was opened was missed and a later one was met; the code then closes the incident.
   */
  lemma RecoveryRulesDifferIff(events: seq<Event>, sources: map<string, DataSource>, prints: Prints, now: int,
                               r: Incident)
    ensures NextReleaseMet(events, sources, prints, now, r) ==> Recovered(events, sources, prints, now, r)
    ensures Recovered(events, sources, prints, now, r) && !NextReleaseMet(events, sources, prints, now, r) <==>
            exists t, u :: NextRelease(events, r, now, t) && !MetAt(sources, prints, r, t)
                           && t < u && DueAfter(events, r, now, u) && MetAt(sources, prints, r, u)
  {
    RecoveredIffSomeMet(events, sources, prints, now, r);
    if Recovered(events, sources, prints, now, r) && !NextReleaseMet(events, sources, prints, now, r) {
      var u :| DueAfter(events, r, now, u) && MetAt(sources, prints, r, u);
      var t := NextReleaseExists(events, r, now, u);
      assert !MetAt(sources, prints, r, t) && t <= u;
    }
    if t, u :| NextRelease(events, r, now, t) && !MetAt(sources, prints, r, t)
               && t < u && DueAfter(events, r, now, u) && MetAt(sources, prints, r, u) {
      forall v | NextRelease(events, r, now, v) ensures v == t {}
    }
  }

  /** The firing is one of the feed's and was met on time. */
  ghost predicate Met(feedPrints: seq<int>, tolerance: int, feed: string, f: Firing) {
    f.event.id == feed && OnTime(feedPrints, f.ts, tolerance)
  }

  lemma RecoveredIffMet(events: seq<Event>, sources: map<string, DataSource>, prints: Prints, now: int, r: Incident)
    requires Crons(events)
    ensures var fs := Between(events, r.openedAt, now);
            Recovered(events, sources, prints, now, r) <==>
            exists j :: 0 <= j < |fs| && Met(PrintsOf(prints, r.feed), Tolerance(sources, r.feed), r.feed, fs[j])
  {
    var fs := Between(events, r.openedAt, now);
    var feedPrints, tolerance := PrintsOf(prints, r.feed), Tolerance(sources, r.feed);
    BetweenExact(events, r.openedAt, now);
    if Recovered(events, sources, prints, now, r) {
      var i, t :| 0 <= i < |events| && events[i].id == r.feed && r.openedAt < t <= now && Due(events[i], t)
                  && OnTime(feedPrints, t, tolerance);
      assert Firing(events[i], t) in fs;
      var j :| 0 <= j < |fs| && fs[j] == Firing(events[i], t);
      assert Met(feedPrints, tolerance, r.feed, fs[j]);
    }
    if exists j :: 0 <= j < |fs| && Met(feedPrints, tolerance, r.feed, fs[j]) {
      var j :| 0 <= j < |fs| && Met(feedPrints, tolerance, r.feed, fs[j]);
      assert fs[j] in fs;
      var i :| 0 <= i < |events| && events[i] == fs[j].event;
      assert Due(events[i], fs[j].ts);
    }
  }

  ghost function RecoveredBy(events: seq<Event>, sources: map<string, DataSource>, prints: Prints,
                             now: int): Incident -> bool {
    (r: Incident) => Recovered(events, sources, prints, now, r)
  }

  /** get_open_feed_incidents. */
  function OpenedAt(r: Incident): int { r.openedAt }

  function OpenRows(rows: seq<Incident>): seq<Incident>
  {
    if rows == [] then [] else (if rows[0].closed.None? then [rows[0]] else []) + OpenRows(rows[1..])
  }

  function OpenIncidents(rows: seq<Incident>): seq<Incident> {
    SortBy(OpenedAt, OpenRows(rows))
  }

  lemma {:induction false} OpenRowsExact(rows: seq<Incident>)
    ensures forall r :: r in OpenRows(rows) <==> r in rows && r.closed.None?
  {
    if rows != [] { OpenRowsExact(rows[1..]); }
  }

  lemma OpenIncidentsExact(rows: seq<Incident>)
    ensures forall r :: r in OpenIncidents(rows) <==> r in rows && r.closed.None?
  {
    OpenRowsExact(rows);
    SortContents(OpenedAt, OpenRows(rows));

    forall r ensures r in OpenIncidents(rows) <==> r in OpenRows(rows) {
      assert r in OpenIncidents(rows) <==> r in multiset(OpenIncidents(rows));
    }
  }

  /** They are examined oldest first. */
  lemma OldestFirst(rows: seq<Incident>, i: nat, j: nat)
    requires i < j < |OpenIncidents(rows)|
    ensures OpenIncidents(rows)[i].openedAt <= OpenIncidents(rows)[j].openedAt
  {
    SortSorted(OpenedAt, OpenRows(rows));
    assert OpenedAt(OpenIncidents(rows)[i]) <= OpenedAt(OpenIncidents(rows)[j]);
  }

  function Resolution(feed: string): string { "auto:scheduler_recovery:" + feed }

  function CloseRecovered(r: Incident, now: int): Incident {
    r.(closed := Some(now), resolution := Some(Resolution(r.feed)))
  }

  /** The rows after the given open incidents were examined. */
  ghost predicate Examined(rows: seq<Incident>, rows': seq<Incident>, done: seq<Incident>, recovered: Incident -> bool,
                           now: int) {
    && |rows'| == |rows|
    && forall k :: 0 <= k < |rows| ==>
         rows'[k] == if rows[k] in done && recovered(rows[k]) then CloseRecovered(rows[k], now) else rows[k]
  }

  ghost function RecoveredFeeds(open: seq<Incident>, recovered: Incident -> bool): seq<string>
  {
    if open == [] then []
    else
      var r := open[|open| - 1];
      RecoveredFeeds(open[..|open| - 1], recovered) + if recovered(r) then [r.feed] else []
  }

  /** The detectors with those of the given feeds reset. */
  ghost predicate ResetOnly(latency: map<string, LatencyState>, latency': map<string, LatencyState>,
                            feeds: seq<string>) {
    && latency'.Keys == latency.Keys + (set i | 0 <= i < |feeds| :: feeds[i])
    && forall feed :: feed in latency' ==> latency'[feed] == if feed in feeds then InitialState() else latency[feed]
  }

  lemma ExamineOne(rows: seq<Incident>, rows': seq<Incident>, rows'': seq<Incident>, open: seq<Incident>, n: nat,
                   recovered: Incident -> bool, now: int)
    requires n < |open| && open[n] in rows && open[n].closed.None? && IncidentIdsUnique(rows)
    requires Examined(rows, rows', open[..n], recovered, now) && |rows''| == |rows'|
    requires forall k :: 0 <= k < |rows'| ==>
               rows''[k] == if recovered(open[n]) then CloseRow(rows'[k], open[n].id, now, Resolution(open[n].feed))
                            else rows'[k]
    ensures Examined(rows, rows'', open[..n + 1], recovered, now)
  {
    assert open[..n + 1] == open[..n] + [open[n]];
    var m :| 0 <= m < |rows| && rows[m] == open[n];
    forall k | 0 <= k < |rows| && k != m ensures rows[k].id != open[n].id {}
  }

  lemma {:induction false} RecoveredFeedsExact(open: seq<Incident>, recovered: Incident -> bool)
    ensures forall feed :: feed in RecoveredFeeds(open, recovered) <==>
              exists r :: r in open && r.feed == feed && recovered(r)
  {
    if open != [] {
      RecoveredFeedsExact(open[..|open| - 1], recovered);
      assert open == open[..|open| - 1] + [open[|open| - 1]];
    }
  }

  /** The feeds are reported in the order in which their incidents were examined. */
  lemma {:induction false} RecoveredInOrder(open: seq<Incident>, more: seq<Incident>, recovered: Incident -> bool)
    ensures RecoveredFeeds(open + more, recovered) == RecoveredFeeds(open, recovered) + RecoveredFeeds(more, recovered)
  {
    if more == [] {
      assert open + more == open;
    } else {
      RecoveredInOrder(open, more[..|more| - 1], recovered);
      assert (open + more)[..|open + more| - 1] == open + more[..|more| - 1];
    }
  }

  lemma ResetOne(latency: map<string, LatencyState>, latency': map<string, LatencyState>, feeds: seq<string>,
                 feed: string)
    requires ResetOnly(latency, latency', feeds)
    ensures ResetOnly(latency, latency'[feed := InitialState()], feeds + [feed])
  {
    var more := feeds + [feed];
    assert forall i :: 0 <= i < |feeds| ==> more[i] == feeds[i];
    assert more[|feeds|] == feed;
  }

  lemma DetectorAfterReset(latency: map<string, LatencyState>, latency': map<string, LatencyState>, feeds: seq<string>,
                           feed: string)
    requires ResetOnly(latency, latency', feeds)
    ensures LoadOrInitial(latency', feed) == if feed in feeds then InitialState() else LoadOrInitial(latency, feed)
  {
  }

  lemma ExaminedAll(rows: seq<Incident>, rows': seq<Incident>, recovered: Incident -> bool, now: int)
    requires Examined(rows, rows', OpenIncidents(rows), recovered, now)
    ensures forall k :: 0 <= k < |rows| ==>
              rows'[k] == if rows[k].closed.None? && recovered(rows[k]) then CloseRecovered(rows[k], now) else rows[k]
  {
    OpenIncidentsExact(rows);
    forall k | 0 <= k < |rows| ensures rows[k] in OpenIncidents(rows) <==> rows[k].closed.None? {
      assert rows[k] in rows;
    }
  }

  /** Of the registry's rows exactly the open ones that have recovered are closed, at the time of the check. */
  lemma RecoveredRows(rows: seq<Incident>, rows': seq<Incident>, recovered: Incident -> bool, now: int, k: nat)
    requires Examined(rows, rows', OpenIncidents(rows), recovered, now) && k < |rows|
    ensures var r := rows[k];
            rows'[k] ==
            if r.closed.Some? || !recovered(r) then r
            else Incident(r.id, r.feed, r.openedAt, r.desks, r.detectedBy, Some(now),
                          Some("auto:scheduler_recovery:" + r.feed))
  {
    ExaminedAll(rows, rows', recovered, now);
  }

  lemma FeedIsClosedIff(rows: seq<Incident>, recovered: Incident -> bool, feed: string)
    requires OneOpenPerFeed(rows)
    ensures feed in RecoveredFeeds(OpenIncidents(rows), recovered) <==>
            OpenIncident(rows, feed).Some? && recovered(OpenIncident(rows, feed).value)
  {
    OpenIncidentsExact(rows);
    OpenIncidentSpec(rows, feed);
    RecoveredFeedsExact(OpenIncidents(rows), recovered);
  }

  /**
   * What a recovery check leaves behind: a closed feed has no open incident and a zeroed detector;
   * every other feed keeps its open incident and its detector; closed incidents never change.
   */
  lemma RecoveryOutcome(rows: seq<Incident>, rows': seq<Incident>, latency: map<string, LatencyState>,
                        latency': map<string, LatencyState>, recovered: Incident -> bool, now: int, feed: string)
    requires OneOpenPerFeed(rows)
    requires Examined(rows, rows', OpenIncidents(rows), recovered, now)
    requires ResetOnly(latency, latency', RecoveredFeeds(OpenIncidents(rows), recovered))
    ensures var open, closed := OpenIncident(rows, feed), RecoveredFeeds(OpenIncidents(rows), recovered);
            if open.Some? && recovered(open.value)
            then
              && feed in closed && OpenIncident(rows', feed).None?
              && LoadOrInitial(latency', feed) == InitialState()
            else
              && feed !in closed && OpenIncident(rows', feed) == open
              && LoadOrInitial(latency', feed) == LoadOrInitial(latency, feed)
    ensures forall k :: 0 <= k < |rows| && rows[k].closed.Some? ==> rows'[k] == rows[k]
  {
    var open := OpenIncident(rows, feed);
    FeedIsClosedIff(rows, recovered, feed);
    DetectorAfterReset(latency, latency', RecoveredFeeds(OpenIncidents(rows), recovered), feed);
    ExaminedAll(rows, rows', recovered, now);
    OpenIncidentSpec(rows, feed);
    if open.Some? && recovered(open.value) {
      LosesOpen(rows, rows', recovered, now, feed);
    } else {
      KeepsOpen(rows, rows', recovered, now, feed);
    }
  }

  lemma LosesOpen(rows: seq<Incident>, rows': seq<Incident>, recovered: Incident -> bool, now: int, feed: string)
    requires |rows'| == |rows|
    requires forall k :: 0 <= k < |rows| ==>
               rows'[k] == if rows[k].closed.None? && recovered(rows[k]) then CloseRecovered(rows[k], now) else rows[k]
    requires forall r :: r in rows && r.feed == feed && r.closed.None? ==> recovered(r)
    ensures OpenIncident(rows', feed).None?
  {
    OpenIncidentSpec(rows', feed);
    forall r' | r' in rows' && r'.feed == feed ensures r'.closed.Some? {
      var k :| 0 <= k < |rows'| && rows'[k] == r';
      assert rows[k] in rows;
    }
  }

  lemma {:induction false} KeepsOpen(rows: seq<Incident>, rows': seq<Incident>, recovered: Incident -> bool, now: int,
                                     feed: string)
    requires |rows'| == |rows|
    requires forall k :: 0 <= k < |rows| ==>
               rows'[k] == if rows[k].closed.None? && recovered(rows[k]) then CloseRecovered(rows[k], now) else rows[k]
    requires forall r :: r in rows && r.feed == feed && r.closed.None? ==> !recovered(r)
    ensures OpenIncident(rows', feed) == OpenIncident(rows, feed)
  {
    if rows != [] {
      assert rows'[0].feed == rows[0].feed;
      KeepsOpen(rows[1..], rows'[1..], recovered, now, feed);
    }
  }

  class Scheduler {
    const events: seq<Event>
    const sources: map<string, DataSource>
    var last: Option<int>
    var fired: set<(string, int)>

    ghost predicate Valid()
      reads this
    {
      Crons(events)
    }

    ghost function Now(): Clock
      reads this
    {
      Clock(last, fired)
    }

    constructor (events: seq<Event>, sources: map<string, DataSource>)
      requires Crons(events)
      ensures Valid() && this.events == events && this.sources == sources && Now() == Clock(None, {})
    {
      this.events, this.sources, last, fired := events, sources, None, {};
    }

    /** firings_between: every cron is iterated from start until it passes end, then all are sorted. */
    method FiringsBetween(start: int, end: int) returns (fs: seq<Firing>)
      requires Valid()
      ensures fs == Between(events, start, end)
    {
      var results: seq<Firing> := [];
      for i := 0 to |events|
        invariant results == Collected(events[..i], start, end)
      {
        var ev := events[i];
        ghost var before := results;
        var at := start;
        while true
          invariant at >= start
          invariant results + EventFirings(ev, at, end) == before + EventFirings(ev, start, end)
          decreases end - at
        {
          var ts := ev.next(at);
          if ts > end { break; }
          results := results + [Firing(ev, ts)];
          at := ts;
        }
        assert events[..i + 1][..i] == events[..i];
      }
      assert events[..|events|] == events;
      fs := SortBy(Timestamp, results);
    }

    /** advance_to. */
    method AdvanceTo(ts: int) returns (out: seq<Firing>)
      requires Valid()
      modifies this
      ensures Valid()
      ensures (Now(), out) == Advance(events, old(Now()), ts)
    {
      var start := if last.Some? then last.value else ts - YEAR;
      if ts <= start { return []; }
      var due := FiringsBetween(start, ts);
      out := [];
      ghost var known := fired;
      for i := 0 to |due|
        invariant last == old(last)
        invariant fired == known + Keys(due[..i]) && out == Firings.Fresh(known, due[..i])
      {
        FreshStep(known, due, i);
        if due[i].Key() !in fired {
          fired := fired + {due[i].Key()};
          out := out + [due[i]];
        }
      }
      assert due[..|due|] == due;
      last := Some(ts);
    }

    /** check_latency_drift. */
    method CheckLatencyDrift(db: Database, now: int, prints: Prints) returns (emitted: seq<Failure>)
      requires Valid() && db.Schema()
      modifies db`latency
      ensures db.Schema() && (old(db.Valid()) ==> db.Valid())
      ensures var fs := Between(events, now - LOOKBACK, now);
              && emitted == Emitted(sources, prints, now, old(db.latency), db.incidents, fs)
              && Detectors(db.latency, sources, prints, now, old(db.latency), fs)
    {
      emitted := [];
      var fs := FiringsBetween(now - LOOKBACK, now);
      ghost var latency, incidents := db.latency, db.incidents;
      for i := 0 to |fs|
        invariant db.Schema() && (old(db.Valid()) ==> db.Valid())
        invariant db.incidents == incidents
        invariant emitted == Emitted(sources, prints, now, latency, incidents, fs[..i])
        invariant Detectors(db.latency, sources, prints, now, latency, fs[..i])
      {
        var f := fs[i];
        ObservedOne(db.latency, sources, prints, now, latency, incidents, fs, i);
        var r := ObserveLatency(db, f.event.id, ObservationOf(sources, prints, now, f), DELTA, THRESHOLD);
        if r.value.1 {
          if OpenIncident(db.incidents, f.event.id).None? {
            emitted := emitted + [FailureAt(sources, now, f)];
          }
        }
      }
      assert fs[..|fs|] == fs;
    }

    /** The incident's feed has met a release due after the incident was opened. */
    method HasRecovered(r: Incident, now: int, prints: Prints) returns (recovered: bool)
      requires Valid()
      ensures recovered <==> Recovered(events, sources, prints, now, r)
    {
      var fs := FiringsBetween(r.openedAt, now);
      var tolerance, feedPrints := Tolerance(sources, r.feed), PrintsOf(prints, r.feed);
      recovered := false;
      for i := 0 to |fs|
        invariant !recovered
        invariant forall j :: 0 <= j < i ==> !Met(feedPrints, tolerance, r.feed, fs[j])
      {
        if fs[i].event.id == r.feed && OnTime(feedPrints, fs[i].ts, tolerance) {
          assert Met(feedPrints, tolerance, r.feed, fs[i]);
          recovered := true;
          break;
        }
      }
      RecoveredIffMet(events, sources, prints, now, r);
    }

    /** One open incident of check_incident_recoveries. */
    method CloseIfRecovered(db: Database, r: Incident, now: int, prints: Prints) returns (back: bool)
      requires Valid() && db.Schema()
      modifies db`incidents, db`latency
      ensures db.Schema() && (old(db.Valid()) ==> db.Valid())
      ensures back <==> Recovered(events, sources, prints, now, r)
      ensures |db.incidents| == |old(db.incidents)|
      ensures forall k :: 0 <= k < |db.incidents| ==>
                db.incidents[k] == if back then CloseRow(old(db.incidents)[k], r.id, now, Resolution(r.feed))
                                   else old(db.incidents)[k]
      ensures db.latency == if back then old(db.latency)[r.feed := InitialState()] else old(db.latency)
    {
      back := HasRecovered(r, now, prints);
      if back {
        db.CloseFeedIncident(r.id, now, Resolution(r.feed));
        ResetForFeed(db, r.feed);
      }
    }

    /** check_incident_recoveries. */
    method CheckIncidentRecoveries(db: Database, now: int, prints: Prints) returns (closed: seq<string>)
      requires Valid() && db.Schema()
      modifies db`incidents, db`latency
      ensures db.Schema() && (old(db.Valid()) ==> db.Valid())
      ensures var recovered := RecoveredBy(events, sources, prints, now);
              var open := OpenIncidents(old(db.incidents));
              && closed == RecoveredFeeds(open, recovered)
              && Examined(old(db.incidents), db.incidents, open, recovered, now)
              && ResetOnly(old(db.latency), db.latency, closed)
    {
      closed := [];
      ghost var rows, latency := db.incidents, db.latency;
      ghost var recovered := RecoveredBy(events, sources, prints, now);
      var open := OpenIncidents(db.incidents);
      OpenIncidentsExact(db.incidents);
      for i := 0 to |open|
        invariant db.Schema() && (old(db.Valid()) ==> db.Valid())
        invariant closed == RecoveredFeeds(open[..i], recovered)
        invariant Examined(rows, db.incidents, open[..i], recovered, now)
        invariant ResetOnly(latency, db.latency, closed)
      {
        var r := open[i];
        assert open[..i + 1][..i] == open[..i];
        ghost var before, latency' := db.incidents, db.latency;
        var back := CloseIfRecovered(db, r, now, prints);
        ExamineOne(rows, before, db.incidents, open, i, recovered, now);
        if back {
          ResetOne(latency, latency', closed, r.feed);
          closed := closed + [r.feed];
        }
      }
      assert open[..|open|] == open;
    }
  }
}
