/**
 The tables the components share, as fields of a database object, and the statements that write them, with
 the primary keys and checks they rely on (persistence/db.py).
 */
module Persistence {
  import opened Contracts
  import opened WeightTable

  /** The newest parameters of the regime, ties broken by params_id. */
  function LatestParams(rows: seq<ParamsRow>, regime: string): Option<ParamsRow>
  {
    if rows == [] then None
    else
      var earlier, p := LatestParams(rows[..|rows| - 1], regime), rows[|rows| - 1];
      if p.regime == regime
         && (earlier.None? || p.ts > earlier.value.ts || (p.ts == earlier.value.ts && p.id > earlier.value.id))
      then Some(p) else earlier
  }

  lemma {:induction false} LatestParamsIsNewest(rows: seq<ParamsRow>, regime: string)
    ensures LatestParams(rows, regime).None? <==> forall p :: p in rows ==> p.regime != regime
    ensures LatestParams(rows, regime).Some? ==>
              var w := LatestParams(rows, regime).value;
              w in rows && w.regime == regime
              && forall p :: p in rows && p.regime == regime ==> p.ts < w.ts || (p.ts == w.ts && p.id <= w.id)
  {
    if rows != [] {
      LatestParamsIsNewest(rows[..|rows| - 1], regime);
      assert rows == rows[..|rows| - 1] + [rows[|rows| - 1]];
    }
  }

  ghost predicate IncidentIdsUnique(rows: seq<Incident>) {
    forall i, j :: 0 <= i < j < |rows| ==> rows[i].id != rows[j].id
  }

  ghost predicate OneOpenPerFeed(rows: seq<Incident>) {
    forall i, j :: 0 <= i < j < |rows| && rows[i].feed == rows[j].feed ==> rows[i].closed.Some? || rows[j].closed.Some?
  }

  /** The open incident of the feed, if any. */
  function OpenIncident(rows: seq<Incident>, feed: string): Option<Incident>
  {
    if rows == [] then None
    else if rows[0].feed == feed && rows[0].closed.None? then Some(rows[0])
    else OpenIncident(rows[1..], feed)
  }

  lemma {:induction false} OpenIncidentSpec(rows: seq<Incident>, feed: string)
    ensures OpenIncident(rows, feed).Some? ==>
              var w := OpenIncident(rows, feed).value;
              w in rows && w.feed == feed && w.closed.None?
    ensures OpenIncident(rows, feed).None? ==> forall r :: r in rows && r.feed == feed ==> r.closed.Some?
    ensures OneOpenPerFeed(rows) ==>
              forall r :: r in rows && r.feed == feed && r.closed.None? ==> OpenIncident(rows, feed) == Some(r)
  {
    if rows != [] {
      OpenIncidentSpec(rows[1..], feed);
    }
  }

  /** UPDATE ... WHERE feed_incident_id = ? AND closed_ts_utc IS NULL. */
  function CloseRow(r: Incident, id: int, ts: int, resolution: string): Incident {
    if r.id == id && r.closed.None? then r.(closed := Some(ts), resolution := Some(resolution)) else r
  }

  /** Incidents (open or closed) of the feed opened in [start, end]. */
  function CountIncidents(rows: seq<Incident>, feed: string, start: int, end: int): nat
  {
    if rows == [] then 0
    else
      (if rows[0].feed == feed && start <= rows[0].openedAt <= end then 1 else 0)
      + CountIncidents(rows[1..], feed, start, end)
  }

  /** Where the feed's incidents opened in [start, end] are listed. */
  ghost function IncidentsOpened(rows: seq<Incident>, feed: string, start: int, end: int): set<int> {
    set k | 0 <= k < |rows| && rows[k].feed == feed && rows[k].openedAt >= start && rows[k].openedAt <= end
  }

  /** The count is the number of those rows: incidents opened outside the window contribute nothing. */
  lemma {:induction false} CountIsSize(rows: seq<Incident>, feed: string, start: int, end: int)
    ensures CountIncidents(rows, feed, start, end) == |IncidentsOpened(rows, feed, start, end)|
  {
    if rows != [] {
      CountIsSize(rows[1..], feed, start, end);
      OneMoreIncident(rows, feed, start, end);
    }
  }

  lemma OneMoreIncident(rows: seq<Incident>, feed: string, start: int, end: int)
    requires rows != []
    ensures |IncidentsOpened(rows, feed, start, end)| == |IncidentsOpened(rows[1..], feed, start, end)|
              + if rows[0].feed == feed && start <= rows[0].openedAt <= end then 1 else 0
  {
    var rest := IncidentsOpened(rows[1..], feed, start, end);
    var first: set<int> := if rows[0].feed == feed && start <= rows[0].openedAt <= end then {0} else {};
    ShiftSize(rest);
    assert IncidentsOpened(rows, feed, start, end) == first + Shift(rest) by {
      forall k ensures k in IncidentsOpened(rows, feed, start, end) <==> k in first + Shift(rest) {
        if 0 < k < |rows| { assert rows[1..][k - 1] == rows[k]; }
      }
    }
    assert first !! Shift(rest);
  }

  ghost function Shift(s: set<int>): set<int> {
    set k | k in s :: k + 1
  }

  lemma {:induction false} ShiftSize(s: set<int>)
    ensures |Shift(s)| == |s|
    ensures forall k :: k in Shift(s) <==> k - 1 in s
  {
    forall k | k - 1 in s ensures k in Shift(s) { assert k == (k - 1) + 1; }
    if x :| x in s {
      ShiftSize(s - {x});
      assert Shift(s) == Shift(s - {x}) + {x + 1};
    } else {
      assert Shift(s) == {};
    }
  }

  /** Adjacent windows add up. */
  lemma {:induction false} CountSplits(rows: seq<Incident>, feed: string, start: int, middle: int, end: int)
    requires start <= middle + 1 && middle <= end
    ensures CountIncidents(rows, feed, start, end)
         == CountIncidents(rows, feed, start, middle) + CountIncidents(rows, feed, middle + 1, end)
  {
    if rows != [] {
      CountSplits(rows[1..], feed, start, middle, end);
    }
  }

  /** A primary key not yet used: which one is up to the generator. */
  method FreshId(taken: set<int>) returns (id: int)
    ensures id !in taken
  {
    ghost var bound := UpperBound(taken);
    assert bound + 1 !in taken;
    id :| id !in taken;
  }

  lemma {:induction false} UpperBound(s: set<int>) returns (b: int)
    ensures forall x :: x in s ==> x <= b
  {
    if x :| x in s {
      var b' := UpperBound(s - {x});
      b := if x > b' then x else b';
      forall y | y in s ensures y <= b { if y != x { assert y in s - {x}; } }
    } else {
      b := 0;
    }
  }

  class Database {
    var weights: seq<WeightRow>
    var params: seq<ParamsRow>
    var incidents: seq<Incident>
    var latency: map<string, LatencyState>
    var shapley: seq<ShapleyRow>

    /** The primary keys, the CHECK on parameters, and one open incident per feed. */
    ghost predicate Schema()
      reads this
    {
      UniqueIds(weights) && ValidParams(params) && IncidentIdsUnique(incidents) && OneOpenPerFeed(incidents)
    }

    /** What the writers of weights maintain besides: the table itself accepts any weight. */
    ghost predicate Valid()
      reads this
    {
      Schema() && NonNegative(weights) && RetiredHadWeight(weights)
    }

    constructor ()
      ensures Valid() && weights == [] && params == [] && incidents == [] && latency == map[] && shapley == []
    {
      weights, params, incidents, latency, shapley := [], [], [], map[], [];
    }

    method InsertSignalWeight(w: WeightRow)
      requires Schema()
      requires forall r :: r in weights ==> r.id != w.id
      modifies this`weights
      ensures Schema() && weights == old(weights) + [w]
      ensures old(Valid()) && w.weight >= 0.0 && (w.artefact.RetireFeed? ==> HadWeight(old(weights), w.slot)) ==>
                Valid()
    {
      ghost var before := weights;
      weights := weights + [w];
      if RetiredHadWeight(before) && (w.artefact.RetireFeed? ==> HadWeight(before, w.slot)) {
        forall r | r in weights && r.artefact.RetireFeed? ensures HadWeight(weights, r.slot) {
          var q :| q in before && q.slot == r.slot && q.weight > 0.0;
          assert q in weights;
        }
      }
    }

    /** Builds a row under a fresh weight_id and stores it. */
    method WriteWeight(slot: Triple, weight: real, ts: int, artefact: Artefact) returns (w: WeightRow)
      requires Schema()
      modifies this`weights
      ensures Schema() && weights == old(weights) + [w]
      ensures old(Valid()) && weight >= 0.0 && (artefact.RetireFeed? ==> HadWeight(old(weights), slot)) ==> Valid()
      ensures w == WeightRow(w.id, slot, weight, ts, artefact)
    {
      var id := FreshId(set r | r in weights :: r.id);
      w := WeightRow(id, slot, weight, ts, artefact);
      InsertSignalWeight(w);
    }

    method WriteParams(regime: string, k: real, limit: real, ts: int) returns (p: ParamsRow)
      requires Schema() && limit >= 0.0
      modifies this`params
      ensures Schema() && (old(Valid()) ==> Valid())
      ensures params == old(params) + [p]
      ensures p == ParamsRow(p.id, regime, k, limit, ts) && forall q :: q in old(params) ==> q.id != p.id
    {
      var id := FreshId(set q | q in params :: q.id);
      p := ParamsRow(id, regime, k, limit, ts);
      params := params + [p];
    }

    /** Opening a feed that is already open returns the open incident and writes nothing. */
    method OpenFeedIncident(feed: string, openedAt: int, desks: seq<string>, detectedBy: Detector) returns (id: int)
      requires Schema()
      modifies this`incidents
      ensures Schema() && (old(Valid()) ==> Valid())
      ensures match OpenIncident(old(incidents), feed)
              case Some(r) => id == r.id && incidents == old(incidents)
              case None => incidents == old(incidents) + [Incident(id, feed, openedAt, desks, detectedBy, None, None)]
      ensures OpenIncident(incidents, feed).Some? && OpenIncident(incidents, feed).value.id == id
    {
      OpenIncidentSpec(incidents, feed);
      match OpenIncident(incidents, feed)
      case Some(r) =>
        id := r.id;
      case None =>
        id := FreshId(set r | r in incidents :: r.id);
        incidents := incidents + [Incident(id, feed, openedAt, desks, detectedBy, None, None)];
        OpenIncidentSpec(incidents, feed);
        assert incidents[|incidents| - 1] in incidents;
    }

    method CloseFeedIncident(id: int, ts: int, resolution: string)
      requires Schema()
      modifies this`incidents
      ensures Schema() && (old(Valid()) ==> Valid())
      ensures |incidents| == |old(incidents)|
      ensures forall k :: 0 <= k < |incidents| ==> incidents[k] == CloseRow(old(incidents)[k], id, ts, resolution)
      ensures forall k :: 0 <= k < |incidents| ==>
                var r := old(incidents)[k];
                if r.id == id && r.closed.None?
                then incidents[k]
                       == Incident(id, r.feed, r.openedAt, r.desks, r.detectedBy, Some(ts), Some(resolution))
                else incidents[k] == r
    {
      var before := incidents;
      incidents := seq(|before|, k requires 0 <= k < |before| => CloseRow(before[k], id, ts, resolution));
    }

    method UpsertLatency(feed: string, s: LatencyState)
      requires Schema()
      modifies this`latency
      ensures Schema() && (old(Valid()) ==> Valid())
      ensures latency == old(latency)[feed := s]
    {
      latency := latency[feed := s];
    }
  }
}
