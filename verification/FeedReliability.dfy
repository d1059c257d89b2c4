/**
 Which feeds, targets and desks a reliability review concerns: the queries on feed_incidents, signal_weights
 and attribution_shapley (research_loop/feed_reliability.py).
 */
module FeedReliability {
  import opened Contracts
  import opened Combinatorics
  import opened Sums
  import opened Dicts
  import opened Ordering
  import opened WeightTable
  import opened Persistence
  import opened Remediation

  // ----- feeds

  ghost predicate HasOpen(incidents: seq<Incident>, feed: string) {
    exists r :: r in incidents && r.feed == feed && r.closed.None?
  }

  /** The criteria on the registry's rows: how many of the feed's were opened in the window, and whether one is open. */
  lemma CriteriaMeaning(incidents: seq<Incident>, feed: string, days: int, threshold: int, now: int)
    ensures MeetsRetirement(incidents, feed, days, threshold, now) <==>
            |IncidentsOpened(incidents, feed, now - days * 86400, now)| >= threshold && HasOpen(incidents, feed)
    ensures FeedHasRecovered(incidents, feed, days, now) <==>
            IncidentsOpened(incidents, feed, now - days * 86400, now) == {} && !HasOpen(incidents, feed)
  {
    CountIsSize(incidents, feed, now - days * DAY, now);
    OpenIncidentSpec(incidents, feed);
  }

  /** Enough failures in the window, and an incident open now. */
  predicate MeetsRetirement(incidents: seq<Incident>, feed: string, lookbackDays: int, threshold: int, now: int) {
    CountIncidents(incidents, feed, now - lookbackDays * DAY, now) >= threshold && OpenIncident(incidents, feed).Some?
  }

  /** Nothing open and nothing opened in the recovery window. */
  predicate FeedHasRecovered(incidents: seq<Incident>, feed: string, recoveryDays: int, now: int) {
    OpenIncident(incidents, feed).None? && CountIncidents(incidents, feed, now - recoveryDays * DAY, now) == 0
  }

  /** The feeds to act on, in the order given. */
  function RetirementCandidates(incidents: seq<Incident>, feeds: seq<string>, lookbackDays: int, threshold: int,
                                now: int): seq<string>
  {
    if feeds == [] then []
    else
      var feed := feeds[|feeds| - 1];
      RetirementCandidates(incidents, feeds[..|feeds| - 1], lookbackDays, threshold, now)
      + if MeetsRetirement(incidents, feed, lookbackDays, threshold, now) then [feed] else []
  }

  function EligibleFeeds(incidents: seq<Incident>, feeds: seq<string>, recoveryDays: int, now: int): seq<string>
  {
    if feeds == [] then []
    else
      var feed := feeds[|feeds| - 1];
      EligibleFeeds(incidents, feeds[..|feeds| - 1], recoveryDays, now)
      + if FeedHasRecovered(incidents, feed, recoveryDays, now) then [feed] else []
  }

  /** Both selections keep the order of the feeds. */
  lemma {:induction false} SelectedInOrder(incidents: seq<Incident>, feeds: seq<string>, more: seq<string>,
                                           days: int, threshold: int, now: int)
    ensures RetirementCandidates(incidents, feeds + more, days, threshold, now)
         == RetirementCandidates(incidents, feeds, days, threshold, now)
            + RetirementCandidates(incidents, more, days, threshold, now)
    ensures EligibleFeeds(incidents, feeds + more, days, now)
         == EligibleFeeds(incidents, feeds, days, now) + EligibleFeeds(incidents, more, days, now)
  {
    if more == [] {
      assert feeds + more == feeds;
    } else {
      SelectedInOrder(incidents, feeds, more[..|more| - 1], days, threshold, now);
      assert (feeds + more)[..|feeds + more| - 1] == feeds + more[..|more| - 1];
    }
  }

  method FeedsMeetingRetirementCriteria(db: Database, feeds: seq<string>, lookbackDays: int, threshold: int, now: int)
    returns (out: seq<string>)
    ensures out == RetirementCandidates(db.incidents, feeds, lookbackDays, threshold, now)
    ensures forall f :: f in out <==> f in feeds && MeetsRetirement(db.incidents, f, lookbackDays, threshold, now)
    ensures forall f :: f in out <==>
              && f in feeds && HasOpen(db.incidents, f)
              && |IncidentsOpened(db.incidents, f, now - lookbackDays * 86400, now)| >= threshold
  {
    out := [];
    for i := 0 to |feeds|
      invariant out == RetirementCandidates(db.incidents, feeds[..i], lookbackDays, threshold, now)
      invariant forall f :: f in out <==>
                  f in feeds[..i] && MeetsRetirement(db.incidents, f, lookbackDays, threshold, now)
    {
      assert feeds[..i + 1] == feeds[..i] + [feeds[i]];
      if MeetsRetirement(db.incidents, feeds[i], lookbackDays, threshold, now) {
        out := out + [feeds[i]];
      }
    }
    assert feeds[..|feeds|] == feeds;
    forall f { CriteriaMeaning(db.incidents, f, lookbackDays, threshold, now); }
  }

  method FeedsEligibleForReinstatement(db: Database, feeds: seq<string>, recoveryDays: int,
                                       now: int) returns (out: seq<string>)
    ensures out == EligibleFeeds(db.incidents, feeds, recoveryDays, now)
    ensures forall f :: f in out <==> f in feeds && FeedHasRecovered(db.incidents, f, recoveryDays, now)
    ensures forall f :: f in out <==>
              && f in feeds && !HasOpen(db.incidents, f)
              && IncidentsOpened(db.incidents, f, now - recoveryDays * 86400, now) == {}
  {
    out := [];
    for i := 0 to |feeds|
      invariant out == EligibleFeeds(db.incidents, feeds[..i], recoveryDays, now)
      invariant forall f :: f in out <==> f in feeds[..i] && FeedHasRecovered(db.incidents, f, recoveryDays, now)
    {
      assert feeds[..i + 1] == feeds[..i] + [feeds[i]];
      if OpenIncident(db.incidents, feeds[i]).Some? { continue; }
      if CountIncidents(db.incidents, feeds[i], now - recoveryDays * DAY, now) == 0 {
        out := out + [feeds[i]];
      }
    }
    assert feeds[..|feeds|] == feeds;
    forall f { CriteriaMeaning(db.incidents, f, recoveryDays, 0, now); }
  }

  // ----- desks and targets

  function TargetsOf(rows: seq<WeightRow>, ts: seq<Triple>, desk: string): seq<string>
  {
    if ts == [] then []
    else (if ts[0].desk == desk && Live(rows, ts[0]) then [ts[0].target] else []) + TargetsOf(rows, ts[1..], desk)
  }

  /** active_target_variables_for_desk. */
  function ActiveTargets(rows: seq<WeightRow>, desk: string): seq<string> {
    SortDistinct(StringLess, TargetsOf(rows, AllSlots(rows), desk))
  }

  lemma {:induction false} TargetsOfMember(rows: seq<WeightRow>, ts: seq<Triple>, desk: string, target: string)
    ensures target in TargetsOf(rows, ts, desk) <==>
              exists t :: t in ts && t.desk == desk && t.target == target && Live(rows, t)
  {
    if ts != [] {
      TargetsOfMember(rows, ts[1..], desk, target);
      assert forall t :: t in ts <==> t == ts[0] || t in ts[1..];
    }
  }

  /** The targets listed are exactly those the desk is live on in some regime. */
  lemma ActiveTargetsSpec(rows: seq<WeightRow>, desk: string, target: string)
    ensures target in ActiveTargets(rows, desk) <==>
              exists t: Triple :: t.desk == desk && t.target == target && Live(rows, t)
  {
    StringOrder();
    SortDistinctSpec(StringLess, TargetsOf(rows, AllSlots(rows), desk));
    TargetsOfMember(rows, AllSlots(rows), desk, target);
    AllSlotsSpec(rows);
  }

  /** The distinct slots zeroed by a feed retirement in [start, end]. */
  function RecentlyRetired(rows: seq<WeightRow>, start: int, end: int): set<Triple> {
    set r | r in rows && r.artefact.RetireFeed? && r.weight == 0.0 && start <= r.ts <= end :: r.slot
  }

  function CountRecentRetirements(rows: seq<WeightRow>, start: int, end: int): nat {
    |RecentlyRetired(rows, start, end)|
  }

  /** The slot reads zero because of this feed. */
  predicate Awaiting(rows: seq<WeightRow>, t: Triple, feed: string) {
    var latest := LatestOf(rows, t);
    latest.Some? && latest.value.weight == 0.0 && latest.value.artefact == RetireFeed(feed)
  }

  /** A slot waits for a feed when its newest row is the zero row that the feed's retirement wrote. */
  lemma AwaitingMeaning(rows: seq<WeightRow>, t: Triple, feed: string)
    requires UniqueIds(rows)
    ensures Awaiting(rows, t, feed) <==>
            exists w :: w in rows && w.slot == t && w.weight == 0.0 && w.artefact == RetireFeed(feed)
                        && forall r :: r in rows && r.slot == t ==> r.ts < w.ts || (r.ts == w.ts && r.id <= w.id)
  {
    if Awaiting(rows, t, feed) { NewestIsRead(rows, t, LatestOf(rows, t).value); }
    if w :| w in rows && w.slot == t && w.weight == 0.0 && w.artefact == RetireFeed(feed)
            && forall r :: r in rows && r.slot == t ==> r.ts < w.ts || (r.ts == w.ts && r.id <= w.id) {
      NewestIsRead(rows, t, w);
    }
  }

  function AwaitingSlots(rows: seq<WeightRow>, ts: seq<Triple>, feed: string): seq<Triple>
  {
    if ts == [] then []
    else (if Awaiting(rows, ts[0], feed) then [ts[0]] else []) + AwaitingSlots(rows, ts[1..], feed)
  }

  /** retired_desks_for_feed. */
  function RetiredSlots(rows: seq<WeightRow>, feed: string): seq<Triple> {
    AwaitingSlots(rows, AllSlots(rows), feed)
  }

  lemma {:induction false} AwaitingSlotsMember(rows: seq<WeightRow>, ts: seq<Triple>, feed: string, t: Triple)
    ensures t in AwaitingSlots(rows, ts, feed) <==> t in ts && Awaiting(rows, t, feed)
    ensures Distinct(ts) ==> Distinct(AwaitingSlots(rows, ts, feed))
  {
    if ts != [] {
      var rest := AwaitingSlots(rows, ts[1..], feed);
      AwaitingSlotsMember(rows, ts[1..], feed, t);
      AwaitingSlotsMember(rows, ts[1..], feed, ts[0]);
      DistinctTail(ts);
      DistinctTail([ts[0]] + rest);
      assert ([ts[0]] + rest)[1..] == rest;
      assert t in ts <==> t == ts[0] || t in ts[1..];
    }
  }

  lemma RetiredSlotsSpec(rows: seq<WeightRow>, feed: string)
    ensures Distinct(RetiredSlots(rows, feed))
    ensures forall t :: t in RetiredSlots(rows, feed) <==> Awaiting(rows, t, feed)
  {
    AllSlotsSpec(rows);
    AwaitingSlotsMember(rows, AllSlots(rows), feed, Triple("", "", ""));
    forall t ensures t in RetiredSlots(rows, feed) <==> Awaiting(rows, t, feed) {
      AwaitingSlotsMember(rows, AllSlots(rows), feed, t);
    }
  }

  lemma {:induction false} AwaitingAscending(rows: seq<WeightRow>, ts: seq<Triple>, feed: string)
    requires Ascending(TripleLess, ts)
    ensures Ascending(TripleLess, AwaitingSlots(rows, ts, feed))
  {
    if ts != [] {
      var rest := AwaitingSlots(rows, ts[1..], feed);
      AwaitingAscending(rows, ts[1..], feed);
      forall j | 0 <= j < |rest| ensures TripleLess(ts[0], rest[j]) {
        AwaitingSlotsMember(rows, ts[1..], feed, rest[j]);
      }
    }
  }

  /** The slots are listed by regime, desk and target, the targets of a desk by name. */
  lemma ListedInOrder(rows: seq<WeightRow>, feed: string, desk: string)
    ensures Ascending(TripleLess, RetiredSlots(rows, feed))
    ensures Ascending(StringLess, ActiveTargets(rows, desk))
  {
    AllSlotsSpec(rows);
    AwaitingAscending(rows, AllSlots(rows), feed);
    StringOrder();
    SortDistinctSpec(StringLess, TargetsOf(rows, AllSlots(rows), desk));
  }

  // ----- reinstatement weights

  function PositiveRows(rows: seq<WeightRow>, now: int): seq<WeightRow>
  {
    if rows == [] then []
    else PositiveRows(rows[..|rows| - 1], now)
         + var r := rows[|rows| - 1]; if r.weight > 0.0 && r.ts <= now then [r] else []
  }

  /** latest_nonzero_weight_for_desk. */
  function LatestNonzeroWeight(rows: seq<WeightRow>, t: Triple, now: int): Option<real> {
    match LatestOf(PositiveRows(rows, now), t) case Some(r) => Some(r.weight) case None => None
  }

  lemma {:induction false} PositiveRowsMember(rows: seq<WeightRow>, now: int, r: WeightRow)
    ensures r in PositiveRows(rows, now) <==> r in rows && r.weight > 0.0 && r.ts <= now
  {
    if rows != [] {
      PositiveRowsMember(rows[..|rows| - 1], now, r);
      assert rows == rows[..|rows| - 1] + [rows[|rows| - 1]];
    }
  }

  ghost predicate PositiveBy(r: WeightRow, t: Triple, now: int) {
    r.slot == t && r.weight > 0.0 && r.ts <= now
  }

  /** The weight found is that of the slot's positive row newest by (timestamp, id), up to now. */
  lemma LatestNonzeroSpec(rows: seq<WeightRow>, t: Triple, now: int)
    ensures LatestNonzeroWeight(rows, t, now).Some? <==> exists r :: r in rows && PositiveBy(r, t, now)
    ensures LatestNonzeroWeight(rows, t, now).Some? ==>
              exists w :: w in rows && PositiveBy(w, t, now) && LatestNonzeroWeight(rows, t, now) == Some(w.weight)
                          && forall r :: r in rows && PositiveBy(r, t, now) ==>
                               r.ts < w.ts || (r.ts == w.ts && r.id <= w.id)
  {
    LatestIsNewest(PositiveRows(rows, now), t);
    forall r ensures r in PositiveRows(rows, now) <==> r in rows && r.weight > 0.0 && r.ts <= now {
      PositiveRowsMember(rows, now, r);
    }
  }

  lemma {:induction false} PositiveRowsAppend(rows: seq<WeightRow>, more: seq<WeightRow>, now: int)
    ensures PositiveRows(rows + more, now) == PositiveRows(rows, now) + PositiveRows(more, now)
  {
    if more == [] {
      assert rows + more == rows;
    } else {
      PositiveRowsAppend(rows, more[..|more| - 1], now);
      assert (rows + more)[..|rows + more| - 1] == rows + more[..|more| - 1];
    }
  }

  lemma {:induction false} LatestIgnoresOthers(rows: seq<WeightRow>, more: seq<WeightRow>, t: Triple)
    requires forall w :: w in more ==> w.slot != t
    ensures LatestOf(rows + more, t) == LatestOf(rows, t)
  {
    if more == [] {
      assert rows + more == rows;
    } else {
      LatestIgnoresOthers(rows, more[..|more| - 1], t);
      assert (rows + more)[..|rows + more| - 1] == rows + more[..|more| - 1];
    }
  }

  /** Rows of other slots, and zero rows, do not change a slot's last positive weight. */
  lemma LatestNonzeroUnchanged(rows: seq<WeightRow>, more: seq<WeightRow>, t: Triple, now: int)
    requires forall w :: w in more ==> w.slot != t || w.weight == 0.0
    ensures LatestNonzeroWeight(rows + more, t, now) == LatestNonzeroWeight(rows, t, now)
  {
    PositiveRowsAppend(rows, more, now);
    forall w | w in PositiveRows(more, now) ensures w.slot != t {
      PositiveRowsMember(more, now, w);
    }
    LatestIgnoresOthers(PositiveRows(rows, now), PositiveRows(more, now), t);
  }

  type Group = seq<(string, real)>

  function Magnitude(): ((string, real)) -> real {
    (e: (string, real)) => Abs(e.1)
  }

  /** The rows of the window grouped by review, in table order. */
  function Groups(rows: seq<ShapleyRow>, start: int, end: int): Dict<int, Group>
  {
    if rows == [] then []
    else
      var earlier, r := Groups(rows[..|rows| - 1], start, end), rows[|rows| - 1];
      if start <= r.review <= end then Put(earlier, r.review, GroupOf(earlier, r.review) + [(r.desk, r.value)])
          else earlier
  }

  function GroupOf(groups: Dict<int, Group>, review: int): Group {
    match Get(groups, review) case Some(g) => g case None => []
  }

  /** The rows of one review, in table order. */
  function ReviewRows(rows: seq<ShapleyRow>, review: int): Group
  {
    if rows == [] then []
    else
      var r := rows[|rows| - 1];
      ReviewRows(rows[..|rows| - 1], review) + if r.review == review then [(r.desk, r.value)] else []
  }

  /** Each review of the window is grouped with all its rows, no other review is. */
  lemma {:induction false} GroupsExact(rows: seq<ShapleyRow>, start: int, end: int, review: int)
    ensures GroupOf(Groups(rows, start, end), review) == if start <= review <= end then ReviewRows(rows, review) else []
  {
    if rows != [] {
      var earlier, r := Groups(rows[..|rows| - 1], start, end), rows[|rows| - 1];
      GroupsExact(rows[..|rows| - 1], start, end, review);
      GetPut(earlier, r.review, GroupOf(earlier, r.review) + [(r.desk, r.value)], review);
    }
  }

  /** The desk's part of a review's total magnitude; none when the review is silent on it or all zero. */
  function ShareIn(g: Group, desk: string): Option<real> {
    var total := Sum(g, Magnitude());
    if total <= 0.0 then None
    else match Get(g, desk) case Some(v) => Some(Abs(v) / total) case None => None
  }

  function Shares(groups: Dict<int, Group>, desk: string): seq<real>
  {
    if groups == [] then []
    else Shares(groups[..|groups| - 1], desk)
         + match ShareIn(groups[|groups| - 1].1, desk) case Some(x) => [x] case None => []
  }

  function MeanShare(groups: Dict<int, Group>, desk: string): Option<real> {
    var shares := Shares(groups, desk);
    if shares == [] then None else Some(Average(Sum(shares, x => x), |shares|))
  }

  /** A share times the review's total is the desk's magnitude: every desk of a review that is not all zero has one. */
  lemma ShareIsPart(g: Group, k: nat)
    requires Unique(g) && k < |g| && Sum(g, Magnitude()) > 0.0
    ensures ShareIn(g, g[k].0).Some? && ShareIn(g, g[k].0).value * Sum(g, Magnitude()) == Abs(g[k].1)
  {
    GetUnique(g, k);
    QuotientTimes(Abs(g[k].1), Sum(g, Magnitude()));
  }

  lemma QuotientTimes(x: real, t: real)
    requires t > 0.0
    ensures x / t * t == x
  {
  }

  function ShareOf(g: Group): ((string, real)) -> real {
    (e: (string, real)) => match ShareIn(g, e.0) case Some(x) => x case None => 0.0
  }

  lemma ShareQuotient(g: Group, e: (string, real))
    requires Unique(g) && Sum(g, Magnitude()) > 0.0 && e in g
    ensures ShareOf(g)(e) == Magnitude()(e) / Sum(g, Magnitude())
  {
    var k :| 0 <= k < |g| && g[k] == e;
    GetUnique(g, k);
  }

  lemma {:induction false} SumOfQuotients<T>(xs: seq<T>, f: T -> real, t: real, h: T -> real)
    requires t > 0.0 && forall x :: x in xs ==> h(x) == f(x) / t
    ensures Sum(xs, h) == Sum(xs, f) / t
  {
    if xs != [] {
      SumOfQuotients(xs[1..], f, t, h);
      SplitQuotient(f(xs[0]), Sum(xs[1..], f), t);
    }
  }

  /** The shares of a review's desks add up to one. */
  lemma SharesSumToOne(g: Group)
    requires Unique(g) && Sum(g, Magnitude()) > 0.0
    ensures Sum(g, ShareOf(g)) == 1.0
  {
    forall e | e in g ensures ShareOf(g)(e) == Magnitude()(e) / Sum(g, Magnitude()) {
      ShareQuotient(g, e);
    }
    SumOfQuotients(g, Magnitude(), Sum(g, Magnitude()), ShareOf(g));
    QuotientBounds(Sum(g, Magnitude()), Sum(g, Magnitude()), 1.0, 1.0);
  }

  lemma {:induction false} SharesInOrder(groups: Dict<int, Group>, more: Dict<int, Group>, desk: string)
    ensures Shares(groups + more, desk) == Shares(groups, desk) + Shares(more, desk)
  {
    if more == [] {
      assert groups + more == groups;
    } else {
      SharesInOrder(groups, more[..|more| - 1], desk);
      assert (groups + more)[..|groups + more| - 1] == groups + more[..|more| - 1];
    }
  }

  /** The mean share times the number of reviews with a share is the sum of the shares. */
  lemma MeanOfShares(groups: Dict<int, Group>, desk: string)
    ensures MeanShare(groups, desk).None? <==> forall i :: 0 <= i < |groups| ==> ShareIn(groups[i].1, desk).None?
    ensures MeanShare(groups, desk).Some? ==>
              MeanShare(groups, desk).value * |Shares(groups, desk)| as real == Sum(Shares(groups, desk), x => x)
  {
    NoShares(groups, desk);
    var shares := Shares(groups, desk);
    if shares != [] { QuotientTimes(Sum(shares, x => x), |shares| as real); }
  }

  lemma {:induction false} NoShares(groups: Dict<int, Group>, desk: string)
    ensures Shares(groups, desk) == [] <==> forall i :: 0 <= i < |groups| ==> ShareIn(groups[i].1, desk).None?
  {
    if groups != [] {
      NoShares(groups[..|groups| - 1], desk);
    }
  }

  /** historical_shapley_share. */
  method HistoricalShapleyShare(db: Database, desk: string, lookbackDays: int, now: int) returns (share: Option<real>)
    ensures share == MeanShare(Groups(db.shapley, now - lookbackDays * DAY, now), desk)
    ensures share.Some? ==> 0.0 <= share.value <= 1.0
  {
    var start := now - lookbackDays * DAY;
    var groups: Dict<int, Group> := [];
    for i := 0 to |db.shapley|
      invariant groups == Groups(db.shapley[..i], start, now)
    {
      var r := db.shapley[i];
      assert db.shapley[..i + 1][..i] == db.shapley[..i];
      if start <= r.review <= now {
        groups := Put(groups, r.review, GroupOf(groups, r.review) + [(r.desk, r.value)]);
      }
    }
    assert db.shapley[..|db.shapley|] == db.shapley;
    var shares: seq<real> := [];
    for i := 0 to |groups|
      invariant shares == Shares(groups[..i], desk)
    {
      assert groups[..i + 1][..i] == groups[..i];
      match ShareIn(groups[i].1, desk) {
        case Some(x) => shares := shares + [x];
        case None =>
      }
    }
    assert groups[..|groups|] == groups;
    MeanShareBounded(groups, desk);
    share := if shares == [] then None else Some(Average(Sum(shares, x => x), |shares|));
  }

  lemma {:induction false} MemberBelowTotal(g: Group, e: (string, real))
    requires e in g
    ensures 0.0 <= Abs(e.1) <= Sum(g, Magnitude())
  {
    if e == g[0] {
      NonNegativeTotal(g[1..]);
    } else {
      MemberBelowTotal(g[1..], e);
    }
  }

  lemma {:induction false} NonNegativeTotal(g: Group)
    ensures Sum(g, Magnitude()) >= 0.0
  {
    if g != [] { NonNegativeTotal(g[1..]); }
  }

  lemma {:induction false} SharesBounded(groups: Dict<int, Group>, desk: string)
    ensures forall x :: x in Shares(groups, desk) ==> 0.0 <= x <= 1.0
  {
    if groups != [] {
      SharesBounded(groups[..|groups| - 1], desk);
      var g := groups[|groups| - 1].1;
      if ShareIn(g, desk).Some? {
        GetMember(g, desk);
        MemberBelowTotal(g, (desk, Get(g, desk).value));
        QuotientBounds(Abs(Get(g, desk).value), Sum(g, Magnitude()), 0.0, 1.0);
      }
    }
  }

  /** A mean share always lies in [0, 1]. */
  lemma MeanShareBounded(groups: Dict<int, Group>, desk: string)
    ensures MeanShare(groups, desk).Some? ==> 0.0 <= MeanShare(groups, desk).value <= 1.0
  {
    var shares := Shares(groups, desk);
    if shares != [] {
      SharesBounded(groups, desk);
      SumBounds(shares, 0.0, 1.0, x => x);
      AverageBounds(Sum(shares, x => x), |shares|, 0.0, 1.0);
    }
  }
}
