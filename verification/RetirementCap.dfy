/** When a reliability review keeps its cap on retirements (research_loop/handlers.py:509-513). */
module RetirementCap {
  import opened Contracts
  import opened Combinatorics
  import opened WeightTable
  import opened Persistence
  import opened Remediation
  import opened FeedReliability
  import opened ReviewHandler

  // ----- the slots a review retires

  /** The live slots of the desks to retire. */
  ghost function DueSlots(incidents: seq<Incident>, feeds: seq<string>, settings: Settings, now: int,
                          stored: seq<WeightRow>): set<Triple> {
    set t | t in Slots(stored) && Live(stored, t) && MustRetire(incidents, feeds, settings, now, t.desk)
  }

  lemma LiveIsStored(stored: seq<WeightRow>, t: Triple)
    requires Live(stored, t)
    ensures t in Slots(stored)
  {
    LatestIsNewest(stored, t);
    SlotInSlots(stored, LatestOf(stored, t).value);
  }

  lemma RetiredAreDue(incidents: seq<Incident>, shapley: seq<ShapleyRow>, feeds: seq<string>, settings: Settings,
                      now: int, stored: seq<WeightRow>, retired: seq<WeightRow>, reinstated: seq<Reinstated>)
    requires ExactOutcome(incidents, shapley, feeds, settings, now, stored, retired, reinstated)
    ensures Elements(Slots(retired)) == DueSlots(incidents, feeds, settings, now, stored)
    ensures |retired| == |DueSlots(incidents, feeds, settings, now, stored)|
  {
    var due := DueSlots(incidents, feeds, settings, now, stored);
    forall t ensures t in Slots(retired) <==> t in due {
      if Live(stored, t) { LiveIsStored(stored, t); }
    }
    assert Elements(Slots(retired)) == due;
    var all := Slots(retired + Rows(reinstated));
    assert forall i :: 0 <= i < |retired| ==> Slots(retired)[i] == all[i];
    DistinctSize(Slots(retired));
  }

  // ----- the cap

  lemma InRecentlyRetired(rows: seq<WeightRow>, start: int, end: int, t: Triple)
    ensures t in RecentlyRetired(rows, start, end) <==>
            exists r :: r in rows && r.slot == t && r.artefact.RetireFeed? && r.weight == 0.0 && start <= r.ts <= end
  {
  }

  lemma RecentAfterReview(incidents: seq<Incident>, shapley: seq<ShapleyRow>, feeds: seq<string>, settings: Settings,
                          now: int, stored: seq<WeightRow>, retired: seq<WeightRow>, reinstated: seq<Reinstated>)
    requires ExactOutcome(incidents, shapley, feeds, settings, now, stored, retired, reinstated)
    ensures RecentlyRetired(stored + (retired + Rows(reinstated)), now - 7 * DAY, now)
         == RecentlyRetired(stored, now - 7 * DAY, now) + DueSlots(incidents, feeds, settings, now, stored)
  {
    var after, due := stored + (retired + Rows(reinstated)), DueSlots(incidents, feeds, settings, now, stored);
    RetiredAreDue(incidents, shapley, feeds, settings, now, stored, retired, reinstated);
    forall t ensures t in RecentlyRetired(after, now - 7 * DAY, now) <==>
        t in RecentlyRetired(stored, now - 7 * DAY, now) || t in due {
      InRecentlyRetired(stored, now - 7 * DAY, now, t);
      InRecentlyRetired(after, now - 7 * DAY, now, t);
      assert t in due <==> t in Elements(Slots(retired));
      if t in Slots(retired) {
        var i :| 0 <= i < |retired| && Slots(retired)[i] == t;
        assert retired[i] in retired && retired[i] in after;
      }
      forall r | r in retired ensures r.slot in Slots(retired) { SlotInSlots(retired, r); }
    }
  }

  /**
   The documented cap, at most so many slots retired within seven days, holds after a review exactly when
   the slots retired in the week before and the slots now due are not more than the cap together.
   */
  lemma CapKeptIff(incidents: seq<Incident>, shapley: seq<ShapleyRow>, feeds: seq<string>, settings: Settings,
                   now: int, stored: seq<WeightRow>, retired: seq<WeightRow>, reinstated: seq<Reinstated>)
    requires ExactOutcome(incidents, shapley, feeds, settings, now, stored, retired, reinstated)
    ensures CountRecentRetirements(stored + (retired + Rows(reinstated)), now - 7 * DAY, now) <= settings.cap <==>
            |RecentlyRetired(stored, now - 7 * DAY, now) + DueSlots(incidents, feeds, settings, now, stored)|
              <= settings.cap
  {
    RecentAfterReview(incidents, shapley, feeds, settings, now, stored, retired, reinstated);
  }

  /** Some retirement is reported as skipped exactly when more slots are due than the budget has left. */
  lemma CapReachedIff(incidents: seq<Incident>, shapley: seq<ShapleyRow>, feeds: seq<string>, settings: Settings,
                      now: int, stored: seq<WeightRow>, tally: Tally, reinstated: seq<Reinstated>)
    requires ExactOutcome(incidents, shapley, feeds, settings, now, stored, tally.performed + tally.skipped, reinstated)
    requires |tally.performed| == Min(|tally.performed + tally.skipped|, Budget(stored, settings, now))
    ensures tally.skipped != [] <==>
            |DueSlots(incidents, feeds, settings, now, stored)| > Budget(stored, settings, now)
  {
    RetiredAreDue(incidents, shapley, feeds, settings, now, stored, tally.performed + tally.skipped, reinstated);
  }

  lemma UnionSize<T>(a: set<T>, b: set<T>)
    ensures |a + b| <= |a| + |b|
  {
    assert |a + b| == |a| + |b| - |a * b|;
  }

  /** A review that skips nothing and starts within the cap keeps it. */
  lemma NothingSkippedKeepsCap(incidents: seq<Incident>, shapley: seq<ShapleyRow>, feeds: seq<string>,
                               settings: Settings, now: int, stored: seq<WeightRow>, tally: Tally,
                               reinstated: seq<Reinstated>)
    requires ExactOutcome(incidents, shapley, feeds, settings, now, stored, tally.performed + tally.skipped, reinstated)
    requires |tally.performed| == Min(|tally.performed + tally.skipped|, Budget(stored, settings, now))
    requires tally.skipped == [] && CountRecentRetirements(stored, now - 7 * DAY, now) <= settings.cap
    ensures CountRecentRetirements(stored + (tally.performed + tally.skipped + Rows(reinstated)), now - 7 * DAY, now)
              <= settings.cap
  {
    CapKeptIff(incidents, shapley, feeds, settings, now, stored, tally.performed + tally.skipped, reinstated);
    CapReachedIff(incidents, shapley, feeds, settings, now, stored, tally, reinstated);
    UnionSize(RecentlyRetired(stored, now - 7 * DAY, now), DueSlots(incidents, feeds, settings, now, stored));
  }

  // ----- a ledger on which the cap is exceeded

  /** One desk with n targets, all live. */
  function LiveRows(n: nat): seq<WeightRow> {
    seq(n, i requires 0 <= i < n => WeightRow(i, Triple("regime", "a", seq(i, _ => 't')), 1.0, 0, ColdStart))
  }

  /** The feed's open incident, after k closed ones. */
  function Failures(k: nat): seq<Incident>
  {
    if k == 0 then [Incident(0, "f", 0, ["a"], Manual, None, None)]
    else [Incident(k, "f", 0, ["a"], Manual, Some(0), None)] + Failures(k - 1)
  }

  lemma {:induction false} FailuresAreValid(k: nat)
    ensures IncidentIdsUnique(Failures(k)) && OneOpenPerFeed(Failures(k))
    ensures forall r :: r in Failures(k) ==> r.id <= k
  {
    if k > 0 {
      FailuresAreValid(k - 1);
      ClosedInFront(Incident(k, "f", 0, ["a"], Manual, Some(0), None), Failures(k - 1));
    }
  }

  lemma ClosedInFront(r: Incident, rest: seq<Incident>)
    requires r.closed.Some? && IncidentIdsUnique(rest) && OneOpenPerFeed(rest)
    requires forall q :: q in rest ==> q.id < r.id
    ensures IncidentIdsUnique([r] + rest) && OneOpenPerFeed([r] + rest)
  {
    var all := [r] + rest;
    forall i, j | 0 <= i < j < |all|
      ensures all[i].id != all[j].id && (all[i].feed == all[j].feed ==> all[i].closed.Some? || all[j].closed.Some?) {
      assert all[j] == rest[j - 1] && rest[j - 1] in rest;
      if i > 0 { assert all[i] == rest[i - 1]; }
    }
  }

  lemma {:induction false} FailuresMeetRetirement(k: nat, start: int, end: int)
    requires start <= 0 <= end
    ensures CountIncidents(Failures(k), "f", start, end) == k + 1
    ensures OpenIncident(Failures(k), "f") == Some(Incident(0, "f", 0, ["a"], Manual, None, None))
  {
    if k > 0 {
      FailuresMeetRetirement(k - 1, start, end);
      assert Failures(k)[1..] == Failures(k - 1);
    } else {
      assert Failures(0)[1..] == [];
    }
  }

  lemma LiveRowsAreLive(n: nat, t: Triple)
    requires t in Slots(LiveRows(n))
    ensures Live(LiveRows(n), t) && t.desk == "a"
  {
    var i :| 0 <= i < n && Slots(LiveRows(n))[i] == t;
    assert LiveRows(n)[i] in LiveRows(n);
    LatestIsNewest(LiveRows(n), t);
  }

  lemma LiveRowsAreDistinct(n: nat)
    ensures Distinct(Slots(LiveRows(n))) && |Elements(Slots(LiveRows(n)))| == n
  {
    var ts := Slots(LiveRows(n));
    forall i, j | 0 <= i < j < |ts| ensures ts[i] != ts[j] {
      assert |ts[i].target| == i && |ts[j].target| == j;
    }
    DistinctSize(ts);
  }

  lemma AllAreDue(cap: nat, threshold: nat, settings: Settings)
    requires settings == Settings(30, threshold, 14, cap, 0.1, 90)
    ensures DueSlots(Failures(threshold), ["f"], settings, 1, LiveRows(cap + 1)) == Elements(Slots(LiveRows(cap + 1)))
    ensures |DueSlots(Failures(threshold), ["f"], settings, 1, LiveRows(cap + 1))| == cap + 1
  {
    FailuresMeetRetirement(threshold, 1 - 30 * DAY, 1);
    assert "f" in ["f"] && "a" in ["a"];
    assert MeetsRetirement(Failures(threshold), "f", 30, threshold, 1);
    assert Causes(Failures(threshold), ["f"], settings, 1, "f", "a");
    forall t | t in Slots(LiveRows(cap + 1)) ensures Live(LiveRows(cap + 1), t) && t.desk == "a" {
      LiveRowsAreLive(cap + 1, t);
    }
    LiveRowsAreDistinct(cap + 1);
  }

  lemma LedgerIsValid(n: nat, k: nat)
    ensures UniqueIds(LiveRows(n)) && NonNegative(LiveRows(n)) && RetiredHadWeight(LiveRows(n))
    ensures NewerThan(LiveRows(n), 1) && RecentlyRetired(LiveRows(n), 1 - 7 * DAY, 1) == {}
    ensures IncidentIdsUnique(Failures(k)) && OneOpenPerFeed(Failures(k))
  {
    FailuresAreValid(k);
  }

  /** The example: for any cap, a valid ledger with nothing retired yet, after whose review the cap is exceeded. */
  lemma CapCanBeExceeded(shapley: seq<ShapleyRow>, cap: nat, threshold: nat, settings: Settings,
                         incidents: seq<Incident>, stored: seq<WeightRow>, retired: seq<WeightRow>,
                         reinstated: seq<Reinstated>)
    requires settings == Settings(30, threshold, 14, cap, 0.1, 90)
    requires incidents == Failures(threshold) && stored == LiveRows(cap + 1)
    requires ExactOutcome(incidents, shapley, ["f"], settings, 1, stored, retired, reinstated)
    ensures CountRecentRetirements(stored, 1 - 7 * DAY, 1) == 0
    ensures CountRecentRetirements(stored + (retired + Rows(reinstated)), 1 - 7 * DAY, 1) == cap + 1
  {
    assert RecentlyRetired(stored, 1 - 7 * DAY, 1) == {} by { LedgerIsValid(cap + 1, threshold); }
    OnlyDueAreCounted(incidents, shapley, ["f"], settings, 1, stored, retired, reinstated);
    AllAreDue(cap, threshold, settings);
  }

  lemma OnlyDueAreCounted(incidents: seq<Incident>, shapley: seq<ShapleyRow>, feeds: seq<string>, settings: Settings,
                          now: int, stored: seq<WeightRow>, retired: seq<WeightRow>, reinstated: seq<Reinstated>)
    requires ExactOutcome(incidents, shapley, feeds, settings, now, stored, retired, reinstated)
    requires RecentlyRetired(stored, now - 7 * DAY, now) == {}
    ensures CountRecentRetirements(stored + (retired + Rows(reinstated)), now - 7 * DAY, now)
         == |DueSlots(incidents, feeds, settings, now, stored)|
  {
    RecentAfterReview(incidents, shapley, feeds, settings, now, stored, retired, reinstated);
    WithNothing(DueSlots(incidents, feeds, settings, now, stored));
  }

  lemma WithNothing<T>(s: set<T>)
    ensures {} + s == s
  {
  }

  /** The review itself on that ledger, from an empty database. */
  method ReviewOverTheCap(db: Database, cap: nat, threshold: nat) returns (o: Outcome)
    requires db.weights == LiveRows(cap + 1) && db.incidents == Failures(threshold) && ValidParams(db.params)
    modifies db`weights
    ensures o.Reviewed? && CountRecentRetirements(db.weights, 1 - 7 * DAY, 1) == cap + 1
  {
    var settings := Settings(30, threshold, 14, cap, 0.1, 90);
    LedgerIsValid(cap + 1, threshold);
    o := FeedReliabilityReview(db, ["f"], settings, 1);
    CapCanBeExceeded(db.shapley, cap, threshold, settings, db.incidents, LiveRows(cap + 1),
                     o.tally.performed + o.tally.skipped, o.reinstated);
  }
}
