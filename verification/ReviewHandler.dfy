/** One feed-reliability review, and the handler that opens incidents (research_loop/handlers.py). */
module ReviewHandler {
  import opened Contracts
  import opened Combinatorics
  import opened WeightTable
  import opened Persistence
  import opened Remediation
  import opened FeedReliability

  /** data_ingestion_failure_handler: a repeat for an open feed returns the open incident's id. */
  method DataIngestionFailure(db: Database, feed: string, desks: seq<string>, detectedBy: Detector,
                              triggered: int) returns (id: int)
    requires db.Schema()
    modifies db`incidents
    ensures db.Schema() && (old(db.Valid()) ==> db.Valid())
    ensures match OpenIncident(old(db.incidents), feed)
            case Some(r) => id == r.id && db.incidents == old(db.incidents)
            case None =>
              db.incidents == old(db.incidents) + [Incident(id, feed, triggered, desks, detectedBy, None, None)]
  {
    id := db.OpenFeedIncident(feed, triggered, desks, detectedBy);
  }

  datatype Settings = Settings(lookbackDays: int, threshold: int, recoveryDays: int, cap: int, reinstateWeight: real,
                               shareDays: int)

  /** The retirement rows so far, split into those within the budget and those over it. */
  datatype Tally = Tally(performed: seq<WeightRow>, skipped: seq<WeightRow>, remaining: nat)

  datatype Source = FromShapley | HistoricalWeight | Fallback

  /** One reinstatement; the artefact lists the fallbacks apart from the others. */
  datatype Reinstated = Reinstated(row: WeightRow, source: Source)

  datatype Outcome =
    | MissingFeeds
    | Reviewed(tally: Tally, reinstated: seq<Reinstated>)
    | Aborted(error: Error, tally: Tally, reinstated: seq<Reinstated>)

  /** Everything written is counted once, in order, and nothing is skipped while budget remains. */
  ghost predicate Balanced(t: Tally, written: seq<WeightRow>, budget: nat) {
    && t.performed + t.skipped == written
    && |t.performed| + t.remaining == budget
    && (t.skipped != [] ==> t.remaining == 0)
  }

  /** The loop that charges rows against the budget. */
  method Charge(t: Tally, rows: seq<WeightRow>, ghost before: seq<WeightRow>, ghost budget: nat) returns (t': Tally)
    requires Balanced(t, before, budget)
    ensures Balanced(t', before + rows, budget)
  {
    t' := t;
    for i := 0 to |rows|
      invariant Balanced(t', before + rows[..i], budget)
    {
      assert before + rows[..i + 1] == t'.performed + t'.skipped + [rows[i]];
      if t'.remaining <= 0 {
        t' := t'.(skipped := t'.skipped + [rows[i]]);
      } else {
        assert t'.skipped == [] && t'.performed + t'.skipped == t'.performed;
        t' := t'.(performed := t'.performed + [rows[i]], remaining := t'.remaining - 1);
      }
    }
    assert rows[..|rows|] == rows;
  }

  // ----- what a pass has written, when now is later than every stored row

  ghost predicate NewerThan(rows: seq<WeightRow>, now: int) {
    forall r :: r in rows ==> r.ts < now
  }

  /** The desk is named by the open incident of a feed that meets the retirement criteria. */
  ghost predicate Affected(incidents: seq<Incident>, candidates: seq<string>, feed: string, desk: string) {
    feed in candidates && OpenIncident(incidents, feed).Some? && desk in OpenIncident(incidents, feed).value.desks
  }

  /** Zero rows for slots that were live before the review, one each, caused by an affecting feed. */
  ghost predicate Retirements(incidents: seq<Incident>, candidates: seq<string>, stored: seq<WeightRow>,
                              written: seq<WeightRow>, now: int) {
    && Distinct(Slots(written))
    && forall w :: w in written ==>
         && w.weight == 0.0 && w.ts == now && w.artefact.RetireFeed?
         && Live(stored, w.slot) && Affected(incidents, candidates, w.artefact.feed, w.slot.desk)
  }

  lemma LiveAfterRetirements(incidents: seq<Incident>, candidates: seq<string>, stored: seq<WeightRow>,
                             written: seq<WeightRow>, now: int, t: Triple)
    requires NewerThan(stored, now) && Retirements(incidents, candidates, stored, written, now)
    ensures Live(stored + written, t) <==> Live(stored, t) && t !in Slots(written)
  {
    LatestAfterAppend(stored, written, t);
    if t in Slots(written) {
      var i :| 0 <= i < |written| && Slots(written)[i] == t;
      assert written[i] in written && written[i].slot == t;
    }
  }

  /** Retiring a pair once more extends the pass. */
  lemma RetirementsExtend(incidents: seq<Incident>, candidates: seq<string>, stored: seq<WeightRow>,
                          written: seq<WeightRow>,
                          more: seq<WeightRow>, feed: string, desk: string, target: string, now: int)
    requires NewerThan(stored, now) && Retirements(incidents, candidates, stored, written, now)
    requires Affected(incidents, candidates, feed, desk)
    requires Slots(more) == SlotsToRetire(stored + written, desk, target)
    requires forall w :: w in more ==> w.weight == 0.0 && w.ts == now && w.artefact == RetireFeed(feed)
    ensures Retirements(incidents, candidates, stored, written + more, now)
  {
    SlotsToRetireSpec(stored + written, desk, target);
    forall w | w in more ensures Live(stored, w.slot) && w.slot.desk == desk && w.slot !in Slots(written) {
      SlotInSlots(more, w);
      LiveAfterRetirements(incidents, candidates, stored, written, now, w.slot);
    }
    assert Slots(written + more) == Slots(written) + Slots(more);
    forall i, j | 0 <= i < |written| && 0 <= j < |more| ensures Slots(written)[i] != Slots(more)[j] {
      assert more[j] in more && more[j].slot == Slots(more)[j];
    }
  }

  /** No slot of the pair is live any more. */
  lemma PairIsRetired(incidents: seq<Incident>, candidates: seq<string>, stored: seq<WeightRow>,
                      written: seq<WeightRow>,
                      more: seq<WeightRow>, desk: string, target: string, now: int, t: Triple)
    requires NewerThan(stored, now) && Retirements(incidents, candidates, stored, written, now)
    requires Retirements(incidents, candidates, stored, written + more, now)
    requires Slots(more) == SlotsToRetire(stored + written, desk, target)
    ensures Live(stored + (written + more), t) ==> Live(stored + written, t) && !(t.desk == desk && t.target == target)
  {
    SlotsToRetireSpec(stored + written, desk, target);
    LiveAfterRetirements(incidents, candidates, stored, written, now, t);
    LiveAfterRetirements(incidents, candidates, stored, written + more, now, t);
    assert Slots(written + more) == Slots(written) + Slots(more);
  }

  // ----- the retirement pass

  /** Retiring one pair and charging the rows. */
  method RetirePair(db: Database, desk: string, target: string, feed: string, now: int, t: Tally,
                    ghost candidates: seq<string>, ghost stored: seq<WeightRow>, ghost written: seq<WeightRow>,
                    ghost budget: nat)
    returns (t': Tally, ghost written': seq<WeightRow>)
    requires db.Valid() && db.weights == stored + written && Balanced(t, written, budget)
    requires NewerThan(stored, now) ==> Retirements(db.incidents, candidates, stored, written, now)
    requires Affected(db.incidents, candidates, feed, desk)
    modifies db`weights
    ensures db.Valid() && db.weights == stored + written' && Balanced(t', written', budget)
    ensures NewerThan(stored, now) ==> Retirements(db.incidents, candidates, stored, written', now)
    ensures NewerThan(stored, now) ==>
              forall s :: Live(db.weights, s) ==> Live(old(db.weights), s) && !(s.desk == desk && s.target == target)
  {
    var rows := RetireDeskForAllRegimes(db, desk, target, feed, now);
    written' := written + rows;
    assert db.weights == stored + written';
    if NewerThan(stored, now) {
      RetirementsExtend(db.incidents, candidates, stored, written, rows, feed, desk, target, now);
      forall s | Live(db.weights, s)
        ensures Live(old(db.weights), s) && !(s.desk == desk && s.target == target)
      {
        PairIsRetired(db.incidents, candidates, stored, written, rows, desk, target, now, s);
      }
    }
    t' := Charge(t, rows, written, budget);
  }

  /** The loop over a desk's active targets. */
  method RetireDesk(db: Database, desk: string, feed: string, now: int, t: Tally,
                    ghost candidates: seq<string>, ghost stored: seq<WeightRow>, ghost written: seq<WeightRow>,
                    ghost budget: nat)
    returns (t': Tally, ghost written': seq<WeightRow>)
    requires db.Valid() && db.weights == stored + written && Balanced(t, written, budget)
    requires NewerThan(stored, now) ==> Retirements(db.incidents, candidates, stored, written, now)
    requires Affected(db.incidents, candidates, feed, desk)
    modifies db`weights
    ensures db.Valid() && db.weights == stored + written' && Balanced(t', written', budget)
    ensures NewerThan(stored, now) ==> Retirements(db.incidents, candidates, stored, written', now)
    ensures NewerThan(stored, now) ==>
              forall s :: Live(db.weights, s) ==> Live(old(db.weights), s) && s.desk != desk
  {
    var targets := ActiveTargets(db.weights, desk);
    t', written' := t, written;
    forall s | Live(db.weights, s) && s.desk == desk ensures s.target in targets[0..] {
      ActiveTargetsSpec(db.weights, desk, s.target);
      assert targets[0..] == targets;
    }
    for k := 0 to |targets|
      invariant db.Valid() && db.weights == stored + written' && Balanced(t', written', budget)
      invariant NewerThan(stored, now) ==> Retirements(db.incidents, candidates, stored, written', now)
      invariant NewerThan(stored, now) ==>
                  forall s :: Live(db.weights, s) ==>
                      Live(old(db.weights), s) && (s.desk == desk ==> s.target in targets[k..])
    {
      t', written' := RetirePair(db, desk, targets[k], feed, now, t', candidates, stored, written', budget);
      forall s | Live(db.weights, s) { DropStep(targets, k, s.target); }
    }
  }

  /** Nothing on a desk affected by one of these feeds is still live. */
  ghost predicate Cleared(incidents: seq<Incident>, candidates: seq<string>, rows: seq<WeightRow>) {
    forall f, s: Triple :: Affected(incidents, candidates, f, s.desk) ==> !Live(rows, s)
  }

  lemma ClearedExtend(incidents: seq<Incident>, done: seq<string>, feed: string, before: seq<WeightRow>,
                      after: seq<WeightRow>)
    requires Cleared(incidents, done, before)
    requires forall s :: Live(after, s) ==> Live(before, s)
    requires OpenIncident(incidents, feed).Some? ==>
               forall s :: Live(after, s) ==> s.desk !in OpenIncident(incidents, feed).value.desks
    ensures Cleared(incidents, done + [feed], after)
  {
    forall f, s: Triple | Affected(incidents, done + [feed], f, s.desk) ensures !Live(after, s) {
      if f != feed {
        assert Affected(incidents, done, f, s.desk);
      }
    }
  }

  /** The loop over candidate feeds and the desks their open incidents name. */
  method RetirePass(db: Database, candidates: seq<string>, now: int, budget: nat)
    returns (t: Tally, ghost written: seq<WeightRow>)
    requires db.Valid()
    modifies db`weights
    ensures db.Valid() && db.weights == old(db.weights) + written && Balanced(t, written, budget)
    ensures NewerThan(old(db.weights), now) ==>
              && Retirements(db.incidents, candidates, old(db.weights), written, now)
              && Cleared(db.incidents, candidates, db.weights)
  {
    t, written := Tally([], [], budget), [];
    ghost var stored := db.weights;
    assert stored + written == stored;
    for i := 0 to |candidates|
      invariant db.Valid() && db.weights == stored + written && Balanced(t, written, budget)
      invariant NewerThan(stored, now) ==> Retirements(db.incidents, candidates, stored, written, now)
      invariant NewerThan(stored, now) ==> Cleared(db.incidents, candidates[..i], db.weights)
    {
      var feed := candidates[i];
      ghost var before := db.weights;
      if OpenIncident(db.incidents, feed).Some? {
        var desks := OpenIncident(db.incidents, feed).value.desks;
        t, written := RetireDesks(db, desks, feed, now, t, candidates, stored, written, budget);
      }
      assert candidates[..i + 1] == candidates[..i] + [feed];
      if NewerThan(stored, now) {
        ClearedExtend(db.incidents, candidates[..i], feed, before, db.weights);
      }
    }
    assert candidates[..|candidates|] == candidates;
  }

  method RetireDesks(db: Database, desks: seq<string>, feed: string, now: int, t: Tally,
                     ghost candidates: seq<string>, ghost stored: seq<WeightRow>, ghost written: seq<WeightRow>,
                     ghost budget: nat)
    returns (t': Tally, ghost written': seq<WeightRow>)
    requires db.Valid() && db.weights == stored + written && Balanced(t, written, budget)
    requires NewerThan(stored, now) ==> Retirements(db.incidents, candidates, stored, written, now)
    requires forall d :: d in desks ==> Affected(db.incidents, candidates, feed, d)
    modifies db`weights
    ensures db.Valid() && db.weights == stored + written' && Balanced(t', written', budget)
    ensures NewerThan(stored, now) ==> Retirements(db.incidents, candidates, stored, written', now)
    ensures NewerThan(stored, now) ==>
              forall s :: Live(db.weights, s) ==> Live(old(db.weights), s) && s.desk !in desks
  {
    t', written' := t, written;
    for k := 0 to |desks|
      invariant db.Valid() && db.weights == stored + written' && Balanced(t', written', budget)
      invariant NewerThan(stored, now) ==> Retirements(db.incidents, candidates, stored, written', now)
      invariant NewerThan(stored, now) ==>
                  forall s :: Live(db.weights, s) ==> Live(old(db.weights), s) && s.desk !in desks[..k]
    {
      assert desks[..k + 1] == desks[..k] + [desks[k]];
      t', written' := RetireDesk(db, desks[k], feed, now, t', candidates, stored, written', budget);
    }
    assert desks[..|desks|] == desks;
  }

  // ----- the reinstatement pass

  /** Rows for slots that a recovered feed had zeroed, one each. */
  ghost predicate Reinstatements(recovered: seq<string>, stored: seq<WeightRow>, written: seq<WeightRow>, now: int) {
    && Distinct(Slots(written))
    && forall w :: w in written ==>
         && w.ts == now && w.artefact.ReinstateFeed?
         && w.artefact.recovered in recovered && Awaiting(stored, w.slot, w.artefact.recovered)
  }

  lemma AwaitingAfterReinstatements(recovered: seq<string>, stored: seq<WeightRow>, written: seq<WeightRow>, now: int,
                                    feed: string, t: Triple)
    requires AllNewer(written, stored) && Reinstatements(recovered, stored, written, now)
    ensures Awaiting(stored + written, t, feed) <==> Awaiting(stored, t, feed) && t !in Slots(written)
  {
    LatestAfterAppend(stored, written, t);
    if t in Slots(written) {
      var i :| 0 <= i < |written| && Slots(written)[i] == t;
      assert written[i] in written && written[i].slot == t;
    }
  }

  lemma ReinstatementsExtend(recovered: seq<string>, stored: seq<WeightRow>, written: seq<WeightRow>, w: WeightRow,
                             now: int)
    requires Reinstatements(recovered, stored, written, now) && w.slot !in Slots(written)
    requires w.ts == now && w.artefact.ReinstateFeed? && w.artefact.recovered in recovered
               && Awaiting(stored, w.slot, w.artefact.recovered)
    ensures Reinstatements(recovered, stored, written + [w], now)
  {
    assert Slots(written + [w]) == Slots(written) + [w.slot];
  }

  /** The weight a reinstated slot gets: its Shapley share, else its last positive weight, else the seed. */
  function Choice(shapley: seq<ShapleyRow>, weights: seq<WeightRow>, slot: Triple, settings: Settings,
                  now: int): (real, Source) {
    var share := MeanShare(Groups(shapley, now - settings.shareDays * DAY, now), slot.desk);
    var previous := LatestNonzeroWeight(weights, slot, now);
    if share.Some? && share.value > 0.0 then (share.value, FromShapley)
    else if previous.Some? && previous.value > 0.0 then (previous.value, HistoricalWeight)
    else (settings.reinstateWeight, Fallback)
  }

  /** The newest positive row of the slot up to now has this weight. */
  ghost predicate LastPositive(weights: seq<WeightRow>, slot: Triple, now: int, weight: real) {
    exists w :: w in weights && PositiveBy(w, slot, now) && w.weight == weight
                && forall r :: r in weights && PositiveBy(r, slot, now) ==>
                     r.ts < w.ts || (r.ts == w.ts && r.id <= w.id)
  }

  /** A positive mean share comes first, then the last positive weight; the seed is for a slot that has neither. */
  lemma ChoiceMeaning(shapley: seq<ShapleyRow>, weights: seq<WeightRow>, slot: Triple, settings: Settings, now: int)
    ensures var (weight, source) := Choice(shapley, weights, slot, settings, now);
            var share := MeanShare(Groups(shapley, now - settings.shareDays * 86400, now), slot.desk);
            match source
            case FromShapley => share == Some(weight) && weight > 0.0
            case HistoricalWeight =>
              (share.Some? ==> share.value <= 0.0) && LastPositive(weights, slot, now, weight)
            case Fallback =>
              (share.Some? ==> share.value <= 0.0) && (forall r :: r in weights ==> !PositiveBy(r, slot, now))
              && weight == settings.reinstateWeight
  {
    LatestNonzeroSpec(weights, slot, now);
  }

  method ChooseWeight(db: Database, slot: Triple, settings: Settings, now: int) returns (weight: real, source: Source)
    ensures (weight, source) == Choice(db.shapley, db.weights, slot, settings, now)
    ensures source != Fallback ==> weight > 0.0
    ensures source == Fallback ==> forall q :: q in db.weights && q.slot == slot && q.ts <= now ==> q.weight <= 0.0
  {
    var share := HistoricalShapleyShare(db, slot.desk, settings.shareDays, now);
    if share.Some? && share.value > 0.0 {
      return share.value, FromShapley;
    }
    LatestNonzeroSpec(db.weights, slot, now);
    var previous := LatestNonzeroWeight(db.weights, slot, now);
    if previous.Some? && previous.value > 0.0 {
      return previous.value, HistoricalWeight;
    }
    return settings.reinstateWeight, Fallback;
  }

  lemma ChoiceUnchanged(shapley: seq<ShapleyRow>, weights: seq<WeightRow>, more: seq<WeightRow>, slot: Triple,
                        settings: Settings, now: int)
    requires slot !in Slots(more) || forall w :: w in more ==> w.weight == 0.0
    ensures Choice(shapley, weights + more, slot, settings, now) == Choice(shapley, weights, slot, settings, now)
  {
    forall w | w in more ensures w.slot != slot || w.weight == 0.0 {
      SlotInSlots(more, w);
    }
    LatestNonzeroUnchanged(weights, more, slot, now);
  }

  /** Each reinstated slot got the weight chosen for it on the rows stored before the pass. */
  ghost predicate AsChosen(done: seq<Reinstated>, shapley: seq<ShapleyRow>, stored: seq<WeightRow>, settings: Settings,
                           now: int) {
    forall x :: x in done ==> (x.row.weight, x.source) == Choice(shapley, stored, x.row.slot, settings, now)
  }

  lemma AsChosenSnoc(done: seq<Reinstated>, x: Reinstated, shapley: seq<ShapleyRow>, stored: seq<WeightRow>,
                     settings: Settings, now: int)
    requires AsChosen(done, shapley, stored, settings, now)
    requires (x.row.weight, x.source) == Choice(shapley, stored, x.row.slot, settings, now)
    ensures AsChosen(done + [x], shapley, stored, settings, now)
  {
  }

  function Rows(rs: seq<Reinstated>): seq<WeightRow> {
    seq(|rs|, i requires 0 <= i < |rs| => rs[i].row)
  }

  lemma RowsSnoc(rs: seq<Reinstated>, r: Reinstated)
    ensures Rows(rs + [r]) == Rows(rs) + [r.row]
  {
  }

  /** The stored rows of a slot that waits for a recovered feed are all earlier than now. */
  ghost predicate Ripe(recovered: seq<string>, stored: seq<WeightRow>, now: int) {
    forall r, f :: r in stored && f in recovered && Awaiting(stored, r.slot, f) ==> r.ts < now
  }

  /** A slot that waits for a recovered feed once had a positive weight. */
  ghost predicate Warranted(recovered: seq<string>, stored: seq<WeightRow>, now: int) {
    forall t, f :: f in recovered && Awaiting(stored, t, f) ==>
      exists q :: q in stored && q.slot == t && q.weight > 0.0 && q.ts <= now
  }

  lemma ReinstatementsAreNewer(recovered: seq<string>, stored: seq<WeightRow>, written: seq<WeightRow>, now: int)
    requires Ripe(recovered, stored, now) && Reinstatements(recovered, stored, written, now)
    ensures AllNewer(written, stored)
  {
  }

  /** One slot of the loop: choose a weight and write it. */
  method ReinstateSlot(db: Database, slot: Triple, feed: string, settings: Settings, now: int,
                       ghost done: seq<Reinstated>, ghost recovered: seq<string>, ghost stored: seq<WeightRow>)
    returns (r: Result<Reinstated>)
    requires db.Valid() && db.weights == stored + Rows(done) && feed in recovered
    modifies db`weights
    ensures db.Valid()
    ensures r.Raised? ==> db.weights == old(db.weights)
    ensures r.Ok? ==> db.weights == stored + Rows(done + [r.value])
    ensures r.Ok? ==> r.value.row.slot == slot && r.value.row.ts == now && r.value.row.artefact == ReinstateFeed(feed)
    ensures r.Ok? && slot !in Slots(Rows(done)) ==>
              (r.value.row.weight, r.value.source) == Choice(db.shapley, stored, slot, settings, now)
    ensures Warranted(recovered, stored, now) && Awaiting(stored, slot, feed) ==> r.Ok? && r.value.source != Fallback
  {
    var weight, source := ChooseWeight(db, slot, settings, now);
    if slot !in Slots(Rows(done)) { ChoiceUnchanged(db.shapley, stored, Rows(done), slot, settings, now); }
    if Warranted(recovered, stored, now) && Awaiting(stored, slot, feed) {
      var q :| q in stored && q.slot == slot && q.weight > 0.0 && q.ts <= now;
      assert q in db.weights;
    }
    var w := ReinstateDeskDirect(db, slot, weight, feed, now);
    if w.Raised? {
      return Raised(w.error);
    }
    RowsSnoc(done, Reinstated(w.value, source));
    assert stored + Rows(done) + [w.value] == stored + (Rows(done) + [w.value]);
    r := Ok(Reinstated(w.value, source));
  }

  /** Once all slots of a feed are reinstated, nothing waits for it any more. */
  lemma FeedIsCleared(recovered: seq<string>, stored: seq<WeightRow>, before: seq<WeightRow>, after: seq<WeightRow>,
                      slots: seq<Triple>, feed: string, now: int)
    requires Ripe(recovered, stored, now)
    requires Reinstatements(recovered, stored, before, now) && Reinstatements(recovered, stored, after, now)
    requires forall t :: t in Slots(after) <==> t in Slots(before) || t in slots
    requires forall t :: t in slots <==> Awaiting(stored + before, t, feed)
    ensures forall t, f :: Awaiting(stored + after, t, f) ==> Awaiting(stored + before, t, f) && f != feed
  {
    ReinstatementsAreNewer(recovered, stored, before, now);
    ReinstatementsAreNewer(recovered, stored, after, now);
    forall t, f | Awaiting(stored + after, t, f) ensures Awaiting(stored + before, t, f) && f != feed {
      AwaitingAfterReinstatements(recovered, stored, after, now, f, t);
      AwaitingAfterReinstatements(recovered, stored, before, now, f, t);
    }
  }

  /** Valid so far: the slots given so far are reinstated, besides those reinstated before. */
  ghost predicate Progress(recovered: seq<string>, shapley: seq<ShapleyRow>, stored: seq<WeightRow>, settings: Settings,
                           now: int, before: seq<Reinstated>, slots: seq<Triple>, done: seq<Reinstated>) {
    && Reinstatements(recovered, stored, Rows(done), now) && AsChosen(done, shapley, stored, settings, now)
    && forall t :: t in Slots(Rows(done)) <==> t in Slots(Rows(before)) || t in slots
  }

  lemma ProgressStep(recovered: seq<string>, shapley: seq<ShapleyRow>, stored: seq<WeightRow>, settings: Settings,
                     now: int, before: seq<Reinstated>, slots: seq<Triple>, k: nat, done: seq<Reinstated>,
                     x: Reinstated, feed: string)
    requires k < |slots| && Distinct(slots) && feed in recovered
    requires Progress(recovered, shapley, stored, settings, now, before, slots[..k], done)
    requires x.row.slot == slots[k] && x.row.ts == now && x.row.artefact == ReinstateFeed(feed)
    requires slots[k] !in Slots(Rows(before)) && Awaiting(stored, slots[k], feed)
    requires (x.row.weight, x.source) == Choice(shapley, stored, slots[k], settings, now)
    ensures Progress(recovered, shapley, stored, settings, now, before, slots[..k + 1], done + [x])
  {
    RowsSnoc(done, x);
    assert Slots(Rows(done) + [x.row]) == Slots(Rows(done)) + [slots[k]];
    assert slots[..k + 1] == slots[..k] + [slots[k]];
    assert slots[k] !in slots[..k];
    ReinstatementsExtend(recovered, stored, Rows(done), x.row, now);
    AsChosenSnoc(done, x, shapley, stored, settings, now);
  }

  /** The slots, listed once each, wait for the feed in the rows before the pass and have not been served. */
  ghost predicate Waiting(stored: seq<WeightRow>, before: seq<Reinstated>, slots: seq<Triple>, feed: string) {
    Distinct(slots) && forall t :: t in slots ==> Awaiting(stored, t, feed) && t !in Slots(Rows(before))
  }

  lemma RetiredSlotsWait(recovered: seq<string>, stored: seq<WeightRow>, before: seq<Reinstated>, now: int,
                         feed: string)
    requires Ripe(recovered, stored, now) && Reinstatements(recovered, stored, Rows(before), now)
    ensures Waiting(stored, before, RetiredSlots(stored + Rows(before), feed), feed)
  {
    var slots := RetiredSlots(stored + Rows(before), feed);
    RetiredSlotsSpec(stored + Rows(before), feed);
    ReinstatementsAreNewer(recovered, stored, Rows(before), now);
    forall t | t in slots ensures Awaiting(stored, t, feed) && t !in Slots(Rows(before)) {
      AwaitingAfterReinstatements(recovered, stored, Rows(before), now, feed, t);
    }
  }

  /** The k-th slot of the loop below. */
  method ReinstateNext(db: Database, slots: seq<Triple>, k: nat, feed: string, settings: Settings, now: int,
                       ghost before: seq<Reinstated>, ghost done: seq<Reinstated>, ghost recovered: seq<string>,
                       ghost stored: seq<WeightRow>)
    returns (r: Result<Reinstated>)
    requires db.Valid() && db.weights == stored + Rows(done) && k < |slots| && feed in recovered
    requires Ripe(recovered, stored, now) ==>
               && Waiting(stored, before, slots, feed)
               && Progress(recovered, db.shapley, stored, settings, now, before, slots[..k], done)
    modifies db`weights
    ensures db.Valid()
    ensures db.weights == stored + Rows(if r.Ok? then done + [r.value] else done)
    ensures r.Ok? && Ripe(recovered, stored, now) ==>
              Progress(recovered, db.shapley, stored, settings, now, before, slots[..k + 1], done + [r.value])
    ensures Ripe(recovered, stored, now) && Warranted(recovered, stored, now) ==> r.Ok? && r.value.source != Fallback
  {
    ghost var shapley := db.shapley;
    if Ripe(recovered, stored, now) {
      assert slots[k] in slots && slots[k] !in slots[..k];
      assert slots[k] !in Slots(Rows(done));
    }
    r := ReinstateSlot(db, slots[k], feed, settings, now, done, recovered, stored);
    assert db.shapley == shapley;
    if r.Ok? && Ripe(recovered, stored, now) {
      ProgressStep(recovered, shapley, stored, settings, now, before, slots, k, done, r.value, feed);
    }
  }

  /** The loop over the slots one recovered feed had retired. */
  method ReinstateForFeed(db: Database, feed: string, settings: Settings, now: int, done: seq<Reinstated>,
                          ghost recovered: seq<string>, ghost stored: seq<WeightRow>)
    returns (aborted: Option<Error>, done': seq<Reinstated>)
    requires db.Valid() && db.weights == stored + Rows(done) && feed in recovered
    requires Ripe(recovered, stored, now) ==>
               Reinstatements(recovered, stored, Rows(done), now) && AsChosen(done, db.shapley, stored, settings, now)
    modifies db`weights
    ensures db.Valid() && db.weights == stored + Rows(done')
    ensures Ripe(recovered, stored, now) ==>
              Reinstatements(recovered, stored, Rows(done'), now) && AsChosen(done', db.shapley, stored, settings, now)
    ensures Ripe(recovered, stored, now) && Warranted(recovered, stored, now)
            && (forall x :: x in done ==> x.source != Fallback) ==>
              aborted.None? && forall x :: x in done' ==> x.source != Fallback
    ensures Ripe(recovered, stored, now) && aborted.None? ==>
              forall t, f :: Awaiting(db.weights, t, f) ==> Awaiting(old(db.weights), t, f) && f != feed
  {
    var slots := RetiredSlots(db.weights, feed);
    done' := done;
    ghost var ripe, shapley := Ripe(recovered, stored, now), db.shapley;
    ghost var sure := ripe && Warranted(recovered, stored, now) && forall x :: x in done ==> x.source != Fallback;
    if ripe {
      RetiredSlotsWait(recovered, stored, done, now, feed);
      assert Progress(recovered, shapley, stored, settings, now, done, slots[..0], done);
    }
    for k := 0 to |slots|
      invariant db.Valid() && db.weights == stored + Rows(done') && db.shapley == shapley
      invariant ripe ==> Progress(recovered, shapley, stored, settings, now, done, slots[..k], done')
      invariant sure ==> forall x :: x in done' ==> x.source != Fallback
    {
      var r := ReinstateNext(db, slots, k, feed, settings, now, done, done', recovered, stored);
      if r.Raised? {
        return Some(r.error), done';
      }
      done' := done' + [r.value];
    }
    assert slots[..|slots|] == slots;
    aborted := None;
    if ripe {
      RetiredSlotsSpec(stored + Rows(done), feed);
      FeedIsCleared(recovered, stored, Rows(done), Rows(done'), slots, feed, now);
    }
  }

  /** The loop over recovered feeds. */
  method ReinstatePass(db: Database, recovered: seq<string>, settings: Settings, now: int)
    returns (aborted: Option<Error>, done: seq<Reinstated>)
    requires db.Valid()
    modifies db`weights
    ensures db.Valid() && db.weights == old(db.weights) + Rows(done)
    ensures Ripe(recovered, old(db.weights), now) ==>
              Reinstatements(recovered, old(db.weights), Rows(done), now)
                  && AsChosen(done, db.shapley, old(db.weights), settings, now)
    ensures Ripe(recovered, old(db.weights), now) && Warranted(recovered, old(db.weights), now) ==>
              aborted.None? && forall x :: x in done ==> x.source != Fallback
    ensures Ripe(recovered, old(db.weights), now) && aborted.None? ==>
              forall t, f :: f in recovered ==> !Awaiting(db.weights, t, f)
  {
    ghost var stored := db.weights;
    done := [];
    assert stored + Rows(done) == stored;
    for i := 0 to |recovered|
      invariant db.Valid() && db.weights == stored + Rows(done)
      invariant Ripe(recovered, stored, now) ==>
                  Reinstatements(recovered, stored, Rows(done), now)
                      && AsChosen(done, db.shapley, stored, settings, now)
      invariant Ripe(recovered, stored, now) && Warranted(recovered, stored, now) ==> forall x :: x in done ==>
                x.source != Fallback
      invariant Ripe(recovered, stored, now) ==> forall t, f :: f in recovered[..i] ==> !Awaiting(db.weights, t, f)
    {
      assert recovered[..i + 1] == recovered[..i] + [recovered[i]];
      aborted, done := ReinstateForFeed(db, recovered[i], settings, now, done, recovered, stored);
      if aborted.Some? {
        return;
      }
    }
    assert recovered[..|recovered|] == recovered;
    aborted := None;
  }

  // ----- the review

  /** The reviewed feed meets the retirement criteria and its open incident names the desk. */
  ghost predicate Causes(incidents: seq<Incident>, feeds: seq<string>, settings: Settings, now: int, feed: string,
                         desk: string) {
    feed in feeds && MeetsRetirement(incidents, feed, settings.lookbackDays, settings.threshold, now)
    && desk in OpenIncident(incidents, feed).value.desks
  }

  ghost predicate MustRetire(incidents: seq<Incident>, feeds: seq<string>, settings: Settings, now: int, desk: string) {
    exists f :: Causes(incidents, feeds, settings, now, f, desk)
  }

  /** The reviewed feed has recovered and is why the slot reads zero. */
  ghost predicate Releases(incidents: seq<Incident>, feeds: seq<string>, settings: Settings, now: int,
                           stored: seq<WeightRow>, feed: string, t: Triple) {
    feed in feeds && FeedHasRecovered(incidents, feed, settings.recoveryDays, now) && Awaiting(stored, t, feed)
  }

  ghost predicate MustReinstate(incidents: seq<Incident>, feeds: seq<string>, settings: Settings, now: int,
                                stored: seq<WeightRow>, t: Triple) {
    exists f :: Releases(incidents, feeds, settings, now, stored, f, t)
  }

  /** In terms of the registry's rows: an incident that names the desk is open, and the feed had enough of late. */
  lemma MustRetireMeaning(incidents: seq<Incident>, feeds: seq<string>, settings: Settings, now: int, desk: string)
    requires OneOpenPerFeed(incidents)
    ensures MustRetire(incidents, feeds, settings, now, desk) <==>
            exists r :: r in incidents && r.feed in feeds && r.closed.None? && desk in r.desks
              && |IncidentsOpened(incidents, r.feed, now - settings.lookbackDays * 86400, now)| >= settings.threshold
  {
    if MustRetire(incidents, feeds, settings, now, desk) {
      var f :| Causes(incidents, feeds, settings, now, f, desk);
      OpenIncidentSpec(incidents, f);
      CriteriaMeaning(incidents, f, settings.lookbackDays, settings.threshold, now);
    }
    if r :| r in incidents && r.feed in feeds && r.closed.None? && desk in r.desks
            && |IncidentsOpened(incidents, r.feed, now - settings.lookbackDays * 86400, now)| >= settings.threshold {
      OpenIncidentSpec(incidents, r.feed);
      CriteriaMeaning(incidents, r.feed, settings.lookbackDays, settings.threshold, now);
      assert Causes(incidents, feeds, settings, now, r.feed, desk);
    }
  }

  /** The slot's newest row is a recovered feed's zero: none of its incidents is open or was opened of late. */
  lemma MustReinstateMeaning(incidents: seq<Incident>, feeds: seq<string>, settings: Settings, now: int,
                             stored: seq<WeightRow>, t: Triple)
    requires UniqueIds(stored)
    ensures MustReinstate(incidents, feeds, settings, now, stored, t) <==>
            exists w :: w in stored && w.slot == t && w.weight == 0.0 && w.artefact.RetireFeed?
              && (forall r :: r in stored && r.slot == t ==> r.ts < w.ts || (r.ts == w.ts && r.id <= w.id))
              && w.artefact.feed in feeds && !HasOpen(incidents, w.artefact.feed)
              && IncidentsOpened(incidents, w.artefact.feed, now - settings.recoveryDays * 86400, now) == {}
  {
    if MustReinstate(incidents, feeds, settings, now, stored, t) {
      var f :| Releases(incidents, feeds, settings, now, stored, f, t);
      AwaitingMeaning(stored, t, f);
      CriteriaMeaning(incidents, f, settings.recoveryDays, 0, now);
    }
    if w :| w in stored && w.slot == t && w.weight == 0.0 && w.artefact.RetireFeed?
            && (forall r :: r in stored && r.slot == t ==> r.ts < w.ts || (r.ts == w.ts && r.id <= w.id))
            && w.artefact.feed in feeds && !HasOpen(incidents, w.artefact.feed)
            && IncidentsOpened(incidents, w.artefact.feed, now - settings.recoveryDays * 86400, now) == {} {
      AwaitingMeaning(stored, t, w.artefact.feed);
      CriteriaMeaning(incidents, w.artefact.feed, settings.recoveryDays, 0, now);
      assert Releases(incidents, feeds, settings, now, stored, w.artefact.feed, t);
    }
  }

  /** After the retirement pass, the recovered feeds' slots are as they were, and ripe. */
  lemma RetirementsLeaveRecovered(incidents: seq<Incident>, candidates: seq<string>, recovered: seq<string>,
                                  stored: seq<WeightRow>, retired: seq<WeightRow>, now: int)
    requires NewerThan(stored, now) && Retirements(incidents, candidates, stored, retired, now)
    requires forall f :: f in recovered ==> OpenIncident(incidents, f).None?
    ensures forall t, f :: f in recovered ==> (Awaiting(stored + retired, t, f) <==> Awaiting(stored, t, f))
    ensures Ripe(recovered, stored + retired, now)
    ensures RetiredHadWeight(stored) ==> Warranted(recovered, stored + retired, now)
  {
    forall t, f | f in recovered
      ensures Awaiting(stored + retired, t, f) <==> Awaiting(stored, t, f)
      ensures Awaiting(stored, t, f) ==> t !in Slots(retired)
    {
      AwaitingAfterRetirements(incidents, candidates, stored, retired, now, t, f);
    }
    forall r, f | r in stored + retired && f in recovered && Awaiting(stored + retired, r.slot, f) ensures r.ts < now {
      assert Awaiting(stored, r.slot, f);
      if r in retired { SlotInSlots(retired, r); }
    }
    if RetiredHadWeight(stored) {
      forall t, f | f in recovered && Awaiting(stored + retired, t, f)
        ensures exists q :: q in stored + retired && q.slot == t && q.weight > 0.0 && q.ts <= now
      {
        assert Awaiting(stored, t, f);
        LatestIsNewest(stored, t);
        assert HadWeight(stored, t);
        var q :| q in stored && q.slot == t && q.weight > 0.0;
        assert q in stored + retired;
      }
    }
  }

  lemma AwaitingAfterRetirements(incidents: seq<Incident>, candidates: seq<string>,
                                 stored: seq<WeightRow>, retired: seq<WeightRow>, now: int, t: Triple, f: string)
    requires NewerThan(stored, now) && Retirements(incidents, candidates, stored, retired, now)
    requires OpenIncident(incidents, f).None?
    ensures Awaiting(stored + retired, t, f) <==> Awaiting(stored, t, f)
    ensures Awaiting(stored, t, f) ==> t !in Slots(retired)
  {
    LatestAfterAppend(stored, retired, t);
    if t in Slots(retired) {
      var i :| 0 <= i < |retired| && Slots(retired)[i] == t;
      assert retired[i] in retired && retired[i].slot == t;
    }
  }

  /** The two passes never touch the same slot. */
  lemma PassesAreDisjoint(incidents: seq<Incident>, candidates: seq<string>, recovered: seq<string>,
                          stored: seq<WeightRow>, retired: seq<WeightRow>, reinstated: seq<WeightRow>, now: int)
    requires NewerThan(stored, now) && Retirements(incidents, candidates, stored, retired, now)
    requires forall f :: f in recovered ==> OpenIncident(incidents, f).None?
    requires Reinstatements(recovered, stored + retired, reinstated, now)
    ensures Distinct(Slots(retired + reinstated))
  {
    assert Slots(retired + reinstated) == Slots(retired) + Slots(reinstated);
    forall i, j | 0 <= i < |retired| && 0 <= j < |reinstated| ensures Slots(retired)[i] != Slots(reinstated)[j] {
      var w := reinstated[j];
      assert w in reinstated && w.slot == Slots(reinstated)[j];
      AwaitingAfterRetirements(incidents, candidates, stored, retired, now, w.slot, w.artefact.recovered);
      assert Slots(retired)[i] in Slots(retired);
    }
  }

  function Min(a: nat, b: nat): nat {
    if a < b then a else b
  }

  /**
   Exactly the slots the rules name, each once: live slots of the desks to retire get a zero row, slots
   waiting for a recovered feed get the weight chosen from the state before the review, never the fallback.
   */
  ghost predicate ExactOutcome(incidents: seq<Incident>, shapley: seq<ShapleyRow>, feeds: seq<string>,
                               settings: Settings, now: int,
                               stored: seq<WeightRow>, retired: seq<WeightRow>, reinstated: seq<Reinstated>) {
    && Distinct(Slots(retired + Rows(reinstated)))
    && (forall w :: w in retired ==>
          w.weight == 0.0 && w.ts == now && w.artefact.RetireFeed?
          && Causes(incidents, feeds, settings, now, w.artefact.feed, w.slot.desk))
    && (forall t: Triple :: t in Slots(retired) <==>
        Live(stored, t) && MustRetire(incidents, feeds, settings, now, t.desk))
    && (forall t :: t in Slots(Rows(reinstated)) <==> MustReinstate(incidents, feeds, settings, now, stored, t))
    && (forall w :: w in Rows(reinstated) ==>
          w.ts == now && w.artefact.ReinstateFeed?
          && Releases(incidents, feeds, settings, now, stored, w.artefact.recovered, w.slot))
    && (forall x :: x in reinstated ==> x.source != Fallback)
    && AsChosen(reinstated, shapley, stored, settings, now)
  }

  lemma ChosenBeforeRetirements(done: seq<Reinstated>, shapley: seq<ShapleyRow>, stored: seq<WeightRow>,
                                retired: seq<WeightRow>,
                                settings: Settings, now: int)
    requires AsChosen(done, shapley, stored + retired, settings, now) && forall w :: w in retired ==> w.weight == 0.0
    ensures AsChosen(done, shapley, stored, settings, now)
  {
    forall x | x in done ensures (x.row.weight, x.source) == Choice(shapley, stored, x.row.slot, settings, now) {
      ChoiceUnchanged(shapley, stored, retired, x.row.slot, settings, now);
    }
  }

  lemma RetiredExactly(incidents: seq<Incident>, feeds: seq<string>, candidates: seq<string>, settings: Settings,
                       stored: seq<WeightRow>, written: seq<WeightRow>, now: int)
    requires NewerThan(stored, now) && Retirements(incidents, candidates, stored, written, now)
    requires Cleared(incidents, candidates, stored + written)
    requires forall f :: f in candidates <==>
               f in feeds && MeetsRetirement(incidents, f, settings.lookbackDays, settings.threshold, now)
    ensures forall t: Triple :: t in Slots(written) <==>
              Live(stored, t) && MustRetire(incidents, feeds, settings, now, t.desk)
  {
    forall t: Triple ensures t in Slots(written) <==>
        Live(stored, t) && MustRetire(incidents, feeds, settings, now, t.desk) {
      LiveAfterRetirements(incidents, candidates, stored, written, now, t);
      if t in Slots(written) {
        var i :| 0 <= i < |written| && Slots(written)[i] == t;
        assert written[i] in written && written[i].slot == t;
        assert Affected(incidents, candidates, written[i].artefact.feed, t.desk);
        assert Causes(incidents, feeds, settings, now, written[i].artefact.feed, t.desk);
      }
      if Live(stored, t) && MustRetire(incidents, feeds, settings, now, t.desk) {
        var f :| Causes(incidents, feeds, settings, now, f, t.desk);
        assert Affected(incidents, candidates, f, t.desk);
      }
    }
  }

  lemma ReinstatedExactly(incidents: seq<Incident>, feeds: seq<string>, recovered: seq<string>, settings: Settings,
                          stored: seq<WeightRow>, middle: seq<WeightRow>, written: seq<WeightRow>, now: int)
    requires Ripe(recovered, middle, now) && Reinstatements(recovered, middle, written, now)
    requires forall t, f :: f in recovered ==> (Awaiting(middle, t, f) <==> Awaiting(stored, t, f))
    requires forall t, f :: f in recovered ==> !Awaiting(middle + written, t, f)
    requires forall f :: f in recovered <==> f in feeds && FeedHasRecovered(incidents, f, settings.recoveryDays, now)
    ensures forall t :: t in Slots(written) <==> MustReinstate(incidents, feeds, settings, now, stored, t)
  {
    ReinstatementsAreNewer(recovered, middle, written, now);
    forall t ensures t in Slots(written) <==> MustReinstate(incidents, feeds, settings, now, stored, t) {
      if t in Slots(written) {
        var i :| 0 <= i < |written| && Slots(written)[i] == t;
        assert written[i] in written && written[i].slot == t;
        assert Releases(incidents, feeds, settings, now, stored, written[i].artefact.recovered, t);
      }
      if MustReinstate(incidents, feeds, settings, now, stored, t) {
        var f :| Releases(incidents, feeds, settings, now, stored, f, t);
        AwaitingAfterReinstatements(recovered, middle, written, now, f, t);
      }
    }
  }

  lemma ReviewIsExact(incidents: seq<Incident>, shapley: seq<ShapleyRow>, feeds: seq<string>, candidates: seq<string>,
                      recovered: seq<string>, settings: Settings, now: int,
                      stored: seq<WeightRow>, retired: seq<WeightRow>, done: seq<Reinstated>)
    requires NewerThan(stored, now) && Retirements(incidents, candidates, stored, retired, now)
    requires Cleared(incidents, candidates, stored + retired)
    requires Ripe(recovered, stored + retired, now) && Reinstatements(recovered, stored + retired, Rows(done), now)
    requires forall t, f :: f in recovered ==> !Awaiting(stored + retired + Rows(done), t, f)
    requires forall t, f :: f in recovered ==> (Awaiting(stored + retired, t, f) <==> Awaiting(stored, t, f))
    requires forall f :: f in candidates <==>
               f in feeds && MeetsRetirement(incidents, f, settings.lookbackDays, settings.threshold, now)
    requires forall f :: f in recovered <==> f in feeds && FeedHasRecovered(incidents, f, settings.recoveryDays, now)
    requires AsChosen(done, shapley, stored + retired, settings, now) && forall x :: x in done ==> x.source != Fallback
    ensures ExactOutcome(incidents, shapley, feeds, settings, now, stored, retired, done)
  {
    PassesAreDisjoint(incidents, candidates, recovered, stored, retired, Rows(done), now);
    RetiredExactly(incidents, feeds, candidates, settings, stored, retired, now);
    ReinstatedExactly(incidents, feeds, recovered, settings, stored, stored + retired, Rows(done), now);
    ChosenBeforeRetirements(done, shapley, stored, retired, settings, now);
  }

  /** What is left of the cap after the retirements of the last seven days. */
  function Budget(stored: seq<WeightRow>, settings: Settings, now: int): nat {
    var already := CountRecentRetirements(stored, now - 7 * DAY, now);
    if settings.cap > already then settings.cap - already else 0
  }

  /** The budget is the cap less the distinct slots that feed retirements zeroed in the last seven days. */
  lemma BudgetMeaning(stored: seq<WeightRow>, settings: Settings, now: int)
    ensures var recent := set r | r in stored && r.artefact.RetireFeed? && r.weight == 0.0
                                  && now - 604800 <= r.ts && r.ts <= now :: r.slot;
            && (settings.cap >= |recent| ==> Budget(stored, settings, now) == settings.cap - |recent|)
            && (settings.cap <= |recent| ==> Budget(stored, settings, now) == 0)
  {
    assert (set r | r in stored && r.artefact.RetireFeed? && r.weight == 0.0
                    && now - 604800 <= r.ts && r.ts <= now :: r.slot) == RecentlyRetired(stored, now - 604800, now);
  }

  lemma BalancedLabels(t: Tally, written: seq<WeightRow>, budget: nat)
    requires Balanced(t, written, budget)
    ensures |t.performed| == Min(|written|, budget) && t.remaining == budget - |t.performed|
  {
  }

  /** What the postconditions of the two passes and the two selections amount to. */
  lemma ReviewOutcome(incidents: seq<Incident>, shapley: seq<ShapleyRow>, feeds: seq<string>, candidates: seq<string>,
                      recovered: seq<string>, settings: Settings, now: int, stored: seq<WeightRow>,
                      retired: seq<WeightRow>, done: seq<Reinstated>, aborted: Option<Error>)
    requires NewerThan(stored, now) && RetiredHadWeight(stored)
    requires Retirements(incidents, candidates, stored, retired, now)
    requires Cleared(incidents, candidates, stored + retired)
    requires forall f :: f in candidates <==>
               f in feeds && MeetsRetirement(incidents, f, settings.lookbackDays, settings.threshold, now)
    requires forall f :: f in recovered <==> f in feeds && FeedHasRecovered(incidents, f, settings.recoveryDays, now)
    requires Ripe(recovered, stored + retired, now) ==>
               Reinstatements(recovered, stored + retired, Rows(done), now)
                   && AsChosen(done, shapley, stored + retired, settings, now)
    requires Ripe(recovered, stored + retired, now) && Warranted(recovered, stored + retired, now) ==>
               aborted.None? && forall x :: x in done ==> x.source != Fallback
    requires Ripe(recovered, stored + retired, now) && aborted.None? ==>
               forall t, f :: f in recovered ==> !Awaiting(stored + retired + Rows(done), t, f)
    ensures aborted.None? && ExactOutcome(incidents, shapley, feeds, settings, now, stored, retired, done)
  {
    RetirementsLeaveRecovered(incidents, candidates, recovered, stored, retired, now);
    ReviewIsExact(incidents, shapley, feeds, candidates, recovered, settings, now, stored, retired, done);
  }

  /** The two passes, with the budget left for this review. */
  method ReviewPasses(db: Database, feeds: seq<string>, settings: Settings, now: int, budget: nat)
    returns (tally: Tally, aborted: Option<Error>, done: seq<Reinstated>)
    requires db.Valid()
    modifies db`weights
    ensures db.Valid() && db.weights == old(db.weights) + (tally.performed + tally.skipped + Rows(done))
    ensures Balanced(tally, tally.performed + tally.skipped, budget)
    ensures NewerThan(old(db.weights), now) ==>
              && aborted.None?
              && ExactOutcome(db.incidents, db.shapley, feeds, settings, now, old(db.weights),
                              tally.performed + tally.skipped, done)
  {
    ghost var stored := db.weights;
    var candidates := FeedsMeetingRetirementCriteria(db, feeds, settings.lookbackDays, settings.threshold, now);
    ghost var written;
    tally, written := RetirePass(db, candidates, now, budget);
    var recovered := FeedsEligibleForReinstatement(db, feeds, settings.recoveryDays, now);
    aborted, done := ReinstatePass(db, recovered, settings, now);
    Associates(stored, written, Rows(done));
    if NewerThan(stored, now) {
      ReviewOutcome(db.incidents, db.shapley, feeds, candidates, recovered, settings, now, stored, written, done,
                    aborted);
    }
  }

  /**
   feed_reliability_review_handler. The budget only labels rows: every row of the retirement pass is
   written, the first of them up to the budget as performed and the others as skipped. With now later
   than every stored row the outcome is exactly the one the rules name; since a feed retirement only
   ever zeroes a slot that carried weight, the conservative fallback weight is never used.
   */
  method FeedReliabilityReview(db: Database, feeds: seq<string>, settings: Settings, now: int) returns (o: Outcome)
    requires db.Valid()
    modifies db`weights
    ensures db.Valid()
    ensures o.MissingFeeds? <==> feeds == []
    ensures o.MissingFeeds? ==> db.weights == old(db.weights)
    ensures !o.MissingFeeds? ==>
              var retired := o.tally.performed + o.tally.skipped;
              var budget := Budget(old(db.weights), settings, now);
              && db.weights == old(db.weights) + (retired + Rows(o.reinstated))
              && |o.tally.performed| == Min(|retired|, budget)
              && o.tally.remaining == budget - |o.tally.performed|
    ensures !o.MissingFeeds? && NewerThan(old(db.weights), now) ==>
              && o.Reviewed?
              && ExactOutcome(db.incidents, db.shapley, feeds, settings, now, old(db.weights),
                              o.tally.performed + o.tally.skipped, o.reinstated)
  {
    if feeds == [] {
      return MissingFeeds;
    }
    var budget := Budget(db.weights, settings, now);
    var tally, aborted, done := ReviewPasses(db, feeds, settings, now, budget);
    BalancedLabels(tally, tally.performed + tally.skipped, budget);
    o := if aborted.None? then Reviewed(tally, done) else Aborted(aborted.value, tally, done);
  }
}
