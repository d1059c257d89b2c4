/** Retiring and reinstating desks (research_loop/remediation.py). */
module Remediation {
  import opened Contracts
  import opened Combinatorics
  import opened Sums
  import opened Dicts
  import opened Ordering
  import opened WeightTable
  import opened Persistence
  import opened Controllers
  import opened Attribution

  /** The slot's latest weight is positive. */
  predicate Live(rows: seq<WeightRow>, t: Triple) {
    LatestOf(rows, t).Some? && LatestOf(rows, t).value.weight > 0.0
  }

  /** Live means that the newest row of the slot has a positive weight. */
  lemma LiveMeaning(rows: seq<WeightRow>, t: Triple)
    requires UniqueIds(rows)
    ensures Live(rows, t) <==>
            exists w :: w in rows && w.slot == t && w.weight > 0.0
                        && forall r :: r in rows && r.slot == t ==> r.ts < w.ts || (r.ts == w.ts && r.id <= w.id)
  {
    if Live(rows, t) { NewestIsRead(rows, t, LatestOf(rows, t).value); }
    if w :| w in rows && w.slot == t && w.weight > 0.0
            && forall r :: r in rows && r.slot == t ==> r.ts < w.ts || (r.ts == w.ts && r.id <= w.id) {
      NewestIsRead(rows, t, w);
    }
  }

  /** _regimes_with_nonzero_weight, as the slots of the (desk, target) pair in ascending regime order. */
  function LiveSlots(rows: seq<WeightRow>, ts: seq<Triple>, desk: string, target: string): seq<Triple>
  {
    if ts == [] then []
    else (if ts[0].desk == desk && ts[0].target == target && Live(rows, ts[0]) then [ts[0]] else [])
         + LiveSlots(rows, ts[1..], desk, target)
  }

  lemma {:induction false} LiveSlotsMember(rows: seq<WeightRow>, ts: seq<Triple>, desk: string, target: string,
                                           t: Triple)
    ensures t in LiveSlots(rows, ts, desk, target) <==> t in ts && t.desk == desk && t.target == target && Live(rows, t)
    ensures Distinct(ts) ==> Distinct(LiveSlots(rows, ts, desk, target))
  {
    if ts != [] {
      var rest := LiveSlots(rows, ts[1..], desk, target);
      LiveSlotsMember(rows, ts[1..], desk, target, t);
      LiveSlotsMember(rows, ts[1..], desk, target, ts[0]);
      DistinctTail(ts);
      DistinctTail([ts[0]] + rest);
      assert ([ts[0]] + rest)[1..] == rest;
      assert t in ts <==> t == ts[0] || t in ts[1..];
    }
  }

  function SlotsToRetire(rows: seq<WeightRow>, desk: string, target: string): seq<Triple> {
    LiveSlots(rows, AllSlots(rows), desk, target)
  }

  /** The regimes found are exactly those whose latest weight for the pair is positive, each once. */
  lemma SlotsToRetireSpec(rows: seq<WeightRow>, desk: string, target: string)
    ensures Distinct(SlotsToRetire(rows, desk, target))
    ensures forall t :: t in SlotsToRetire(rows, desk, target) <==>
              t.desk == desk && t.target == target && Live(rows, t)
  {
    AllSlotsSpec(rows);
    LiveSlotsMember(rows, AllSlots(rows), desk, target, Triple("", desk, target));
    forall t ensures t in SlotsToRetire(rows, desk, target) <==> t.desk == desk && t.target == target && Live(rows, t) {
      LiveSlotsMember(rows, AllSlots(rows), desk, target, t);
    }
  }

  lemma {:induction false} LiveSlotsAscending(rows: seq<WeightRow>, ts: seq<Triple>, desk: string, target: string)
    requires Ascending(TripleLess, ts)
    ensures Ascending(TripleLess, LiveSlots(rows, ts, desk, target))
  {
    if ts != [] {
      var rest := LiveSlots(rows, ts[1..], desk, target);
      LiveSlotsAscending(rows, ts[1..], desk, target);
      forall j | 0 <= j < |rest| ensures TripleLess(ts[0], rest[j]) {
        LiveSlotsMember(rows, ts[1..], desk, target, rest[j]);
      }
    }
  }

  /** They are retired in the order of their regimes. */
  lemma RetiredInOrder(rows: seq<WeightRow>, desk: string, target: string, i: nat, j: nat)
    requires i < j < |SlotsToRetire(rows, desk, target)|
    ensures StringLess(SlotsToRetire(rows, desk, target)[i].regime, SlotsToRetire(rows, desk, target)[j].regime)
  {
    var slots := SlotsToRetire(rows, desk, target);
    AllSlotsSpec(rows);
    LiveSlotsAscending(rows, AllSlots(rows), desk, target);
    SlotsToRetireSpec(rows, desk, target);
    assert slots[i] in slots && slots[j] in slots;
    StringIrreflexive(desk);
    StringIrreflexive(target);
    assert TripleLess(slots[i], slots[j]);
  }

  /** retire_desk_for_regime: one zero row. */
  method RetireDeskForRegime(db: Database, slot: Triple, reason: string, now: int) returns (w: WeightRow)
    requires db.Schema()
    modifies db`weights
    ensures db.Schema() && (old(db.Valid()) ==> db.Valid())
    ensures db.weights == old(db.weights) + [w]
    ensures w == WeightRow(w.id, slot, 0.0, now, RetireHarmful(reason))
  {
    w := db.WriteWeight(slot, 0.0, now, RetireHarmful(reason));
  }

  /** retire_desk_for_all_regimes: one zero row for every slot of the pair that was live. */
  method RetireDeskForAllRegimes(db: Database, desk: string, target: string, feed: string, now: int)
    returns (written: seq<WeightRow>)
    requires db.Schema()
    modifies db`weights
    ensures db.Schema() && (old(db.Valid()) ==> db.Valid())
    ensures db.weights == old(db.weights) + written
    ensures Slots(written) == SlotsToRetire(old(db.weights), desk, target)
    ensures forall w :: w in written ==> w.weight == 0.0 && w.ts == now && w.artefact == RetireFeed(feed)
  {
    var slots := SlotsToRetire(db.weights, desk, target);
    SlotsToRetireSpec(db.weights, desk, target);
    written := [];
    for i := 0 to |slots|
      invariant db.Schema() && (old(db.Valid()) ==> db.Valid())
      invariant db.weights == old(db.weights) + written
      invariant Slots(written) == slots[..i]
      invariant forall w :: w in written ==> w.weight == 0.0 && w.ts == now && w.artefact == RetireFeed(feed)
    {
      LatestIsNewest(old(db.weights), slots[i]);
      assert slots[i] in slots && LatestOf(old(db.weights), slots[i]).value in db.weights;
      var w := db.WriteWeight(slots[i], 0.0, now, RetireFeed(feed));
      assert Slots(written + [w]) == Slots(written) + [slots[i]];
      written := written + [w];
    }
    assert slots[..|slots|] == slots;
  }

  /** reinstate_desk_direct; a negative weight is refused before anything is written. */
  method ReinstateDeskDirect(db: Database, slot: Triple, weight: real, feed: string,
                             now: int) returns (r: Result<WeightRow>)
    requires db.Schema()
    modifies db`weights
    ensures db.Schema() && (old(db.Valid()) ==> db.Valid())
    ensures r.Raised? <==> weight < 0.0
    ensures r.Raised? ==> db.weights == old(db.weights)
    ensures r.Ok? ==> db.weights == old(db.weights) + [r.value]
                      && r.value == WeightRow(r.value.id, slot, weight, now, ReinstateFeed(feed))
  {
    if weight < 0.0 {
      return Raised(ValueError);
    }
    var w := db.WriteWeight(slot, weight, now, ReinstateFeed(feed));
    r := Ok(w);
  }

  // ----- a retired desk is a left-out desk

  /** What an all-regimes retirement writes. */
  ghost predicate IsRetirement(before: seq<WeightRow>, written: seq<WeightRow>, desk: string, target: string) {
    && Slots(written) == SlotsToRetire(before, desk, target)
    && AllNewer(written, before)
    && forall w :: w in written ==> w.weight == 0.0
  }

  /** Every other slot reads as before; the retired pair's slots read zero or nothing. */
  lemma RetirementReads(before: seq<WeightRow>, written: seq<WeightRow>, desk: string, target: string, t: Triple)
    requires IsRetirement(before, written, desk, target) && NonNegative(before)
    ensures t.desk != desk || t.target != target ==> LatestOf(before + written, t) == LatestOf(before, t)
    ensures t.desk == desk && t.target == target && LatestOf(before, t).Some? ==>
              LatestOf(before + written, t).Some? && LatestOf(before + written, t).value.weight == 0.0
    ensures LatestOf(before + written, t).Some? <==> LatestOf(before, t).Some?
  {
    SlotsToRetireSpec(before, desk, target);
    LatestAfterAppend(before, written, t);
    LatestIsNewest(before, t);
    if t in SlotsToRetire(before, desk, target) {
      var i :| 0 <= i < |written| && Slots(written)[i] == t;
      assert written[i] in written && written[i].slot == t;
    } else {
      assert t !in Slots(written);
    }
  }

  lemma RetirementKeepsSlots(before: seq<WeightRow>, written: seq<WeightRow>, desk: string, target: string,
                             regime: string)
    requires IsRetirement(before, written, desk, target) && NonNegative(before)
    ensures Slots(LatestWeights(before + written, regime)) == Slots(LatestWeights(before, regime))
  {
    TripleOrder();
    AllSlotsSpec(before);
    AllSlotsSpec(before + written);
    forall t ensures t in AllSlots(before + written) <==> t in AllSlots(before) {
      RetirementReads(before, written, desk, target, t);
    }
    AscendingUnique(TripleLess, AllSlots(before + written), AllSlots(before));
    LatestWeightsSpec(before, regime);
    LatestWeightsSpec(before + written, regime);
  }

  /** Skipping a zero weight or multiplying by it comes to the same. */
  lemma ZeroWeightAddsNothing(r: WeightRow, book: Book)
    ensures Contribution(r, book) == Counterfactual(book, None)(r)
  {
  }

  /** A row's contribution, unless it is the pair's. */
  ghost function WithoutPair(book: Book, desk: string, target: string): WeightRow -> real {
    (r: WeightRow) => if r.Key() == (desk, target) then 0.0 else Contribution(r, book)
  }

  /** After a retirement the Controller computes the sum without the pair's row. */
  lemma RetirementSignal(before: seq<WeightRow>, written: seq<WeightRow>, desk: string, target: string, regime: string,
                         book: Book)
    requires IsRetirement(before, written, desk, target) && NonNegative(before)
    ensures CombinedSignal(LatestWeights(before + written, regime), book)
         == Sum(LatestWeights(before, regime), WithoutPair(book, desk, target))
  {
    var xs, ys := LatestWeights(before + written, regime), LatestWeights(before, regime);
    RetirementKeepsSlots(before, written, desk, target, regime);
    LatestWeightsSpec(before, regime);
    LatestWeightsSpec(before + written, regime);
    assert |xs| == |Slots(xs)| == |Slots(ys)| == |ys|;
    var f, g := x => Contribution(x, book), WithoutPair(book, desk, target);
    forall i | 0 <= i < |xs| ensures f(xs[i]) == g(ys[i]) {
      assert Slots(xs)[i] == Slots(ys)[i];
      assert xs[i] in xs && ys[i] in ys && xs[i].slot == ys[i].slot;
      RetirementReads(before, written, desk, target, xs[i].slot);
      if xs[i].Key() == (desk, target) {
        assert xs[i].weight == 0.0;
      } else {
        assert LatestOf(before + written, xs[i].slot) == Some(xs[i]);
        assert LatestOf(before, ys[i].slot) == Some(ys[i]);
      }
    }
    SumPointwise(xs, ys, f, g);
  }

  /** No other row of the desk carries weight. */
  ghost predicate OnlyPairWeighted(rows: seq<WeightRow>, desk: string, target: string) {
    forall r :: r in rows && r.slot.desk == desk && r.slot.target != target ==> r.weight == 0.0
  }

  lemma PairIsDesk(rows: seq<WeightRow>, desk: string, target: string, book: Book)
    requires OnlyPairWeighted(rows, desk, target)
    ensures Sum(rows, WithoutPair(book, desk, target)) == CounterfactualSignal(rows, book, Some(desk))
  {
    forall r | r in rows ensures WithoutPair(book, desk, target)(r) == Counterfactual(book, Some(desk))(r) {
      ZeroWeightAddsNothing(r, book);
    }
    SumCongruence(rows, WithoutPair(book, desk, target), Counterfactual(book, Some(desk)));
  }

  /** A fresh forecast of 1 for one row only. */
  function RowBook(r: WeightRow): Book {
    [(r.Key(), Forecast("f", 1.0, false))]
  }

  lemma InRowBook(r: WeightRow, q: WeightRow)
    ensures Contribution(q, RowBook(r)) == if q.Key() == r.Key() then q.weight else 0.0
  {
    var f := Forecast("f", 1.0, false);
    GetSingle(r.Key(), f, q.Key());
    assert Used(q, RowBook(r)) == if q.Key() == r.Key() && q.weight != 0.0 then Some(f) else None;
  }

  lemma OtherRowShows(rows: seq<WeightRow>, desk: string, target: string, k: nat)
    requires k < |rows| && rows[k].Key() != (desk, target)
    requires forall i :: 0 <= i < |rows| && i != k ==> rows[i].Key() != rows[k].Key()
    ensures Sum(rows, WithoutPair(RowBook(rows[k]), desk, target)) == rows[k].weight
  {
    var f := WithoutPair(RowBook(rows[k]), desk, target);
    forall i | 0 <= i < |rows| ensures f(rows[i]) == if i == k then rows[k].weight else 0.0 {
      InRowBook(rows[k], rows[i]);
    }
    SumOnly(rows, k, f);
  }

  lemma LeftOutHides(rows: seq<WeightRow>, r: WeightRow)
    ensures CounterfactualSignal(rows, RowBook(r), Some(r.slot.desk)) == 0.0
  {
    var g := Counterfactual(RowBook(r), Some(r.slot.desk));
    forall q | q in rows ensures g(q) == 0.0 {
      GetSingle(r.Key(), Forecast("f", 1.0, false), q.Key());
    }
    SumConstant(rows, 0.0, g);
    TimesIsProduct(|rows|, 0.0);
  }

  lemma OneRowPerKey(stored: seq<WeightRow>, regime: string, k: nat)
    requires k < |LatestWeights(stored, regime)|
    ensures var rows := LatestWeights(stored, regime);
            forall i :: 0 <= i < |rows| && i != k ==> rows[i].Key() != rows[k].Key()
  {
    var rows := LatestWeights(stored, regime);
    LatestWeightsSpec(stored, regime);
    forall i | 0 <= i < |rows| && i != k ensures rows[i].Key() != rows[k].Key() {
      assert rows[i] in rows && rows[k] in rows;
      assert Slots(rows)[i] != Slots(rows)[k];
    }
  }

  /**
   A retired pair acts like a left-out desk, for every book, exactly in the regimes where no other row of
   the desk carries weight.
   */
  lemma RetiredIsLeftOutIff(before: seq<WeightRow>, written: seq<WeightRow>, desk: string, target: string,
                            regime: string)
    requires IsRetirement(before, written, desk, target) && NonNegative(before)
    ensures (forall book :: CombinedSignal(LatestWeights(before + written, regime), book)
                         == CounterfactualSignal(LatestWeights(before, regime), book, Some(desk)))
            <==> OnlyPairWeighted(LatestWeights(before, regime), desk, target)
  {
    var rows := LatestWeights(before, regime);
    forall book ensures CombinedSignal(LatestWeights(before + written, regime), book)
                     == Sum(rows, WithoutPair(book, desk, target)) {
      RetirementSignal(before, written, desk, target, regime, book);
    }
    if OnlyPairWeighted(rows, desk, target) {
      forall book ensures CombinedSignal(LatestWeights(before + written, regime), book)
                       == CounterfactualSignal(rows, book, Some(desk)) {
        PairIsDesk(rows, desk, target, book);
      }
    } else {
      var k :| 0 <= k < |rows| && rows[k].slot.desk == desk && rows[k].slot.target != target && rows[k].weight != 0.0;
      OneRowPerKey(before, regime, k);
      OtherRowShows(rows, desk, target, k);
      LeftOutHides(rows, rows[k]);
      assert CombinedSignal(LatestWeights(before + written, regime), RowBook(rows[k]))
          != CounterfactualSignal(rows, RowBook(rows[k]), Some(desk));
    }
  }

  /** In particular where the pair is the desk's only row. */
  lemma RetiredIsLeftOut(before: seq<WeightRow>, written: seq<WeightRow>, desk: string, target: string, regime: string,
                         book: Book)
    requires IsRetirement(before, written, desk, target) && NonNegative(before)
    requires forall r :: r in LatestWeights(before, regime) && r.slot.desk == desk ==> r.slot.target == target
    ensures CombinedSignal(LatestWeights(before + written, regime), book)
            == CounterfactualSignal(LatestWeights(before, regime), book, Some(desk))
  {
    RetirementSignal(before, written, desk, target, regime, book);
    PairIsDesk(LatestWeights(before, regime), desk, target, book);
  }

  /** The retired desk's forecast id is no longer recorded. */
  lemma RetiredIdIsOmitted(before: seq<WeightRow>, written: seq<WeightRow>, desk: string, target: string,
                           regime: string, book: Book)
    requires IsRetirement(before, written, desk, target) && NonNegative(before)
    requires Get(book, (desk, target)).Some?
    requires forall i, j :: 0 <= i < |book| && 0 <= j < |book| && book[i].1.id == book[j].1.id ==>
               book[i].0 == book[j].0
    ensures Get(book, (desk, target)).value.id !in InputIds(LatestWeights(before + written, regime), book)
  {
    var id, rows := Get(book, (desk, target)).value.id, LatestWeights(before + written, regime);
    InputIdsSpec(rows, book, id);
    LatestWeightsSpec(before + written, regime);
    GetMember(book, (desk, target));
    forall r | r in rows && Used(r, book).Some? ensures Used(r, book).value.id != id {
      GetMember(book, r.Key());
      RetirementReads(before, written, desk, target, r.slot);
      if r.Key() != (desk, target) {
        var i :| 0 <= i < |book| && book[i] == ((desk, target), Get(book, (desk, target)).value);
        var j :| 0 <= j < |book| && book[j] == (r.Key(), Used(r, book).value);
      }
    }
  }
}
