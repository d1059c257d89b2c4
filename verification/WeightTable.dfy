/**
 The queries on signal_weights as functions of the stored rows in insertion order: the latest row of a slot,
 and the latest rows of a regime (persistence/db.py:562-600).
 */
module WeightTable {
  import opened Contracts
  import opened Combinatorics
  import opened Ordering

  /** ORDER BY promotion_ts_utc DESC, weight_id DESC. */
  predicate Newer(a: WeightRow, b: WeightRow) {
    a.ts > b.ts || (a.ts == b.ts && a.id > b.id)
  }

  /** weight_id is the primary key. */
  ghost predicate UniqueIds(rows: seq<WeightRow>) {
    forall i, j :: 0 <= i < j < |rows| ==> rows[i].id != rows[j].id
  }

  ghost predicate NonNegative(rows: seq<WeightRow>) {
    forall r :: r in rows ==> r.weight >= 0.0
  }

  ghost predicate HadWeight(rows: seq<WeightRow>, t: Triple) {
    exists q :: q in rows && q.slot == t && q.weight > 0.0
  }

  /** A feed retirement zeroes a slot only after it carried weight. */
  ghost predicate RetiredHadWeight(rows: seq<WeightRow>) {
    forall r :: r in rows && r.artefact.RetireFeed? ==> HadWeight(rows, r.slot)
  }

  /** The row numbered 1 in the partition of slot t. */
  function LatestOf(rows: seq<WeightRow>, t: Triple): Option<WeightRow>
  {
    if rows == [] then None
    else
      var earlier, r := LatestOf(rows[..|rows| - 1], t), rows[|rows| - 1];
      if r.slot == t && (earlier.None? || Newer(r, earlier.value)) then Some(r) else earlier
  }

  /** The read picks the newest row of the slot, whatever the insertion order. */
  lemma {:induction false} LatestIsNewest(rows: seq<WeightRow>, t: Triple)
    ensures LatestOf(rows, t).None? <==> forall r :: r in rows ==> r.slot != t
    ensures LatestOf(rows, t).Some? ==>
              var w := LatestOf(rows, t).value;
              w in rows && w.slot == t
              && forall r :: r in rows && r.slot == t ==> r.ts < w.ts || (r.ts == w.ts && r.id <= w.id)
  {
    if rows != [] {
      LatestIsNewest(rows[..|rows| - 1], t);
      assert rows == rows[..|rows| - 1] + [rows[|rows| - 1]];
    }
  }

  /** With distinct ids there is one newest row, and the read picks it. */
  lemma NewestIsRead(rows: seq<WeightRow>, t: Triple, w: WeightRow)
    requires UniqueIds(rows)
    ensures LatestOf(rows, t) == Some(w) <==>
            && w in rows && w.slot == t
            && forall r :: r in rows && r.slot == t ==> r.ts < w.ts || (r.ts == w.ts && r.id <= w.id)
  {
    LatestIsNewest(rows, t);
    if w in rows && w.slot == t
       && forall r :: r in rows && r.slot == t ==> r.ts < w.ts || (r.ts == w.ts && r.id <= w.id) {
      var v := LatestOf(rows, t).value;
      var i, j :| 0 <= i < |rows| && 0 <= j < |rows| && rows[i] == v && rows[j] == w;
      assert v.id == w.id;
    }
  }

  function Slots(rows: seq<WeightRow>): seq<Triple> {
    seq(|rows|, i requires 0 <= i < |rows| => rows[i].slot)
  }

  lemma SlotInSlots(rows: seq<WeightRow>, w: WeightRow)
    requires w in rows
    ensures w.slot in Slots(rows)
  {
    var i :| 0 <= i < |rows| && rows[i] == w;
    assert Slots(rows)[i] == w.slot;
  }

  /** Every slot with a row, in ascending order. */
  function AllSlots(rows: seq<WeightRow>): seq<Triple> {
    SortDistinct(TripleLess, Slots(rows))
  }

  lemma AllSlotsSpec(rows: seq<WeightRow>)
    ensures Ascending(TripleLess, AllSlots(rows)) && Distinct(AllSlots(rows))
    ensures forall t :: t in AllSlots(rows) <==> LatestOf(rows, t).Some?
  {
    TripleOrder();
    SortDistinctSpec(TripleLess, Slots(rows));
    forall t ensures t in AllSlots(rows) <==> LatestOf(rows, t).Some? {
      LatestIsNewest(rows, t);
      if t in Slots(rows) {
        var i :| 0 <= i < |rows| && Slots(rows)[i] == t;
        assert rows[i].slot == t;
      }
      if r :| r in rows && r.slot == t {
        var i :| 0 <= i < |rows| && rows[i] == r;
        assert Slots(rows)[i] == t;
      }
    }
  }

  function SlotsOfRegime(ts: seq<Triple>, regime: string): seq<Triple>
  {
    if ts == [] then []
    else (if ts[0].regime == regime then [ts[0]] else []) + SlotsOfRegime(ts[1..], regime)
  }

  lemma {:induction false} SlotsOfRegimeMember(ts: seq<Triple>, regime: string, t: Triple)
    ensures t in SlotsOfRegime(ts, regime) <==> t in ts && t.regime == regime
    ensures Distinct(ts) ==> Distinct(SlotsOfRegime(ts, regime))
  {
    if ts != [] {
      SlotsOfRegimeMember(ts[1..], regime, t);
      SlotsOfRegimeMember(ts[1..], regime, ts[0]);
      DistinctTail(ts);
      var rest := SlotsOfRegime(ts[1..], regime);
      if ts[0].regime == regime {
        DistinctTail([ts[0]] + rest);
        assert ([ts[0]] + rest)[1..] == rest;
      }
    }
  }

  /** The latest rows of the given slots, in order. */
  function ReadSlots(rows: seq<WeightRow>, ts: seq<Triple>): seq<WeightRow>
  {
    if ts == [] then []
    else (match LatestOf(rows, ts[0]) case Some(r) => [r] case None => []) + ReadSlots(rows, ts[1..])
  }

  /** get_latest_signal_weights: the latest row of each (desk, target) of the regime, ordered by key. */
  function LatestWeights(rows: seq<WeightRow>, regime: string): seq<WeightRow> {
    ReadSlots(rows, SlotsOfRegime(AllSlots(rows), regime))
  }

  lemma {:induction false} ReadSlotsSpec(rows: seq<WeightRow>, ts: seq<Triple>)
    requires forall t :: t in ts ==> LatestOf(rows, t).Some?
    ensures Slots(ReadSlots(rows, ts)) == ts
    ensures forall r :: r in ReadSlots(rows, ts) ==> LatestOf(rows, r.slot) == Some(r)
  {
    if ts != [] {
      ReadSlotsSpec(rows, ts[1..]);
      LatestIsNewest(rows, ts[0]);
      var r, rest := LatestOf(rows, ts[0]).value, ReadSlots(rows, ts[1..]);
      assert Slots([r] + rest) == [r.slot] + Slots(rest);
    }
  }

  /** Rows that are the latest of their own slots are what reading those slots returns. */
  lemma {:induction false} ReadSlotsUnique(rows: seq<WeightRow>, xs: seq<WeightRow>)
    requires forall r :: r in xs ==> LatestOf(rows, r.slot) == Some(r)
    ensures ReadSlots(rows, Slots(xs)) == xs
  {
    if xs != [] {
      ReadSlotsUnique(rows, xs[1..]);
      assert Slots(xs)[1..] == Slots(xs[1..]);
      assert xs == [xs[0]] + xs[1..];
    }
  }

  /** The read returns exactly the latest row of each slot of the regime, once each. */
  lemma LatestWeightsSpec(rows: seq<WeightRow>, regime: string)
    ensures Slots(LatestWeights(rows, regime)) == SlotsOfRegime(AllSlots(rows), regime)
    ensures Distinct(Slots(LatestWeights(rows, regime)))
    ensures forall r :: r in LatestWeights(rows, regime) <==>
              r.slot.regime == regime && LatestOf(rows, r.slot) == Some(r)
  {
    AllSlotsSpec(rows);
    var ts := SlotsOfRegime(AllSlots(rows), regime);
    forall t ensures t in ts <==> t in AllSlots(rows) && t.regime == regime {
      SlotsOfRegimeMember(AllSlots(rows), regime, t);
    }
    if ts != [] { SlotsOfRegimeMember(AllSlots(rows), regime, ts[0]); }
    ReadSlotsSpec(rows, ts);
    var read := LatestWeights(rows, regime);
    forall r ensures r in read <==> r.slot.regime == regime && LatestOf(rows, r.slot) == Some(r) {
      if r in read {
        var i :| 0 <= i < |read| && read[i] == r;
        assert Slots(read)[i] == r.slot;
      }
      if r.slot.regime == regime && LatestOf(rows, r.slot) == Some(r) {
        var i :| 0 <= i < |ts| && ts[i] == r.slot;
        assert Slots(read)[i] == read[i].slot;
      }
    }
  }

  lemma {:induction false} RegimeAscending(ts: seq<Triple>, regime: string)
    requires Ascending(TripleLess, ts)
    ensures Ascending(TripleLess, SlotsOfRegime(ts, regime))
  {
    if ts != [] {
      var rest := SlotsOfRegime(ts[1..], regime);
      RegimeAscending(ts[1..], regime);
      forall j | 0 <= j < |rest| ensures TripleLess(ts[0], rest[j]) {
        SlotsOfRegimeMember(ts[1..], regime, rest[j]);
      }
    }
  }

  /** The read is ordered by desk, then by target. */
  lemma LatestWeightsOrdered(rows: seq<WeightRow>, regime: string, i: nat, j: nat)
    requires i < j < |LatestWeights(rows, regime)|
    ensures var a, b := LatestWeights(rows, regime)[i].slot, LatestWeights(rows, regime)[j].slot;
            StringLess(a.desk, b.desk) || (a.desk == b.desk && StringLess(a.target, b.target))
  {
    var read := LatestWeights(rows, regime);
    LatestWeightsSpec(rows, regime);
    AllSlotsSpec(rows);
    RegimeAscending(AllSlots(rows), regime);
    assert Slots(read)[i] == read[i].slot && Slots(read)[j] == read[j].slot;
    assert read[i] in read && read[j] in read;
    StringIrreflexive(regime);
    assert TripleLess(read[i].slot, read[j].slot);
  }

  // ----- appending rows

  /** Each added row is later than every stored row of its slot. */
  ghost predicate AllNewer(added: seq<WeightRow>, rows: seq<WeightRow>) {
    forall w, r :: w in added && r in rows && w.slot == r.slot ==> w.ts > r.ts
  }

  /** After appending newer rows, one per slot, exactly those slots read the new rows. */
  lemma {:induction false} LatestAfterAppend(rows: seq<WeightRow>, added: seq<WeightRow>, t: Triple)
    requires AllNewer(added, rows) && Distinct(Slots(added))
    ensures t !in Slots(added) ==> LatestOf(rows + added, t) == LatestOf(rows, t)
    ensures forall w :: w in added && w.slot == t ==> LatestOf(rows + added, t) == Some(w)
  {
    if added == [] {
      assert rows + added == rows;
    } else {
      var front, last := added[..|added| - 1], added[|added| - 1];
      assert Slots(front) == Slots(added)[..|front|];
      LatestAfterAppend(rows, front, t);
      assert (rows + added)[..|rows + added| - 1] == rows + front;
      assert added == front + [last];
      assert Slots(added)[|front|] == last.slot;
      forall i | 0 <= i < |front| ensures Slots(added)[i] == front[i].slot != last.slot {
      }
      if last.slot == t {
        assert t !in Slots(front);
        LatestIsNewest(rows, t);
        forall w | w in front ensures w.slot != t {
          SlotInSlots(front, w);
        }
        assert last in added;
      } else {
        assert t in Slots(added) <==> t in Slots(front) by {
          assert Slots(added) == Slots(front) + [last.slot];
        }
      }
    }
  }

  /** Rewriting every key of a regime with newer rows makes the next read return exactly those rows, in order. */
  lemma RewriteIsRead(rows: seq<WeightRow>, added: seq<WeightRow>, regime: string)
    requires AllNewer(added, rows) && Slots(added) == Slots(LatestWeights(rows, regime))
    ensures LatestWeights(rows + added, regime) == added
  {
    LatestWeightsSpec(rows, regime);
    AllSlotsSpec(rows);
    AllSlotsSpec(rows + added);
    TripleOrder();
    forall t ensures t in AllSlots(rows + added) <==> t in AllSlots(rows) {
      LatestAfterAppend(rows, added, t);
      if t in Slots(added) {
        SlotsOfRegimeMember(AllSlots(rows), regime, t);
        var i :| 0 <= i < |added| && Slots(added)[i] == t;
        assert added[i].slot == t;
      }
    }
    AscendingUnique(TripleLess, AllSlots(rows + added), AllSlots(rows));
    forall w | w in added ensures LatestOf(rows + added, w.slot) == Some(w) {
      LatestAfterAppend(rows, added, w.slot);
    }
    ReadSlotsUnique(rows + added, added);
  }
}
