/** The decision rule (controller/decision.py) and the day-one seeding (controller/cold_start.py). */
module Controllers {
  import opened Contracts
  import opened Sums
  import opened Dicts
  import opened WeightTable
  import opened Persistence

  type Book = Dict<Key, Forecast>

  function Clip(x: real, lo: real, hi: real): real {
    var raised := if x < lo then lo else x;
    if raised > hi then hi else raised
  }

  /** position_size: the scaled signal, clipped to the regime's limit. */
  function Position(p: ParamsRow, signal: real): real {
    Clip(p.k * signal, -p.limit, p.limit)
  }

  /** The scaled signal itself within the limits, the nearer limit beyond them, on the long and the short side. */
  ghost predicate Limited(position: real, scaled: real, limit: real) {
    && -limit <= position <= limit
    && (-limit <= scaled <= limit ==> position == scaled)
    && (scaled > limit ==> position == limit)
    && (scaled < -limit ==> position == -limit)
  }

  lemma PositionIsLimited(p: ParamsRow, signal: real)
    requires p.limit >= 0.0
    ensures Limited(Position(p, signal), p.k * signal, p.limit)
  {
    ClipIsLimited(p.k * signal, p.limit);
  }

  lemma ClipIsLimited(x: real, limit: real)
    requires limit >= 0.0
    ensures Limited(Clip(x, -limit, limit), x, limit)
  {
  }

  /** The forecast a row uses, unless it is missing, stale or weighted zero. */
  function Used(r: WeightRow, book: Book): Option<Forecast> {
    match Get(book, r.Key())
    case Some(f) => if f.stale || r.weight == 0.0 then None else Some(f)
    case None => None
  }

  function Contribution(r: WeightRow, book: Book): real {
    match Used(r, book)
    case Some(f) => r.weight * f.estimate
    case None => 0.0
  }

  /** Weighted sum over the rows whose forecast is used. */
  function CombinedSignal(rows: seq<WeightRow>, book: Book): real {
    Sum(rows, r => Contribution(r, book))
  }

  function InputIds(rows: seq<WeightRow>, book: Book): seq<string>
  {
    if rows == [] then []
    else InputIds(rows[..|rows| - 1], book)
         + match Used(rows[|rows| - 1], book) case Some(f) => [f.id] case None => []
  }

  /** The forecast ids recorded are those of the rows that contributed, and no others. */
  lemma {:induction false} InputIdsSpec(rows: seq<WeightRow>, book: Book, id: string)
    ensures id in InputIds(rows, book) <==>
            exists r :: r in rows && Used(r, book).Some? && Used(r, book).value.id == id
  {
    if rows != [] {
      var front, last := rows[..|rows| - 1], rows[|rows| - 1];
      InputIdsSpec(front, book, id);
      assert forall r :: r in rows <==> r in front || r == last by {
        assert rows == front + [last];
      }
    }
  }

  /** They are listed row by row. */
  lemma {:induction false} InputIdsInOrder(rows: seq<WeightRow>, more: seq<WeightRow>, book: Book)
    ensures InputIds(rows + more, book) == InputIds(rows, book) + InputIds(more, book)
  {
    if more == [] {
      assert rows + more == rows;
    } else {
      InputIdsInOrder(rows, more[..|more| - 1], book);
      assert (rows + more)[..|rows + more| - 1] == rows + more[..|more| - 1];
    }
  }

  /** One row more of the decision loop. */
  lemma SignalStep(rows: seq<WeightRow>, i: nat, book: Book)
    requires i < |rows|
    ensures CombinedSignal(rows[..i + 1], book) == CombinedSignal(rows[..i], book) + Contribution(rows[i], book)
    ensures InputIds(rows[..i + 1], book) == InputIds(rows[..i], book)
              + match Used(rows[i], book) case Some(f) => [f.id] case None => []
  {
    SumStep(rows, i, r => Contribution(r, book));
    assert rows[..i + 1][..i] == rows[..i];
  }

  /** The decision loop. */
  method Combine(rows: seq<WeightRow>, book: Book) returns (combined: real, inputs: seq<string>)
    ensures combined == CombinedSignal(rows, book)
    ensures inputs == InputIds(rows, book)
  {
    combined, inputs := 0.0, [];
    for i := 0 to |rows|
      invariant combined == CombinedSignal(rows[..i], book)
      invariant inputs == InputIds(rows[..i], book)
    {
      SignalStep(rows, i, book);
      match Used(rows[i], book) {
        case Some(f) =>
          combined := combined + rows[i].weight * f.estimate;
          inputs := inputs + [f.id];
        case None =>
      }
    }
    assert rows[..|rows|] == rows;
  }

  class Controller {
    const db: Database

    constructor (db: Database)
      ensures this.db == db
    {
      this.db := db;
    }

    method Decide(regime: string, book: Book) returns (d: Result<Decision>)
      ensures var rows, params := LatestWeights(db.weights, regime), LatestParams(db.params, regime);
              if params.None? || rows == [] then d == Raised(RuntimeError)
              else
                var signal := CombinedSignal(rows, book);
                d == Ok(Decision(regime, signal, Position(params.value, signal), InputIds(rows, book)))
      ensures d.Ok? ==>
                var p := LatestParams(db.params, regime).value;
                p.limit >= 0.0 ==> Limited(d.value.position, p.k * d.value.combined, p.limit)
    {
      var rows := LatestWeights(db.weights, regime);
      var params := LatestParams(db.params, regime);
      if params.None? || rows == [] {
        return Raised(RuntimeError);
      }
      var combined, inputs := Combine(rows, book);
      d := Ok(Decision(regime, combined, Position(params.value, combined), inputs));
      if params.value.limit >= 0.0 { PositionIsLimited(params.value, combined); }
    }
  }

  ghost predicate SeedRows(rows: seq<WeightRow>, uniform: real, boot: int) {
    forall w :: w in rows ==> w.weight == uniform && w.ts == boot && w.artefact == ColdStart
  }

  /** One parameter row per regime, in order. */
  ghost predicate SeedParams(params: seq<ParamsRow>, regimes: seq<string>, k: real, limit: real, boot: int) {
    && |params| == |regimes|
    && forall j :: 0 <= j < |regimes| ==> params[j] == ParamsRow(params[j].id, regimes[j], k, limit, boot)
  }

  /**
   seed_cold_start: the same weight for every desk in every regime, and one parameter row per regime. A
   negative limit is refused only when the first parameter row is built, after that regime's weights.
   */
  method SeedColdStart(db: Database, desks: seq<Key>, regimes: seq<string>, boot: int, limit: real, k: real)
    returns (r: Result<(seq<WeightRow>, seq<ParamsRow>)>)
    requires db.Schema()
    modifies db`weights, db`params
    ensures db.Schema() && (old(db.Valid()) ==> db.Valid())
    ensures r.Raised? <==> desks == [] || regimes == [] || limit < 0.0
    ensures r.Raised? ==> db.params == old(db.params)
    ensures desks == [] || regimes == [] ==> db.weights == old(db.weights)
    ensures r.Raised? && desks != [] && regimes != [] ==>
              && old(db.weights) <= db.weights
              && Slots(db.weights[|old(db.weights)|..]) == RegimeSlots(desks, regimes[0])
    ensures r.Ok? ==>
              && db.weights == old(db.weights) + r.value.0 && db.params == old(db.params) + r.value.1
              && Slots(r.value.0) == ColdStartSlots(desks, regimes)
              && (forall w :: w in r.value.0 ==>
                    w.weight == 1.0 / |desks| as real && w.ts == boot && w.artefact == ColdStart)
              && |r.value.1| == |regimes|
              && forall i :: 0 <= i < |regimes| ==>
                   r.value.1[i] == ParamsRow(r.value.1[i].id, regimes[i], k, limit, boot)
  {
    if desks == [] || regimes == [] {
      return Raised(ValueError);
    }
    var uniform := 1.0 / |desks| as real;
    var written: seq<WeightRow>, params: seq<ParamsRow> := [], [];
    for i := 0 to |regimes|
      invariant db.Schema() && (old(db.Valid()) ==> db.Valid())
      invariant limit < 0.0 ==> i == 0
      invariant db.weights == old(db.weights) + written && db.params == old(db.params) + params
      invariant Slots(written) == ColdStartSlots(desks, regimes[..i]) && SeedRows(written, uniform, boot)
      invariant SeedParams(params, regimes[..i], k, limit, boot)
    {
      var rows, p := SeedRegime(db, desks, regimes[i], uniform, boot, limit, k);
      ColdStartNext(desks, regimes, i, written, rows);
      if p.Raised? {
        Tail(old(db.weights), rows);
        return Raised(p.error);
      }
      written := written + rows;
      params := params + [p.value];
      assert regimes[..i + 1] == regimes[..i] + [regimes[i]];
    }
    assert regimes[..|regimes|] == regimes;
    r := Ok((written, params));
  }

  lemma Tail<T>(xs: seq<T>, ys: seq<T>)
    ensures xs <= xs + ys && (xs + ys)[|xs|..] == ys
  {
  }

  /** One regime: its weights, and then its parameters unless the limit is refused. */
  method SeedRegime(db: Database, desks: seq<Key>, regime: string, uniform: real, boot: int, limit: real, k: real)
    returns (rows: seq<WeightRow>, p: Result<ParamsRow>)
    requires db.Schema() && uniform >= 0.0
    modifies db`weights, db`params
    ensures db.Schema() && (old(db.Valid()) ==> db.Valid())
    ensures db.weights == old(db.weights) + rows
    ensures Slots(rows) == RegimeSlots(desks, regime) && SeedRows(rows, uniform, boot)
    ensures p.Raised? <==> limit < 0.0
    ensures p.Raised? ==> db.params == old(db.params)
    ensures p.Ok? ==> db.params == old(db.params) + [p.value]
                      && p.value == ParamsRow(p.value.id, regime, k, limit, boot)
  {
    rows := SeedWeights(db, desks, regime, uniform, boot);
    if limit < 0.0 {
      return rows, Raised(ValueError);
    }
    var row := db.WriteParams(regime, k, limit, boot);
    p := Ok(row);
  }

  lemma ColdStartNext(desks: seq<Key>, regimes: seq<string>, i: nat, written: seq<WeightRow>, rows: seq<WeightRow>)
    requires i < |regimes| && Slots(written) == ColdStartSlots(desks, regimes[..i])
    requires Slots(rows) == RegimeSlots(desks, regimes[i])
    ensures Slots(written + rows) == ColdStartSlots(desks, regimes[..i + 1])
    ensures i == 0 ==> written == []
  {
    assert Slots(written + rows) == Slots(written) + Slots(rows);
    assert regimes[..i + 1][..i] == regimes[..i];
  }

  method SeedWeights(db: Database, desks: seq<Key>, regime: string, uniform: real, boot: int)
    returns (written: seq<WeightRow>)
    requires db.Schema() && uniform >= 0.0
    modifies db`weights
    ensures db.Schema() && (old(db.Valid()) ==> db.Valid())
    ensures db.weights == old(db.weights) + written
    ensures Slots(written) == RegimeSlots(desks, regime)
    ensures SeedRows(written, uniform, boot)
  {
    written := [];
    for j := 0 to |desks|
      invariant db.Schema() && (old(db.Valid()) ==> db.Valid())
      invariant db.weights == old(db.weights) + written
      invariant Slots(written) == RegimeSlots(desks[..j], regime)
      invariant SeedRows(written, uniform, boot)
    {
      var slot := Triple(regime, desks[j].0, desks[j].1);
      var w := db.WriteWeight(slot, uniform, boot, ColdStart);
      assert Slots(written + [w]) == Slots(written) + [slot];
      assert RegimeSlots(desks[..j + 1], regime) == RegimeSlots(desks[..j], regime) + [slot];
      written := written + [w];
    }
    assert desks[..|desks|] == desks;
  }

  function RegimeSlots(desks: seq<Key>, regime: string): seq<Triple> {
    seq(|desks|, i requires 0 <= i < |desks| => Triple(regime, desks[i].0, desks[i].1))
  }

  /** One slot per regime and desk, regime by regime. */
  function ColdStartSlots(desks: seq<Key>, regimes: seq<string>): seq<Triple>
  {
    if regimes == [] then []
    else ColdStartSlots(desks, regimes[..|regimes| - 1]) + RegimeSlots(desks, regimes[|regimes| - 1])
  }

  /** The slot of the j-th desk in the i-th regime. */
  lemma {:induction false} ColdStartSlotAt(desks: seq<Key>, regimes: seq<string>, i: nat, j: nat)
    requires i < |regimes| && j < |desks|
    ensures |ColdStartSlots(desks, regimes)| == |regimes| * |desks| && i * |desks| + j < |regimes| * |desks|
    ensures ColdStartSlots(desks, regimes)[i * |desks| + j] == Triple(regimes[i], desks[j].0, desks[j].1)
  {
    var n := |regimes| - 1;
    ColdStartSize(desks, regimes);
    ColdStartSize(desks, regimes[..n]);
    if i < n {
      ColdStartSlotAt(desks, regimes[..n], i, j);
      assert (n + 1) * |desks| == n * |desks| + |desks|;
    }
  }

  lemma {:induction false} ColdStartSize(desks: seq<Key>, regimes: seq<string>)
    ensures |ColdStartSlots(desks, regimes)| == |regimes| * |desks|
  {
    if regimes != [] {
      ColdStartSize(desks, regimes[..|regimes| - 1]);
      assert |regimes| * |desks| == (|regimes| - 1) * |desks| + |desks|;
    }
  }

  /** The seed weights of one regime add up to one. */
  lemma SeedSumsToOne(rows: seq<WeightRow>)
    requires rows != [] && forall w :: w in rows ==> w.weight == 1.0 / |rows| as real
    ensures Sum(rows, (w: WeightRow) => w.weight) == 1.0
  {
    SumConstant(rows, 1.0 / |rows| as real, (w: WeightRow) => w.weight);
    TimesIsProduct(|rows|, 1.0 / |rows| as real);
  }
}
