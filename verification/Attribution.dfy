/** The value functions of a decision, and leave-one-out rows (attribution/lodo.py). */
module Attribution {
  import opened Contracts
  import opened Combinatorics
  import opened Sums
  import opened Dicts
  import opened WeightTable
  import opened Persistence
  import opened Controllers
  import opened ShapleyTheory
  import opened Shapley
  import opened ShapleyAxioms

  // ----- value functions

  function DeskNames(rows: seq<WeightRow>): seq<string> {
    seq(|rows|, i requires 0 <= i < |rows| => rows[i].slot.desk)
  }

  function Included(book: Book, s: set<string>): WeightRow -> real {
    (r: WeightRow) => if r.slot.desk in s then Contribution(r, book) else 0.0
  }

  function CoalitionSignal(rows: seq<WeightRow>, book: Book, s: set<string>): real {
    Sum(rows, Included(book, s))
  }

  method CoalitionCombinedSignal(rows: seq<WeightRow>, book: Book, s: set<string>) returns (combined: real)
    ensures combined == CoalitionSignal(rows, book, s)
  {
    combined := 0.0;
    for i := 0 to |rows|
      invariant combined == Sum(rows[..i], Included(book, s))
    {
      SumStep(rows, i, Included(book, s));
      if rows[i].slot.desk !in s { continue; }
      match Get(book, rows[i].Key()) {
        case None => continue;
        case Some(f) =>
          if f.stale || rows[i].weight == 0.0 { continue; }
          combined := combined + rows[i].weight * f.estimate;
      }
    }
    assert rows[..|rows|] == rows;
  }

  /** v(S) = the position the Controller would take on the desks of S. */
  function PositionValue(rows: seq<WeightRow>, book: Book, p: ParamsRow): Value {
    s => Position(p, CoalitionSignal(rows, book, s))
  }

  function Square(x: real): real {
    x * x
  }

  function NegatedSquare(x: real): real {
    -Square(x)
  }

  /** v(S) = minus the squared error of the coalition's signal against the print. */
  function GradingValue(rows: seq<WeightRow>, book: Book, print_: real): Value {
    s => NegatedSquare(CoalitionSignal(rows, book, s) - print_)
  }

  /** The non-stale estimates of the desks of S, in the book's order. */
  function ActiveValues(book: Book, s: set<string>): seq<real>
  {
    if book == [] then []
    else (if book[0].0.0 in s && !book[0].1.stale then [book[0].1.estimate] else []) + ActiveValues(book[1..], s)
  }

  function NormalizedSignal(book: Book, s: set<string>): real {
    var xs := ActiveValues(book, s);
    if xs == [] then 0.0 else Average(Sum(xs, x => x), |xs|)
  }

  function NormalizedValue(book: Book, print_: real): Value {
    s => NegatedSquare(NormalizedSignal(book, s) - print_)
  }

  ghost function ActiveEstimate(s: set<string>): ((Key, Forecast)) -> real {
    (e: (Key, Forecast)) => if e.0.0 in s && !e.1.stale then e.1.estimate else 0.0
  }

  ghost function ActiveOne(s: set<string>): ((Key, Forecast)) -> real {
    (e: (Key, Forecast)) => if e.0.0 in s && !e.1.stale then 1.0 else 0.0
  }

  lemma {:induction false} ActiveSums(book: Book, s: set<string>)
    ensures Sum(ActiveValues(book, s), x => x) == Sum(book, ActiveEstimate(s))
    ensures |ActiveValues(book, s)| as real == Sum(book, ActiveOne(s))
  {
    if book != [] {
      ActiveSums(book[1..], s);
      var head: seq<real> := if book[0].0.0 in s && !book[0].1.stale then [book[0].1.estimate] else [];
      SumAppend(head, ActiveValues(book[1..], s), x => x);
    }
  }

  /** The normalized signal is the mean estimate: times the number of active forecasts it is their sum. */
  lemma NormalizedSignalIsMean(book: Book, s: set<string>)
    ensures NormalizedSignal(book, s) * Sum(book, ActiveOne(s)) == Sum(book, ActiveEstimate(s))
    ensures Sum(book, ActiveOne(s)) == 0.0 ==> NormalizedSignal(book, s) == 0.0
  {
    ActiveSums(book, s);
    var xs := ActiveValues(book, s);
    if xs != [] { AverageTimes(Sum(xs, x => x), |xs|); }
  }

  lemma AverageTimes(total: real, n: nat)
    requires n > 0
    ensures Average(total, n) * n as real == total
  {
  }

  // ----- where the sampled walks start

  lemma {:induction false} EmptyCoalitionSignal(rows: seq<WeightRow>, book: Book)
    ensures CoalitionSignal(rows, book, {}) == 0.0
  {
    SumConstant(rows, 0.0, Included(book, {}));
    TimesIsProduct(|rows|, 0.0);
  }

  lemma {:induction false} NobodyActive(book: Book)
    ensures ActiveValues(book, {}) == []
  {
    if book != [] { NobodyActive(book[1..]); }
  }

  /** The constants the three sampled functions start from are the values of the empty coalition. */
  lemma StartingValues(rows: seq<WeightRow>, book: Book, p: ParamsRow, print_: real)
    requires p.limit >= 0.0
    ensures PositionValue(rows, book, p)({}) == 0.0
    ensures GradingValue(rows, book, print_)({}) == NegatedSquare(print_)
    ensures NormalizedValue(book, print_)({}) == NegatedSquare(print_)
  {
    EmptyCoalitionSignal(rows, book);
    NobodyActive(book);
    assert p.k * 0.0 == 0.0;
    assert (0.0 - print_) * (0.0 - print_) == print_ * print_;
  }

  // ----- the grand coalition is the Controller

  /** With every desk included the coalition's signal is the Controller's. */
  lemma GrandCoalitionIsController(rows: seq<WeightRow>, book: Book)
    ensures CoalitionSignal(rows, book, Elements(DeskNames(rows))) == CombinedSignal(rows, book)
  {
    forall r | r in rows ensures r.slot.desk in Elements(DeskNames(rows)) {
      var i :| 0 <= i < |rows| && rows[i] == r;
      assert DeskNames(rows)[i] == r.slot.desk;
    }
    SumCongruence(rows, Included(book, Elements(DeskNames(rows))), r => Contribution(r, book));
  }

  // ----- leave one desk out

  /** A row's term in the counterfactual sum; zero weights are not skipped there, only multiplied. */
  function Counterfactual(book: Book, leaveOut: Option<string>): WeightRow -> real {
    (r: WeightRow) => if leaveOut == Some(r.slot.desk) then 0.0
         else match Get(book, r.Key())
              case Some(f) => if f.stale then 0.0 else r.weight * f.estimate
              case None => 0.0
  }

  function CounterfactualSignal(rows: seq<WeightRow>, book: Book, leaveOut: Option<string>): real {
    Sum(rows, Counterfactual(book, leaveOut))
  }

  method CounterfactualCombinedSignal(rows: seq<WeightRow>, book: Book,
                                      leaveOut: Option<string>) returns (combined: real)
    ensures combined == CounterfactualSignal(rows, book, leaveOut)
  {
    combined := 0.0;
    for i := 0 to |rows|
      invariant combined == Sum(rows[..i], Counterfactual(book, leaveOut))
    {
      SumStep(rows, i, Counterfactual(book, leaveOut));
      if leaveOut == Some(rows[i].slot.desk) { continue; }
      match Get(book, rows[i].Key()) {
        case None => continue;
        case Some(f) =>
          if f.stale { continue; }
          combined := combined + rows[i].weight * f.estimate;
      }
    }
    assert rows[..|rows|] == rows;
  }

  /** Leaving nobody out reproduces the Controller; leaving a desk out is the coalition of all the others. */
  lemma CounterfactualIsCoalition(rows: seq<WeightRow>, book: Book, desk: string)
    ensures CounterfactualSignal(rows, book, None) == CombinedSignal(rows, book)
    ensures CounterfactualSignal(rows, book, Some(desk))
              == CoalitionSignal(rows, book, Elements(DeskNames(rows)) - {desk})
  {
    SumCongruence(rows, Counterfactual(book, None), r => Contribution(r, book));
    forall r | r in rows ensures r.slot.desk in Elements(DeskNames(rows)) {
      var i :| 0 <= i < |rows| && rows[i] == r;
      assert DeskNames(rows)[i] == r.slot.desk;
    }
    SumCongruence(rows, Counterfactual(book, Some(desk)), Included(book, Elements(DeskNames(rows)) - {desk}));
  }

  /** The rows a LODO call returns: one (desk, contribution) per weight row. */
  type LodoRows = seq<(string, real)>

  /** compute_lodo_signal_space; it raises when the stored decision cannot be reproduced. */
  method LodoSignalSpace(db: Database, regime: string, position: real, book: Book) returns (r: Result<LodoRows>)
    ensures var rows, params := LatestWeights(db.weights, regime), LatestParams(db.params, regime);
            r.Raised? <==> params.None? || Position(params.value, CombinedSignal(rows, book)) != position
    ensures r.Ok? ==>
              var rows, p := LatestWeights(db.weights, regime), LatestParams(db.params, regime).value;
              var v := PositionValue(rows, book, p);
              var all := Elements(DeskNames(rows));
              Names(r.value) == DeskNames(rows)
              && forall e :: e in r.value ==> e.1 == v(all) - v(all - {e.0})
  {
    var rows := LatestWeights(db.weights, regime);
    match LatestParams(db.params, regime)
    case None => r := Raised(RuntimeError);
    case Some(p) =>
      var reproduced := CounterfactualCombinedSignal(rows, book, None);
      CounterfactualIsCoalition(rows, book, "");
      if Position(p, reproduced) != position {
        return Raised(RuntimeError);
      }
      GrandCoalitionIsController(rows, book);
      var out: LodoRows := [];
      for i := 0 to |rows|
        invariant Names(out) == DeskNames(rows)[..i]
        invariant forall e :: e in out ==>
                    e.1 == position - PositionValue(rows, book, p)(Elements(DeskNames(rows)) - {e.0})
      {
        var desk := rows[i].slot.desk;
        var without := CounterfactualCombinedSignal(rows, book, Some(desk));
        CounterfactualIsCoalition(rows, book, desk);
        NamesSnoc(out, desk, position - Position(p, without));
        assert DeskNames(rows)[..i + 1] == DeskNames(rows)[..i] + [desk];
        out := out + [(desk, position - Position(p, without))];
      }
      assert DeskNames(rows)[..|rows|] == DeskNames(rows);
      r := Ok(out);
  }

  lemma NamesSnoc<V>(d: Dict<string, V>, k: string, x: V)
    ensures Names(d + [(k, x)]) == Names(d) + [k]
  {
  }

  /** compute_lodo_grading_space: how much the squared error grows without each desk. */
  method LodoGradingSpace(db: Database, regime: string, combined: real, book: Book,
                          print_: real) returns (r: Result<LodoRows>)
    ensures var rows, params := LatestWeights(db.weights, regime), LatestParams(db.params, regime);
            r.Raised? <==> params.None? || CombinedSignal(rows, book) != combined
    ensures r.Ok? ==>
              var rows := LatestWeights(db.weights, regime);
              var v := GradingValue(rows, book, print_);
              var all := Elements(DeskNames(rows));
              Names(r.value) == DeskNames(rows)
              && forall e :: e in r.value ==> e.1 == v(all) - v(all - {e.0})
  {
    var rows := LatestWeights(db.weights, regime);
    if LatestParams(db.params, regime).None? {
      return Raised(RuntimeError);
    }
    var reproduced := CounterfactualCombinedSignal(rows, book, None);
    CounterfactualIsCoalition(rows, book, "");
    if reproduced != combined {
      return Raised(RuntimeError);
    }
    GrandCoalitionIsController(rows, book);
    var original := Square(combined - print_);
    var out: LodoRows := [];
    for i := 0 to |rows|
      invariant Names(out) == DeskNames(rows)[..i]
      invariant forall e :: e in out ==>
                  e.1 == -GradingValue(rows, book, print_)(Elements(DeskNames(rows)) - {e.0}) - original
    {
      var desk := rows[i].slot.desk;
      var without := CounterfactualCombinedSignal(rows, book, Some(desk));
      CounterfactualIsCoalition(rows, book, desk);
      var delta := Square(without - print_) - original;
      assert without == CoalitionSignal(rows, book, Elements(DeskNames(rows)) - {desk});
      NamesSnoc(out, desk, delta);
      assert DeskNames(rows)[..i + 1] == DeskNames(rows)[..i] + [desk];
      out := out + [(desk, delta)];
    }
    assert DeskNames(rows)[..|rows|] == DeskNames(rows);
    r := Ok(out);
  }

  // ----- signal-space bounds

  /** The push of row j on the unclipped position: k times weight times point estimate, zero when unused. */
  function Push(rows: seq<WeightRow>, book: Book, p: ParamsRow, j: nat): real
    requires j < |rows|
  {
    p.k * Contribution(rows[j], book)
  }

  /** With distinct desks, adding a desk adds its own row's contribution. */
  lemma {:induction false} JoiningAddsContribution(rows: seq<WeightRow>, book: Book, j: nat, s: set<string>)
    requires j < |rows| && Distinct(DeskNames(rows)) && rows[j].slot.desk !in s
    ensures CoalitionSignal(rows, book, s + {rows[j].slot.desk})
              == CoalitionSignal(rows, book, s) + Contribution(rows[j], book)
  {
    var desk := rows[j].slot.desk;
    SumTakeOut(rows, j, Included(book, s));
    SumTakeOut(rows, j, Included(book, s + {desk}));
    var rest := rows[..j] + rows[j + 1..];
    forall r | r in rest ensures Included(book, s)(r) == Included(book, s + {desk})(r) {
      var i :| 0 <= i < |rest| && rest[i] == r;
      var i' := if i < j then i else i + 1;
      assert rows[i'] == r && DeskNames(rows)[i'] != DeskNames(rows)[j];
    }
    SumCongruence(rest, Included(book, s), Included(book, s + {desk}));
  }

  /** Clipping is monotone and never stretches a difference; inside the limit it changes nothing. */
  lemma ClipStep(x: real, t: real, limit: real)
    requires limit >= 0.0
    ensures var d := Clip(x + t, -limit, limit) - Clip(x, -limit, limit);
            if t >= 0.0 then 0.0 <= d <= t else t <= d <= 0.0
    ensures -limit <= x <= limit && -limit <= x + t <= limit ==>
              Clip(x + t, -limit, limit) - Clip(x, -limit, limit) == t
  {
  }

  ghost predicate BetweenZeroAnd(x: real, t: real) {
    if t >= 0.0 then 0.0 <= x <= t else t <= x <= 0.0
  }

  ghost predicate InLimit(p: ParamsRow, signal: real) {
    -p.limit <= p.k * signal <= p.limit
  }

  ghost predicate Unsaturated(rows: seq<WeightRow>, book: Book, p: ParamsRow) {
    forall s :: s <= Elements(DeskNames(rows)) ==> InLimit(p, CoalitionSignal(rows, book, s))
  }

  lemma JoiningMovesPosition(rows: seq<WeightRow>, book: Book, p: ParamsRow, j: nat, s: set<string>)
    requires j < |rows| && Distinct(DeskNames(rows)) && rows[j].slot.desk !in s
    ensures var signal := CoalitionSignal(rows, book, s);
            Marginal(PositionValue(rows, book, p), rows[j].slot.desk, s) ==
            Position(p, signal + Contribution(rows[j], book)) - Position(p, signal)
  {
    JoiningAddsContribution(rows, book, j, s);
  }

  lemma PositionMarginal(rows: seq<WeightRow>, book: Book, p: ParamsRow, j: nat, s: set<string>)
    requires p.limit >= 0.0 && j < |rows| && Distinct(DeskNames(rows)) && rows[j].slot.desk !in s
    ensures BetweenZeroAnd(Marginal(PositionValue(rows, book, p), rows[j].slot.desk, s), Push(rows, book, p, j))
  {
    JoiningMovesPosition(rows, book, p, j, s);
    PositionStep(p, CoalitionSignal(rows, book, s), Contribution(rows[j], book));
  }

  lemma UnsaturatedMarginal(rows: seq<WeightRow>, book: Book, p: ParamsRow, j: nat, s: set<string>)
    requires p.limit >= 0.0 && j < |rows| && Distinct(DeskNames(rows)) && rows[j].slot.desk !in s
    requires Unsaturated(rows, book, p) && s <= Elements(DeskNames(rows))
    ensures Marginal(PositionValue(rows, book, p), rows[j].slot.desk, s) == Push(rows, book, p, j)
  {
    var desk := rows[j].slot.desk;
    JoiningMovesPosition(rows, book, p, j, s);
    JoiningAddsContribution(rows, book, j, s);
    assert DeskNames(rows)[j] == desk;
    assert s + {desk} <= Elements(DeskNames(rows));
    var signal, c := CoalitionSignal(rows, book, s), Contribution(rows[j], book);
    assert InLimit(p, signal);
    assert CoalitionSignal(rows, book, s + {desk}) == signal + c;
    assert InLimit(p, signal + c);
    PositionStep(p, signal, c);
  }

  lemma PositionStep(p: ParamsRow, signal: real, c: real)
    requires p.limit >= 0.0
    ensures BetweenZeroAnd(Position(p, signal + c) - Position(p, signal), p.k * c)
    ensures InLimit(p, signal) && InLimit(p, signal + c) ==>
              Position(p, signal + c) - Position(p, signal) == p.k * c
  {
    Distribute(p.k, signal, c);
    ClipStep(p.k * signal, p.k * c, p.limit);
  }

  lemma Distribute(k: real, x: real, y: real)
    ensures k * (x + y) == k * x + k * y
  {
  }

  /** A desk's exact signal-space value lies between zero and its push; a stale or absent desk earns exactly zero. */
  lemma SignalShapleyBounds(rows: seq<WeightRow>, book: Book, p: ParamsRow, j: nat)
    requires p.limit >= 0.0 && j < |rows| && Distinct(DeskNames(rows))
    ensures BetweenZeroAnd(ExactValue(PositionValue(rows, book, p), rows[j].slot.desk, DeskNames(rows)),
              Push(rows, book, p, j))
    ensures Used(rows[j], book).None? ==>
              ExactValue(PositionValue(rows, book, p), rows[j].slot.desk, DeskNames(rows)) == 0.0
  {
    var v, desk, desks, t := PositionValue(rows, book, p), rows[j].slot.desk, DeskNames(rows), Push(rows, book, p, j);
    assert desks[j] == desk;
    var lo, hi := if t >= 0.0 then 0.0 else t, if t >= 0.0 then t else 0.0;
    forall s | s <= Elements(desks) && desk !in s ensures lo <= Marginal(v, desk, s) <= hi {
      PositionMarginal(rows, book, p, j, s);
    }
    ExactBounds(v, desk, desks, lo, hi);
    if Used(rows[j], book).None? { assert p.k * 0.0 == 0.0; }
  }

  /** When no coalition saturates the clip, the exact value, the push and the desk's LODO delta are the same number. */
  lemma UnsaturatedShapleyIsLodo(rows: seq<WeightRow>, book: Book, p: ParamsRow, j: nat)
    requires p.limit >= 0.0 && j < |rows| && Distinct(DeskNames(rows)) && Unsaturated(rows, book, p)
    ensures var v, desk, all := PositionValue(rows, book, p), rows[j].slot.desk, Elements(DeskNames(rows));
            ExactValue(v, desk, DeskNames(rows)) == Push(rows, book, p, j) == v(all) - v(all - {desk})
  {
    var v, desk, desks, t := PositionValue(rows, book, p), rows[j].slot.desk, DeskNames(rows), Push(rows, book, p, j);
    assert desks[j] == desk;
    forall s | s <= Elements(desks) && desk !in s ensures t <= Marginal(v, desk, s) <= t {
      UnsaturatedMarginal(rows, book, p, j, s);
    }
    ExactBounds(v, desk, desks, t, t);
    var others := Elements(desks) - {desk};
    UnsaturatedMarginal(rows, book, p, j, others);
    assert others + {desk} == Elements(desks);
  }

  // ----- the same bounds for the estimator, whatever it draws

  /** The sampled signal-space value lies between zero and the push, for every sequence of shuffles. */
  lemma SampledSignalBounds(rows: seq<WeightRow>, book: Book, p: ParamsRow, j: nat, samples: seq<seq<string>>)
    requires p.limit >= 0.0 && j < |rows| && Distinct(DeskNames(rows)) && samples != []
    requires forall q :: q in samples ==> multiset(q) == multiset(DeskNames(rows))
    ensures var value := Average(SampleTotal(PositionValue(rows, book, p), rows[j].slot.desk, samples), |samples|);
            BetweenZeroAnd(value, Push(rows, book, p, j)) && (Used(rows[j], book).None? ==> value == 0.0)
  {
    var v, desk, desks, t := PositionValue(rows, book, p), rows[j].slot.desk, DeskNames(rows), Push(rows, book, p, j);
    assert desks[j] == desk;
    var lo, hi := if t >= 0.0 then 0.0 else t, if t >= 0.0 then t else 0.0;
    forall s | s <= Elements(desks) && desk !in s ensures lo <= Marginal(v, desk, s) <= hi {
      PositionMarginal(rows, book, p, j, s);
    }
    SampledBounds(v, desk, desks, samples, lo, hi);
    if Used(rows[j], book).None? { assert p.k * 0.0 == 0.0; }
  }

  /** Without saturation sampling has no error: any shuffles give the push, the exact value and the LODO delta. */
  lemma UnsaturatedSampledIsLodo(rows: seq<WeightRow>, book: Book, p: ParamsRow, j: nat, samples: seq<seq<string>>)
    requires p.limit >= 0.0 && j < |rows| && Distinct(DeskNames(rows)) && Unsaturated(rows, book, p) && samples != []
    requires forall q :: q in samples ==> multiset(q) == multiset(DeskNames(rows))
    ensures var v, desk, all := PositionValue(rows, book, p), rows[j].slot.desk, Elements(DeskNames(rows));
            Average(SampleTotal(v, desk, samples), |samples|)
              == ExactValue(v, desk, DeskNames(rows)) == Push(rows, book, p, j) == v(all) - v(all - {desk})
  {
    var v, desk, desks, t := PositionValue(rows, book, p), rows[j].slot.desk, DeskNames(rows), Push(rows, book, p, j);
    assert desks[j] == desk;
    forall s | s <= Elements(desks) && desk !in s ensures t <= Marginal(v, desk, s) <= t {
      UnsaturatedMarginal(rows, book, p, j, s);
    }
    SampledBounds(v, desk, desks, samples, t, t);
    UnsaturatedShapleyIsLodo(rows, book, p, j);
  }

  // ----- grading space

  /** A row with contribution c that joins a coalition of signal x changes the squared error by c (2 (x - y) + c). */
  lemma GradingMarginal(rows: seq<WeightRow>, book: Book, y: real, j: nat, s: set<string>)
    requires j < |rows| && Distinct(DeskNames(rows)) && rows[j].slot.desk !in s
    ensures var x, c := CoalitionSignal(rows, book, s), Contribution(rows[j], book);
            Marginal(GradingValue(rows, book, y), rows[j].slot.desk, s) == -(c * (2.0 * (x - y) + c))
  {
    JoiningAddsContribution(rows, book, j, s);
    SquareDifference(CoalitionSignal(rows, book, s) - y, Contribution(rows[j], book));
  }

  lemma SquareDifference(x: real, c: real)
    ensures Square(x + c) - Square(x) == c * (2.0 * x + c)
  {
  }

  /** So a forecast of the print itself loses nothing, and every other one loses the square of its distance. */
  lemma NormalizedValueIs(book: Book, y: real, s: set<string>)
    ensures NormalizedValue(book, y)(s) == -((NormalizedSignal(book, s) - y) * (NormalizedSignal(book, s) - y))
    ensures NormalizedValue(book, y)(s) <= 0.0
    ensures NormalizedValue(book, y)(s) == 0.0 <==> NormalizedSignal(book, s) == y
  {
    SquareSign(NormalizedSignal(book, s) - y);
  }

  lemma SquareSign(x: real)
    ensures Square(x) >= 0.0
    ensures Square(x) == 0.0 <==> x == 0.0
  {
    SquareIsNonNegative(x);
    if x > 0.0 {
      ZeroFactor(x, x, Square(x));
    } else if x < 0.0 {
      ZeroFactor(-x, -x, Square(-x));
      assert Square(-x) == Square(x);
    }
  }

  lemma SquareIsNonNegative(x: real)
    ensures Square(x) >= 0.0
  {
  }
}
