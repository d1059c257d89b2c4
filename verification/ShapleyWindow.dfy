/** The review-window roll-ups: one row per desk (attribution/shapley.py:526-704). */
module ShapleyWindow {
  import opened Contracts
  import opened Combinatorics
  import opened Sums
  import opened Dicts
  import opened WeightTable
  import opened Persistence
  import opened Controllers
  import opened Shapley
  import opened ShapleyAxioms
  import opened Attribution

  datatype Mode = Exact | Sampled | Auto

  /** The decision of the window: its id and the regime whose rows it is re-evaluated on. */
  datatype WindowDecision = WindowDecision(id: string, regime: string)

  datatype AttributionRow = AttributionRow(desk: string, value: real, decisions: nat, sampled: bool)

  /** The shuffles of the desks that the generator seeded for the k-th decision draws. */
  type Shuffler = (nat, seq<string>) -> seq<seq<string>>

  ghost predicate Shuffles(draw: Shuffler) {
    forall k, desks, p :: p in draw(k, desks) ==> multiset(p) == multiset(desks)
  }

  predicate UsesSampled(mode: Mode, n: nat) {
    mode.Sampled? || (mode.Auto? && n > EXACT_MAX_N)
  }

  function Second<K, V>(): ((K, V)) -> V {
    (e: (K, V)) => e.1
  }

  lemma {:induction false} SumByName(d: Dict<string, real>, f: string -> real)
    requires forall e :: e in d ==> e.1 == f(e.0)
    ensures Sum(d, Second()) == Sum(Names(d), f)
  {
    if d != [] {
      SumByName(d[1..], f);
      assert Names(d) == [d[0].0] + Names(d[1..]);
      assert d[0] in d;
    }
  }

  /** What a desk is credited with: its exact value, or the mean credit over the shuffles. */
  ghost function DeskValue(v: Value, desks: seq<string>, mode: Mode, samples: seq<seq<string>>, name: string): real {
    if !UsesSampled(mode, |desks|) then ExactValue(v, name, desks)
    else if samples == [] then 0.0
    else Average(SampleTotal(v, name, samples), |samples|)
  }

  ghost function CreditIn(v: Value, desks: seq<string>, mode: Mode, samples: seq<seq<string>>,
                          name: string): Option<real> {
    if name in desks then Some(DeskValue(v, desks, mode, samples, name)) else None
  }

  lemma {:induction false} GetAbsent<V>(d: Dict<string, V>, name: string)
    requires forall e :: e in d ==> e.0 != name
    ensures Get(d, name).None?
  {
    if d != [] { GetAbsent(d[1..], name); }
  }

  lemma NamesAreUnique(values: Dict<string, real>, desks: seq<string>)
    requires Names(values) == FirstOccurrences(desks)
    ensures Unique(values)
  {
    FirstOccurrencesSpec(desks);
    forall i, j | 0 <= i < j < |values| ensures values[i].0 != values[j].0 {
      assert Names(values)[i] != Names(values)[j];
    }
  }

  lemma ValueByName(values: Dict<string, real>, v: Value, desks: seq<string>, mode: Mode, samples: seq<seq<string>>,
                    name: string)
    requires Names(values) == FirstOccurrences(desks)
    requires forall e :: e in values ==> e.1 == DeskValue(v, desks, mode, samples, e.0)
    ensures Get(values, name) == CreditIn(v, desks, mode, samples, name)
  {
    FirstOccurrencesSpec(desks);
    assert name in desks <==> name in Elements(desks);
    assert name in FirstOccurrences(desks) <==> name in Elements(FirstOccurrences(desks));
    GetMember(values, name);
    if name in desks {
      var i :| 0 <= i < |values| && Names(values)[i] == name;
      assert values[i] in values && values[i].0 == name;
    } else {
      forall e | e in values ensures e.0 != name {
        var i :| 0 <= i < |values| && values[i] == e;
        assert Names(values)[i] == e.0;
      }
      GetAbsent(values, name);
    }
  }

  lemma ValuesByName(values: Dict<string, real>, v: Value, desks: seq<string>, mode: Mode, samples: seq<seq<string>>)
    requires Names(values) == FirstOccurrences(desks)
    requires forall e :: e in values ==> e.1 == DeskValue(v, desks, mode, samples, e.0)
    ensures forall name :: Get(values, name) == CreditIn(v, desks, mode, samples, name)
  {
    forall name ensures Get(values, name) == CreditIn(v, desks, mode, samples, name) {
      ValueByName(values, v, desks, mode, samples, name);
    }
  }

  /** The estimator's side of a decision. */
  method EstimatedValues(desks: seq<string>, v: Value, start: real, mode: Mode, samples: seq<seq<string>>)
    returns (r: Result<Dict<string, real>>)
    requires start == v({}) && UsesSampled(mode, |desks|)
    requires forall p :: p in samples ==> multiset(p) == multiset(desks)
    ensures r.Raised? <==> desks != [] && samples == []
    ensures r.Ok? ==> Names(r.value) == FirstOccurrences(desks)
    ensures r.Ok? ==> forall e :: e in r.value ==> e.1 == DeskValue(v, desks, mode, samples, e.0)
    ensures r.Ok? ==> Sum(r.value, Second()) == v(Elements(desks)) - v({})
  {
    r := SampledShapley(desks, v, start, samples);
    if r.Ok? {
      if desks == [] {
        assert Names(r.value) == [] && r.value == [];
        assert Elements(desks) == {};
      } else {
        SampledShares(v, desks, samples, r.value);
      }
    }
  }

  /** The exact side. */
  method ExactlyValued(desks: seq<string>, v: Value, mode: Mode,
                       samples: seq<seq<string>>) returns (r: Result<Dict<string, real>>)
    requires !UsesSampled(mode, |desks|)
    ensures r.Raised? <==> |desks| > EXACT_MAX_N
    ensures r.Ok? ==> Names(r.value) == FirstOccurrences(desks)
    ensures r.Ok? ==> forall e :: e in r.value ==> e.1 == DeskValue(v, desks, mode, samples, e.0)
    ensures r.Ok? && Distinct(desks) ==> Sum(r.value, Second()) == v(Elements(desks)) - v({})
  {
    r := ExactShapley(desks, v);
    if r.Ok? && Distinct(desks) {
      SumByName(r.value, ExactValues(v, desks));
      ExactEfficiency(v, desks);
    }
  }

  /** The values of one decision by name; they share out v(all) - v(nobody) unless exact mode meets a repeated name. */
  method DecisionValues(desks: seq<string>, v: Value, start: real, mode: Mode, samples: seq<seq<string>>)
    returns (r: Result<Dict<string, real>>)
    requires start == v({})
    requires forall p :: p in samples ==> multiset(p) == multiset(desks)
    ensures r.Raised? <==> match mode
                           case Exact => |desks| > 6
                           case Sampled => desks != [] && samples == []
                           case Auto => |desks| > 6 && samples == []
    ensures r.Ok? ==> Unique(r.value)
    ensures r.Ok? ==> forall name :: Get(r.value, name) == CreditIn(v, desks, mode, samples, name)
    ensures r.Ok? ==> forall name :: name !in desks ==> Get(r.value, name) == None
    ensures r.Ok? ==> forall name :: name in desks ==>
              Get(r.value, name) == Some(if mode.Sampled? || (mode.Auto? && |desks| > 6)
                                         then Average(SampleTotal(v, name, samples), |samples|)
                                         else ExactValue(v, name, desks))
    ensures r.Ok? && (Distinct(desks) || UsesSampled(mode, |desks|)) ==>
              Sum(r.value, Second()) == v(Elements(desks)) - v({})
  {
    if UsesSampled(mode, |desks|) {
      r := EstimatedValues(desks, v, start, mode, samples);
    } else {
      r := ExactlyValued(desks, v, mode, samples);
    }
    if r.Ok? {
      NamesAreUnique(r.value, desks);
      ValuesByName(r.value, v, desks, mode, samples);
    }
  }

  lemma SampledShares(v: Value, desks: seq<string>, samples: seq<seq<string>>, values: Dict<string, real>)
    requires samples != [] && Names(values) == FirstOccurrences(desks)
    requires forall p :: p in samples ==> multiset(p) == multiset(desks)
    requires forall e :: e in values ==> e.1 == Average(SampleTotal(v, e.0, samples), |samples|)
    ensures Sum(values, Second()) == v(Elements(desks)) - v({})
  {
    var share := i => Average(SampleTotals(v, samples)(i), |samples|);
    forall e | e in values ensures e.1 == share(e.0) {
      assert SampleTotals(v, samples)(e.0) == SampleTotal(v, e.0, samples);
    }
    SumByName(values, share);
    SumOfAverages(FirstOccurrences(desks), |samples|, SampleTotals(v, samples), share);
    SampledEfficiency(v, desks, samples);
    AverageOfCopies(v(Elements(desks)) - v({}), |samples|);
  }

  // ----- per-desk totals

  datatype Rollup = Rollup(total: real, count: nat)

  function Total(): ((string, Rollup)) -> real {
    (e: (string, Rollup)) => e.1.total
  }

  ghost predicate ValidTotals(totals: Dict<string, Rollup>) {
    Unique(totals) && forall e :: e in totals ==> e.1.count > 0
  }

  /** A desk's total so far; nothing if it has not occurred. */
  function RollupOf(totals: Dict<string, Rollup>, name: string): Rollup {
    match Get(totals, name) case Some(t) => t case None => Rollup(0.0, 0)
  }

  function Plus(t: Rollup, value: Option<real>): Rollup {
    match value case Some(x) => Rollup(t.total + x, t.count + 1) case None => t
  }

  lemma {:induction false} GetSnoc<V>(d: Dict<string, V>, e: (string, V), name: string)
    ensures Get(d + [e], name) == if Get(d, name).Some? then Get(d, name) else if e.0 == name then Some(e.1) else None
  {
    if d == [] {
      assert d + [e] == [e];
    } else {
      assert (d + [e])[1..] == d[1..] + [e];
      GetSnoc(d[1..], e, name);
    }
  }

  lemma GetPrefix(values: Dict<string, real>, k: nat, name: string)
    requires Unique(values) && k < |values|
    ensures Get(values[..k], values[k].0).None?
    ensures Get(values[..k + 1], name) == if name == values[k].0 then Some(values[k].1) else Get(values[..k], name)
  {
    assert values[..k + 1] == values[..k] + [values[k]];
    GetSnoc(values[..k], values[k], name);
    GetAbsent(values[..k], values[k].0);
  }

  method AddValue(totals: Dict<string, Rollup>, name: string, value: real) returns (totals': Dict<string, Rollup>)
    requires ValidTotals(totals)
    ensures ValidTotals(totals')
    ensures Sum(totals', Total()) == Sum(totals, Total()) + value
    ensures forall other :: RollupOf(totals', other)
              == Plus(RollupOf(totals, other), if other == name then Some(value) else None)
  {
    var new_ := Plus(RollupOf(totals, name), Some(value));
    SumPut(totals, name, new_, Total());
    PutUnique(totals, name, new_);
    forall e | e in Put(totals, name, new_) ensures e.1.count > 0 {
      PutKeys(totals, name, new_, e);
    }
    forall other ensures Get(Put(totals, name, new_), other) == if other == name then Some(new_)
        else Get(totals, other) {
      GetPut(totals, name, new_, other);
    }
    totals' := Put(totals, name, new_);
  }

  method AddValues(totals: Dict<string, Rollup>, values: Dict<string, real>) returns (totals': Dict<string, Rollup>)
    requires ValidTotals(totals) && Unique(values)
    ensures ValidTotals(totals')
    ensures Sum(totals', Total()) == Sum(totals, Total()) + Sum(values, Second())
    ensures forall name :: RollupOf(totals', name) == Plus(RollupOf(totals, name), Get(values, name))
  {
    totals' := totals;
    for k := 0 to |values|
      invariant ValidTotals(totals')
      invariant Sum(totals', Total()) == Sum(totals, Total()) + Sum(values[..k], Second())
      invariant forall name :: RollupOf(totals', name) == Plus(RollupOf(totals, name), Get(values[..k], name))
    {
      SumStep(values, k, Second());
      forall name
        ensures Get(values[..k], values[k].0).None?
        ensures Get(values[..k + 1], name) == if name == values[k].0 then Some(values[k].1) else Get(values[..k], name)
      {
        GetPrefix(values, k, name);
      }
      totals' := AddValue(totals', values[k].0, values[k].1);
    }
    assert values[..|values|] == values;
  }

  /** A row's average times the number of decisions it averages. */
  function RowTotal(): AttributionRow -> real {
    (row: AttributionRow) => row.decisions as real * row.value
  }

  function RowOf(name: string, t: Rollup, sampled: bool): AttributionRow
    requires t.count > 0
  {
    AttributionRow(name, Average(t.total, t.count), t.count, sampled)
  }

  method RowsOf(totals: Dict<string, Rollup>, sampled: bool) returns (rows: seq<AttributionRow>)
    requires ValidTotals(totals)
    ensures Sum(rows, RowTotal()) == Sum(totals, Total())
    ensures |rows| == |totals|
    ensures forall i :: 0 <= i < |rows| ==> totals[i].1.count > 0 && rows[i] == RowOf(totals[i].0, totals[i].1, sampled)
  {
    rows := [];
    for k := 0 to |totals|
      invariant |rows| == k
      invariant forall i :: 0 <= i < k ==> totals[i].1.count > 0 && rows[i] == RowOf(totals[i].0, totals[i].1, sampled)
    {
      assert totals[k] in totals;
      rows := rows + [RowOf(totals[k].0, totals[k].1, sampled)];
    }
    RowsTotal(rows, totals, sampled);
  }

  lemma {:induction false} RowsTotal(rows: seq<AttributionRow>, totals: Dict<string, Rollup>, sampled: bool)
    requires |rows| == |totals|
    requires forall i :: 0 <= i < |rows| ==>
               totals[i].1.count > 0 && rows[i] == RowOf(totals[i].0, totals[i].1, sampled)
    ensures Sum(rows, RowTotal()) == Sum(totals, Total())
  {
    if rows != [] {
      BackToTotal(totals[0].1.total, totals[0].1.count);
      RowsTotal(rows[1..], totals[1..], sampled);
    }
  }

  lemma BackToTotal(total: real, n: nat)
    requires n > 0
    ensures n as real * Average(total, n) == total
  {
  }

  /** What each decision credits to each desk, by position in the window; None for a desk it does not concern. */
  type Crediting = (nat, WindowDecision, string) -> Option<real>

  /** A desk's total and number of decisions over the first n decisions. */
  ghost function WindowRollup(credit: Crediting, decisions: seq<WindowDecision>, n: nat, name: string): Rollup
    requires n <= |decisions|
  {
    if n == 0 then Rollup(0.0, 0)
    else Plus(WindowRollup(credit, decisions, n - 1, name), credit(n - 1, decisions[n - 1], name))
  }

  /** The credit of the k-th decision, zero where it has none. */
  ghost function CreditAt(credit: Crediting, decisions: seq<WindowDecision>, name: string): nat -> real {
    (k: nat) => if k < |decisions| && credit(k, decisions[k], name).Some? then credit(k, decisions[k], name).value
                else 0.0
  }

  function Places(n: nat): seq<nat> {
    seq(n, k requires 0 <= k < n => k)
  }

  /** The roll-up of a desk is the sum of its credits and the number of decisions with a credit. */
  lemma {:induction false} WindowRollupIs(credit: Crediting, decisions: seq<WindowDecision>, n: nat, name: string)
    requires n <= |decisions|
    ensures var t := WindowRollup(credit, decisions, n, name);
            && t.total == Sum(Places(n), CreditAt(credit, decisions, name))
            && t.count == |set k: nat | k < n && credit(k, decisions[k], name).Some?|
  {
    if n > 0 {
      WindowRollupIs(credit, decisions, n - 1, name);
      SumStep(Places(n), n - 1, CreditAt(credit, decisions, name));
      assert Places(n)[..n - 1] == Places(n - 1) && Places(n)[..n] == Places(n);
      var last: set<nat> := if credit(n - 1, decisions[n - 1], name).Some? then {n - 1} else {};
      assert (set k: nat | k < n && credit(k, decisions[k], name).Some?)
          == (set k: nat | k < n - 1 && credit(k, decisions[k], name).Some?) + last;
    }
  }

  /** A row holds the mean of the desk's credits over the decisions that concern it. */
  lemma RowIsMean(name: string, t: Rollup, sampled: bool)
    requires t.count > 0
    ensures var row := RowOf(name, t, sampled);
            && row.desk == name && row.decisions == t.count && row.sampled == sampled
            && row.decisions as real * row.value == t.total
  {
    BackToTotal(t.total, t.count);
  }

  /** The accumulated dictionaries hold every desk's window total. */
  ghost predicate Accumulated(totals: Dict<string, Rollup>, credit: Crediting, decisions: seq<WindowDecision>, n: nat)
    requires n <= |decisions|
  {
    forall name :: RollupOf(totals, name) == WindowRollup(credit, decisions, n, name)
  }

  /** One row for each desk that any decision concerns: its mean credit over those decisions. */
  ghost predicate IsRollup(rows: seq<AttributionRow>, credit: Crediting, decisions: seq<WindowDecision>,
                           sampled: bool) {
    && (forall i, j :: 0 <= i < j < |rows| ==> rows[i].desk != rows[j].desk)
    && forall row :: row in rows <==>
         var t := WindowRollup(credit, decisions, |decisions|, row.desk);
         t.count > 0 && row == RowOf(row.desk, t, sampled)
  }

  lemma RowsAreRollup(rows: seq<AttributionRow>, totals: Dict<string, Rollup>, credit: Crediting,
                      decisions: seq<WindowDecision>, sampled: bool)
    requires ValidTotals(totals) && Accumulated(totals, credit, decisions, |decisions|) && |rows| == |totals|
    requires forall i :: 0 <= i < |rows| ==>
               totals[i].1.count > 0 && rows[i] == RowOf(totals[i].0, totals[i].1, sampled)
    ensures IsRollup(rows, credit, decisions, sampled)
  {
    forall row ensures row in rows <==>
                 var t := WindowRollup(credit, decisions, |decisions|, row.desk);
                 t.count > 0 && row == RowOf(row.desk, t, sampled) {
      var t := WindowRollup(credit, decisions, |decisions|, row.desk);
      assert RollupOf(totals, row.desk) == t;
      if row in rows {
        var i :| 0 <= i < |rows| && rows[i] == row;
        GetUnique(totals, i);
      }
      if t.count > 0 && row == RowOf(row.desk, t, sampled) {
        GetMember(totals, row.desk);
        var i :| 0 <= i < |totals| && totals[i] == (row.desk, t);
        assert rows[i] == row;
      }
    }
  }

  // ----- the two windows

  function BookOf(books: Dict<string, Book>, id: string): Book {
    match Get(books, id) case Some(b) => b case None => []
  }

  /** Each decision is evaluated on the book stored under its id, or on an empty one. */
  lemma BookIs(books: Dict<string, Book>, id: string)
    requires Unique(books)
    ensures forall k :: 0 <= k < |books| && books[k].0 == id ==> BookOf(books, id) == books[k].1
    ensures (forall k :: 0 <= k < |books| ==> books[k].0 != id) ==> BookOf(books, id) == []
  {
    forall k | 0 <= k < |books| && books[k].0 == id ensures BookOf(books, id) == books[k].1 {
      GetUnique(books, k);
    }
    GetMember(books, id);
  }

  /** Whether a decision on these rows can be evaluated at all. */
  ghost predicate Evaluable(rows: seq<WeightRow>, mode: Mode, samples: seq<seq<string>>) {
    if UsesSampled(mode, |rows|) then rows == [] || samples != [] else |rows| <= EXACT_MAX_N
  }

  /** The values share out the whole gain: always when sampled, and when exact if no desk name is repeated. */
  ghost predicate SharesOut(rows: seq<WeightRow>, mode: Mode) {
    Distinct(DeskNames(rows)) || UsesSampled(mode, |rows|)
  }

  /** The position the Controller takes on the decision's own inputs. */
  ghost function FullPosition(weights: seq<WeightRow>, params: seq<ParamsRow>,
                              books: Dict<string, Book>): WindowDecision -> real {
    (d: WindowDecision) =>
      match LatestParams(params, d.regime)
      case Some(p) => Position(p, CombinedSignal(LatestWeights(weights, d.regime), BookOf(books, d.id)))
      case None => 0.0
  }

  ghost predicate SignalEvaluable(weights: seq<WeightRow>, params: seq<ParamsRow>, mode: Mode, draw: Shuffler, k: nat,
                                  d: WindowDecision) {
    && LatestParams(params, d.regime).Some?
    && GradingEvaluable(weights, mode, draw, k, d)
  }

  ghost predicate GradingEvaluable(weights: seq<WeightRow>, mode: Mode, draw: Shuffler, k: nat, d: WindowDecision) {
    var rows := LatestWeights(weights, d.regime);
    Evaluable(rows, mode, draw(k, DeskNames(rows)))
  }

  /** The first n decisions can all be evaluated. */
  ghost predicate FirstEvaluable(ok: (nat, WindowDecision) -> bool, decisions: seq<WindowDecision>, n: nat)
    requires n <= |decisions|
  {
    forall k :: 0 <= k < n ==> ok(k, decisions[k])
  }

  ghost function SignalChecks(weights: seq<WeightRow>, params: seq<ParamsRow>, mode: Mode,
                              draw: Shuffler): (nat, WindowDecision) -> bool {
    (k: nat, d: WindowDecision) => SignalEvaluable(weights, params, mode, draw, k, d)
  }

  ghost function GradingChecks(weights: seq<WeightRow>, prints: Dict<string, real>, mode: Mode,
                              draw: Shuffler): (nat, WindowDecision) -> bool {
    (k: nat, d: WindowDecision) => Get(prints, d.id).None? || GradingEvaluable(weights, mode, draw, k, d)
  }

  /** What one decision credits to a desk in signal space. */
  ghost function SignalCredit(weights: seq<WeightRow>, params: seq<ParamsRow>, books: Dict<string, Book>, mode: Mode,
                              draw: Shuffler,
                              k: nat, d: WindowDecision, name: string): Option<real> {
    var rows := LatestWeights(weights, d.regime);
    match LatestParams(params, d.regime)
    case Some(p) => CreditIn(PositionValue(rows, BookOf(books, d.id), p), DeskNames(rows), mode,
        draw(k, DeskNames(rows)), name)
    case None => None
  }

  ghost function SignalCredits(weights: seq<WeightRow>, params: seq<ParamsRow>, books: Dict<string, Book>, mode: Mode,
                               draw: Shuffler): Crediting {
    (k: nat, d: WindowDecision, name: string) => SignalCredit(weights, params, books, mode, draw, k, d, name)
  }

  /** Whether evaluating a decision uses the estimator. */
  ghost function Estimates(weights: seq<WeightRow>, mode: Mode): WindowDecision -> bool {
    (d: WindowDecision) => UsesSampled(mode, |LatestWeights(weights, d.regime)|)
  }

  ghost function EstimatesPrinted(weights: seq<WeightRow>, prints: Dict<string, real>,
                                  mode: Mode): WindowDecision -> bool {
    (d: WindowDecision) => Get(prints, d.id).Some? && UsesSampled(mode, |LatestWeights(weights, d.regime)|)
  }

  /** The estimator was used for one of the first n decisions. */
  ghost predicate AnySampled(uses: WindowDecision -> bool, decisions: seq<WindowDecision>, n: nat)
    requires n <= |decisions|
  {
    exists k :: 0 <= k < n && uses(decisions[k])
  }

  method SignalValues(rows: seq<WeightRow>, book: Book, p: ParamsRow, mode: Mode, samples: seq<seq<string>>)
    returns (r: Result<Dict<string, real>>)
    requires p.limit >= 0.0 && forall q :: q in samples ==> multiset(q) == multiset(DeskNames(rows))
    ensures r.Ok? <==> Evaluable(rows, mode, samples)
    ensures r.Ok? ==> Unique(r.value)
    ensures r.Ok? ==> forall name ::
              Get(r.value, name) == CreditIn(PositionValue(rows, book, p), DeskNames(rows), mode, samples, name)
    ensures r.Ok? && SharesOut(rows, mode) ==> Sum(r.value, Second()) == Position(p, CombinedSignal(rows, book))
  {
    var v := PositionValue(rows, book, p);
    assert v({}) == 0.0 by { StartingValues(rows, book, p, 0.0); }
    assert v(Elements(DeskNames(rows))) == Position(p, CombinedSignal(rows, book)) by {
      GrandCoalitionIsController(rows, book);
    }
    r := DecisionValues(DeskNames(rows), v, 0.0, mode, samples);
  }

  /** One pass of the loop over decisions. */
  method SignalStep(weights: seq<WeightRow>, params: seq<ParamsRow>, books: Dict<string, Book>, mode: Mode,
                    draw: Shuffler,
                    k: nat, d: WindowDecision, totals: Dict<string, Rollup>)
    returns (r: Result<Dict<string, Rollup>>)
    requires ValidParams(params) && Shuffles(draw) && ValidTotals(totals)
    ensures r.Ok? <==> SignalChecks(weights, params, mode, draw)(k, d)
    ensures r.Ok? ==> ValidTotals(r.value)
    ensures r.Ok? ==> forall name :: RollupOf(r.value, name) ==
                        Plus(RollupOf(totals, name), SignalCredits(weights, params, books, mode, draw)(k, d, name))
    ensures r.Ok? && SharesOut(LatestWeights(weights, d.regime), mode) ==>
              Sum(r.value, Total()) == Sum(totals, Total()) + FullPosition(weights, params, books)(d)
  {
    var rows, p := LatestWeights(weights, d.regime), LatestParams(params, d.regime);
    if p.None? {
      return Raised(RuntimeError);
    }
    assert p.value.limit >= 0.0 by { LatestParamsIsNewest(params, d.regime); }
    var values := SignalValues(rows, BookOf(books, d.id), p.value, mode, draw(k, DeskNames(rows)));
    if values.Raised? {
      return Raised(values.error);
    }
    var totals' := AddValues(totals, values.value);
    r := Ok(totals');
  }

  /**
   compute_shapley_signal_space: one row per desk with its mean value over the decisions it took part in;
   value times decisions, summed over the rows, is the window's total position.
   */
  method SignalSpace(weights: seq<WeightRow>, params: seq<ParamsRow>, decisions: seq<WindowDecision>,
                     books: Dict<string, Book>,
                     mode: Mode, draw: Shuffler)
    returns (r: Result<seq<AttributionRow>>)
    requires ValidParams(params) && Shuffles(draw)
    ensures r.Ok? <==> FirstEvaluable(SignalChecks(weights, params, mode, draw), decisions, |decisions|)
    ensures r.Ok? ==> IsRollup(r.value, SignalCredits(weights, params, books, mode, draw), decisions,
                               AnySampled(Estimates(weights, mode), decisions, |decisions|))
    ensures r.Ok? && (forall d :: d in decisions ==> SharesOut(LatestWeights(weights, d.regime), mode)) ==>
              Sum(r.value, RowTotal()) == Sum(decisions, FullPosition(weights, params, books))
  {
    var totals: Dict<string, Rollup>, sampled := [], false;
    ghost var full, credit := FullPosition(weights, params, books), SignalCredits(weights, params, books, mode, draw);
    ghost var ok, uses := SignalChecks(weights, params, mode, draw), Estimates(weights, mode);
    ghost var shared := forall d :: d in decisions ==> SharesOut(LatestWeights(weights, d.regime), mode);
    for k := 0 to |decisions|
      invariant ValidTotals(totals)
      invariant FirstEvaluable(ok, decisions, k)
      invariant Accumulated(totals, credit, decisions, k)
      invariant sampled == AnySampled(uses, decisions, k)
      invariant shared ==> Sum(totals, Total()) == Sum(decisions[..k], full)
    {
      var d := decisions[k];
      assert d in decisions;
      var step := SignalStep(weights, params, books, mode, draw, k, d, totals);
      if step.Raised? {
        return Raised(step.error);
      }
      AnySampledStep(uses, decisions, k);
      sampled := sampled || UsesSampled(mode, |LatestWeights(weights, d.regime)|);
      SumStep(decisions, k, full);
      AccumulatedStep(totals, step.value, credit, decisions, k);
      totals := step.value;
    }
    assert decisions[..|decisions|] == decisions;
    var out := RowsOf(totals, sampled);
    RowsAreRollup(out, totals, credit, decisions, sampled);
    r := Ok(out);
  }

  lemma AccumulatedStep(totals: Dict<string, Rollup>, totals': Dict<string, Rollup>, credit: Crediting,
                        decisions: seq<WindowDecision>, k: nat)
    requires k < |decisions| && Accumulated(totals, credit, decisions, k)
    requires forall name :: RollupOf(totals', name) == Plus(RollupOf(totals, name), credit(k, decisions[k], name))
    ensures Accumulated(totals', credit, decisions, k + 1)
  {
  }

  lemma AnySampledStep(uses: WindowDecision -> bool, decisions: seq<WindowDecision>, n: nat)
    requires n < |decisions|
    ensures AnySampled(uses, decisions, n + 1) <==> AnySampled(uses, decisions, n) || uses(decisions[n])
  {
  }

  /** The squared-error reduction of the whole desk set on one decision; zero when it has no print. */
  ghost function FullReduction(weights: seq<WeightRow>, books: Dict<string, Book>,
                               prints: Dict<string, real>): WindowDecision -> real {
    (d: WindowDecision) =>
      match Get(prints, d.id)
      case Some(y) => Reduction(LatestWeights(weights, d.regime), BookOf(books, d.id), y)
      case None => 0.0
  }

  function Reduction(rows: seq<WeightRow>, book: Book, y: real): real {
    Square(y) - Square(NormalizedSignal(book, Elements(DeskNames(rows))) - y)
  }

  /** The squared error of forecasting zero less that of forecasting the mean m is m (2 y - m). */
  lemma ReductionIs(rows: seq<WeightRow>, book: Book, y: real)
    ensures var m := NormalizedSignal(book, Elements(DeskNames(rows)));
            Reduction(rows, book, y) == m * (2.0 * y - m)
  {
    var m := NormalizedSignal(book, Elements(DeskNames(rows)));
    SquareDifference(m - y, 0.0 - m);
    assert m - y + (0.0 - m) == -y;
    assert Square(-y) == Square(y);
  }

  /** What one decision credits to a desk in grading space; nothing without a print. */
  ghost function GradingCredit(weights: seq<WeightRow>, books: Dict<string, Book>, prints: Dict<string, real>,
                               mode: Mode, draw: Shuffler,
                               k: nat, d: WindowDecision, name: string): Option<real> {
    var desks := DeskNames(LatestWeights(weights, d.regime));
    match Get(prints, d.id)
    case Some(y) => CreditIn(NormalizedValue(BookOf(books, d.id), y), desks, mode, draw(k, desks), name)
    case None => None
  }

  ghost function GradingCredits(weights: seq<WeightRow>, books: Dict<string, Book>, prints: Dict<string, real>,
                                mode: Mode, draw: Shuffler): Crediting {
    (k: nat, d: WindowDecision, name: string) => GradingCredit(weights, books, prints, mode, draw, k, d, name)
  }

  method GradingValues(rows: seq<WeightRow>, book: Book, y: real, mode: Mode, samples: seq<seq<string>>)
    returns (r: Result<Dict<string, real>>)
    requires forall q :: q in samples ==> multiset(q) == multiset(DeskNames(rows))
    ensures r.Ok? <==> Evaluable(rows, mode, samples)
    ensures r.Ok? ==> Unique(r.value)
    ensures r.Ok? ==> forall name ::
              Get(r.value, name) == CreditIn(NormalizedValue(book, y), DeskNames(rows), mode, samples, name)
    ensures r.Ok? && SharesOut(rows, mode) ==> Sum(r.value, Second()) == Reduction(rows, book, y)
  {
    var v := NormalizedValue(book, y);
    assert v({}) == NegatedSquare(y) by { StartingValues(rows, book, ParamsRow(0, "", 0.0, 0.0, 0), y); }
    assert v(Elements(DeskNames(rows))) - v({}) == Reduction(rows, book, y);
    r := DecisionValues(DeskNames(rows), v, NegatedSquare(y), mode, samples);
  }

  method GradingStep(weights: seq<WeightRow>, books: Dict<string, Book>, prints: Dict<string, real>, mode: Mode,
                     draw: Shuffler,
                     k: nat, d: WindowDecision, totals: Dict<string, Rollup>)
    returns (r: Result<Dict<string, Rollup>>)
    requires Shuffles(draw) && ValidTotals(totals)
    ensures r.Ok? <==> GradingChecks(weights, prints, mode, draw)(k, d)
    ensures r.Ok? ==> ValidTotals(r.value)
    ensures r.Ok? ==> forall name :: RollupOf(r.value, name) ==
                        Plus(RollupOf(totals, name), GradingCredits(weights, books, prints, mode, draw)(k, d, name))
    ensures r.Ok? && SharesOut(LatestWeights(weights, d.regime), mode) ==>
              Sum(r.value, Total()) == Sum(totals, Total()) + FullReduction(weights, books, prints)(d)
  {
    var print_ := Get(prints, d.id);
    if print_.None? {
      return Ok(totals);
    }
    var rows := LatestWeights(weights, d.regime);
    var values := GradingValues(rows, BookOf(books, d.id), print_.value, mode, draw(k, DeskNames(rows)));
    if values.Raised? {
      return Raised(values.error);
    }
    var totals' := AddValues(totals, values.value);
    r := Ok(totals');
  }

  /** compute_shapley_grading_space, on books and prints already normalised over the window. */
  method GradingSpace(weights: seq<WeightRow>, decisions: seq<WindowDecision>, books: Dict<string, Book>,
                      prints: Dict<string, real>,
                      mode: Mode, draw: Shuffler)
    returns (r: Result<seq<AttributionRow>>)
    requires Shuffles(draw)
    ensures r.Ok? <==> FirstEvaluable(GradingChecks(weights, prints, mode, draw), decisions, |decisions|)
    ensures r.Ok? ==> IsRollup(r.value, GradingCredits(weights, books, prints, mode, draw), decisions,
                               AnySampled(EstimatesPrinted(weights, prints, mode), decisions, |decisions|))
    ensures r.Ok? && (forall d :: d in decisions ==> SharesOut(LatestWeights(weights, d.regime), mode)) ==>
              Sum(r.value, RowTotal()) == Sum(decisions, FullReduction(weights, books, prints))
  {
    var totals: Dict<string, Rollup>, sampled := [], false;
    ghost var full, credit := FullReduction(weights, books, prints), GradingCredits(weights, books, prints, mode, draw);
    ghost var ok, uses := GradingChecks(weights, prints, mode, draw), EstimatesPrinted(weights, prints, mode);
    ghost var shared := forall d :: d in decisions ==> SharesOut(LatestWeights(weights, d.regime), mode);
    for k := 0 to |decisions|
      invariant ValidTotals(totals)
      invariant FirstEvaluable(ok, decisions, k)
      invariant Accumulated(totals, credit, decisions, k)
      invariant sampled == AnySampled(uses, decisions, k)
      invariant shared ==> Sum(totals, Total()) == Sum(decisions[..k], full)
    {
      var d := decisions[k];
      assert d in decisions;
      var step := GradingStep(weights, books, prints, mode, draw, k, d, totals);
      if step.Raised? {
        return Raised(step.error);
      }
      AnySampledStep(uses, decisions, k);
      sampled := sampled || (Get(prints, d.id).Some? && UsesSampled(mode, |LatestWeights(weights, d.regime)|));
      SumStep(decisions, k, full);
      AccumulatedStep(totals, step.value, credit, decisions, k);
      totals := step.value;
    }
    assert decisions[..|decisions|] == decisions;
    var out := RowsOf(totals, sampled);
    RowsAreRollup(out, totals, credit, decisions, sampled);
    r := Ok(out);
  }
}
