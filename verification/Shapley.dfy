/** Shapley attribution, exact and sampled (attribution/shapley.py). */
module Shapley {
  import opened Contracts
  import opened Combinatorics
  import opened Sums
  import opened Dicts
  import opened ShapleyTheory

  /**
   The three exact and the three sampled functions of the source differ only in their value function, so
   each algorithm is given once, for any v. The caller supplies the shuffles a seeded generator would draw.
   */
  type Value = set<string> -> real

  const EXACT_MAX_N := 6

  /** Keys in the order a dict keeps them: each name once, at its first occurrence. */
  function FirstOccurrences(xs: seq<string>): seq<string>
  {
    if xs == [] then []
    else
      var front, last := FirstOccurrences(xs[..|xs| - 1]), xs[|xs| - 1];
      if last in front then front else front + [last]
  }

  lemma {:induction false} FirstOccurrencesSpec(xs: seq<string>)
    ensures Distinct(FirstOccurrences(xs)) && Elements(FirstOccurrences(xs)) == Elements(xs)
  {
    if xs != [] {
      var front, last := xs[..|xs| - 1], xs[|xs| - 1];
      FirstOccurrencesSpec(front);
      ElementsSnoc(front, last);
      assert xs == front + [last];
      ElementsSnoc(FirstOccurrences(front), last);
      assert last in FirstOccurrences(front) <==> last in Elements(FirstOccurrences(front));
    }
  }

  lemma {:induction false} ElementsSnoc<T>(xs: seq<T>, x: T)
    ensures Elements(xs + [x]) == Elements(xs) + {x}
  {
  }

  lemma DistinctFirstOccurrences(xs: seq<string>)
    ensures |FirstOccurrences(xs)| == |Elements(xs)| <= |xs|
    ensures |FirstOccurrences(xs)| == |xs| <==> Distinct(xs)
    ensures Distinct(xs) ==> FirstOccurrences(xs) == xs
  {
    FirstOccurrencesSpec(xs);
    DistinctSize(FirstOccurrences(xs));
    DistinctSize(xs);
    if Distinct(xs) { FirstOccurrencesOfDistinct(xs); }
  }

  lemma {:induction false} FirstOccurrencesOfDistinct(xs: seq<string>)
    requires Distinct(xs)
    ensures FirstOccurrences(xs) == xs
  {
    if xs != [] {
      var front, last := xs[..|xs| - 1], xs[|xs| - 1];
      FirstOccurrencesOfDistinct(front);
      assert last !in front;
    }
  }

  /** A name is listed before another when it occurs first. */
  lemma {:induction false} FirstOccurrencesOrder(xs: seq<string>, i: nat, j: nat)
    requires i < j < |FirstOccurrences(xs)|
    ensures exists p :: 0 <= p < |xs| && xs[p] == FirstOccurrences(xs)[i] && FirstOccurrences(xs)[j] !in xs[..p + 1]
  {
    var front, names := xs[..|xs| - 1], FirstOccurrences(xs[..|xs| - 1]);
    FirstOccurrencesSpec(front);
    if j < |names| {
      FirstOccurrencesOrder(front, i, j);
      var p :| 0 <= p < |front| && front[p] == names[i] && names[j] !in front[..p + 1];
      assert xs[p] == names[i] && xs[..p + 1] == front[..p + 1];
    } else {
      assert names[i] in Elements(names) && names[i] in Elements(front);
      var p :| 0 <= p < |front| && front[p] == names[i];
      assert xs[p] == names[i] && xs[..p + 1] == front[..p + 1];
      assert FirstOccurrences(xs)[j] == xs[|xs| - 1] && xs[|xs| - 1] !in Elements(names);
      assert forall x :: x in front[..p + 1] ==> x in Elements(front);
    }
  }

  ghost function Names<V>(d: Dict<string, V>): seq<string> {
    seq(|d|, i requires 0 <= i < |d| => d[i].0)
  }

  // ----- the exact formula

  /** |S|! (n - |S| - 1)! / n! */
  function CoalitionWeight(size: nat, n: nat): real
    requires size < n
  {
    (Factorial(size) * Factorial(n - size - 1)) as real / Factorial(n) as real
  }

  /** The summand of a coalition of the given size with marginal m, among n desks. */
  function Weighted(n: nat): (nat, real) -> real {
    (size: nat, m) => Average(Times(Weight(size, n), m), Factorial(n))
  }

  /** The weight is a quotient in the source; multiplying by it averages copies of the marginal. */
  lemma WeightedIsProduct(size: nat, n: nat, m: real)
    requires size < n
    ensures Weighted(n)(size, m) == CoalitionWeight(size, n) * m
  {
    var w := Weight(size, n);
    TimesIsProduct(w, m);
    MoveDivision(w as real, Factorial(n) as real, m);
  }

  lemma MoveDivision(w: real, f: real, m: real)
    requires f != 0.0
    ensures w / f * m == (w * m) / f
  {
  }

  ghost function WeightedTerm(v: Value, i: string, w: (nat, real) -> real): Value {
    s => w(|s|, Marginal(v, i, s))
  }

  ghost function ExactTerm(v: Value, i: string, n: nat): Value {
    WeightedTerm(v, i, Weighted(n))
  }

  /** The value the nested loops accumulate for i. */
  ghost function ExactValue(v: Value, i: string, desks: seq<string>): real {
    LayerSum(Without(desks, i), |Without(desks, i)| + 1, {}, ExactTerm(v, i, |desks|))
  }

  /** The dictionary of v over every subset of the desks. */
  method CacheValues(desks: seq<string>, v: Value) returns (table: map<set<string>, real>)
    ensures forall s :: s <= Elements(desks) ==> s in table && table[s] == v(s)
  {
    table := map[];
    for r := 0 to |desks| + 1
      invariant forall s :: s in table ==> table[s] == v(s)
      invariant forall q, c :: 0 <= q < r && c in Combinations(desks, q) ==> Elements(c) in table
    {
      var cs := Combinations(desks, r);
      for k := 0 to |cs|
        invariant forall s :: s in table ==> table[s] == v(s)
        invariant forall q, c :: 0 <= q < r && c in Combinations(desks, q) ==> Elements(c) in table
        invariant forall j :: 0 <= j < k ==> Elements(cs[j]) in table
      {
        var s := Elements(cs[k]);
        table := table[s := v(s)];
      }
    }
    forall s | s <= Elements(desks) ensures s in table {
      var c := SubsetIsCombination(desks, s);
      DistinctSize(desks);
      SubsetSize(s, Elements(desks));
    }
  }

  lemma SubsetSize<T>(a: set<T>, b: set<T>)
    requires a <= b
    ensures |a| <= |b|
  {
    assert b == a + (b - a);
  }

  /** One player's accumulation over the cached table. */
  method ExactPlayer(desks: seq<string>, i: string, ghost v: Value, table: map<set<string>, real>) returns (acc: real)
    requires i in desks
    requires forall s :: s <= Elements(desks) ==> s in table && table[s] == v(s)
    ensures acc == ExactValue(v, i, desks)
  {
    var others := Without(desks, i);
    acc := 0.0;
    for r := 0 to |others| + 1
      invariant acc == LayerSum(others, r, {}, ExactTerm(v, i, |desks|))
    {
      acc := ExactLayer(desks, i, v, table, r, acc);
    }
  }

  /** The inner loop: every coalition of r others. */
  method ExactLayer(desks: seq<string>, i: string, ghost v: Value, table: map<set<string>, real>, r: nat,
                    before: real) returns (acc: real)
    requires i in desks
    requires forall s :: s <= Elements(desks) ==> s in table && table[s] == v(s)
    ensures acc == before + CombinationSum(Without(desks, i), r, {}, ExactTerm(v, i, |desks|))
  {
    var cs := Combinations(Without(desks, i), r);
    ghost var f := ExactTerm(v, i, |desks|);
    acc := before;
    for k := 0 to |cs|
      invariant acc == before + Sum(cs[..k], c => f({} + Elements(c)))
    {
      var s := Elements(cs[k]);
      assert s <= Elements(desks) - {i} by {
        CombinationsMember(Without(desks, i), r, cs[k]);
        WithoutElements(desks, i);
      }
      var term := CoalitionTerm(desks, i, v, table, s);
      acc := acc + term;
      LayerStep(cs, k, f, s);
    }
    assert cs[..|cs|] == cs;
  }

  method CoalitionTerm(desks: seq<string>, i: string, ghost v: Value, table: map<set<string>, real>,
                       s: set<string>) returns (term: real)
    requires i in desks && s <= Elements(desks) - {i}
    requires forall s :: s <= Elements(desks) ==> s in table && table[s] == v(s)
    ensures term == ExactTerm(v, i, |desks|)(s)
  {
    PlayersBefore(desks, i, s);
    var marginal := table[s + {i}] - table[s];
    term := CoalitionWeight(|s|, |desks|) * marginal;
    WeightedIsProduct(|s|, |desks|, marginal);
    assert marginal == Marginal(v, i, s);
  }

  lemma LayerStep(cs: seq<seq<string>>, k: nat, f: Value, s: set<string>)
    requires k < |cs| && s == Elements(cs[k])
    ensures Sum(cs[..k + 1], c => f({} + Elements(c))) == Sum(cs[..k], c => f({} + Elements(c))) + f(s)
  {
    SumStep(cs, k, c => f({} + Elements(c)));
    assert {} + s == s;
  }

  lemma PlayersBefore(desks: seq<string>, i: string, s: set<string>)
    requires i in desks && s <= Elements(desks) - {i}
    ensures |s| < |desks| && s + {i} <= Elements(desks)
  {
    DistinctSize(desks);
    SubsetSize(s + {i}, Elements(desks));
  }

  /** _shapley_values_for_decision and its two grading variants. */
  method ExactShapley(desks: seq<string>, v: Value) returns (r: Result<Dict<string, real>>)
    ensures r.Raised? <==> |desks| > 6
    ensures r.Ok? ==> Names(r.value) == FirstOccurrences(desks)
    ensures r.Ok? ==> forall e :: e in r.value ==> e.1 == ExactValue(v, e.0, desks)
  {
    if |desks| == 0 {
      return Ok([]);
    }
    if |desks| > EXACT_MAX_N {
      return Raised(ValueError);
    }
    var table := CacheValues(desks, v);
    var values: Dict<string, real> := [];
    for k := 0 to |desks|
      invariant Names(values) == FirstOccurrences(desks[..k])
      invariant forall e :: e in values ==> e.1 == ExactValue(v, e.0, desks)
    {
      var acc := ExactPlayer(desks, desks[k], v, table);
      assert desks[..k + 1][..k] == desks[..k];
      PutName(values, desks[k], acc);
      values := Put(values, desks[k], acc);
    }
    assert desks[..|desks|] == desks;
    r := Ok(values);
  }

  /** Storing under a name appends it unless it is already a key. */
  lemma {:induction false} PutName<V>(d: Dict<string, V>, k: string, x: V)
    ensures Names(Put(d, k, x)) == if k in Names(d) then Names(d) else Names(d) + [k]
    ensures forall e :: e in Put(d, k, x) ==> e == (k, x) || e in d
  {
    if d != [] {
      assert Names(d) == [d[0].0] + Names(d[1..]);
      if d[0].0 != k {
        PutName(d[1..], k, x);
        var tail := Put(d[1..], k, x);
        assert Names([d[0]] + tail) == [d[0].0] + Names(tail);
      } else {
        assert Names([(k, x)] + d[1..]) == [k] + Names(d[1..]);
      }
    }
  }

  // ----- the sampled estimator

  lemma {:induction false} CreditAppend(v: Value, i: string, p: seq<string>, x: string, base: set<string>)
    ensures Credit(v, i, p + [x], base) ==
            Credit(v, i, p, base) + if x == i then Marginal(v, i, base + Elements(p)) else 0.0
  {
    if p == [] {
      assert [] + [x] == [x];
      assert base + Elements<string>([]) == base;
    } else {
      assert (p + [x])[1..] == p[1..] + [x];
      CreditAppend(v, i, p[1..], x, base + {p[0]});
      ElementsSplit(p);
      assert base + {p[0]} + Elements(p[1..]) == base + Elements(p);
    }
  }

  ghost function SampleTotal(v: Value, i: string, samples: seq<seq<string>>): real {
    Sum(samples, Credits(v, i, {}))
  }

  /** Adds the marginals along one shuffle to the running totals. */
  method WalkSample(desks: seq<string>, v: Value, start: real, p: seq<string>, totals: map<string, real>)
    returns (totals': map<string, real>)
    requires start == v({})
    requires multiset(p) == multiset(desks) && totals.Keys == Elements(desks)
    ensures totals'.Keys == totals.Keys
    ensures forall i :: i in totals ==> totals'[i] == totals[i] + Credit(v, i, p, {})
  {
    totals' := totals;
    var prev, coalition := start, {};
    for k := 0 to |p|
      invariant totals'.Keys == totals.Keys
      invariant coalition == Elements(p[..k]) && prev == v(coalition)
      invariant forall i :: i in totals ==> totals'[i] == totals[i] + Credit(v, i, p[..k], {})
    {
      var d := p[k];
      assert d in multiset(desks) by { assert d in multiset(p); }
      assert {} + Elements(p[..k]) == coalition;
      forall i | i in totals {
        CreditAppend(v, i, p[..k], d, {});
      }
      assert p[..k + 1] == p[..k] + [d];
      coalition := coalition + {d};
      var cur := v(coalition);
      totals' := totals'[d := totals'[d] + (cur - prev)];
      prev := cur;
    }
    assert p[..|p|] == p;
  }

  /** _shapley_values_for_decision_sampled and its two grading variants; start is the value prev begins with. */
  method SampledShapley(desks: seq<string>, v: Value, start: real,
                        samples: seq<seq<string>>) returns (r: Result<Dict<string, real>>)
    requires start == v({})
    requires forall p :: p in samples ==> multiset(p) == multiset(desks)
    ensures r.Raised? <==> desks != [] && samples == []
    ensures r.Ok? ==> Names(r.value) == FirstOccurrences(desks)
    ensures r.Ok? ==> forall e :: e in r.value ==> e.1 == Average(SampleTotal(v, e.0, samples), |samples|)
  {
    if |desks| == 0 {
      return Ok([]);
    }
    if |samples| == 0 {
      return Raised(ValueError);
    }
    var totals := map d | d in desks :: 0.0;
    for k := 0 to |samples|
      invariant totals.Keys == Elements(desks)
      invariant forall i :: i in totals ==> totals[i] == SampleTotal(v, i, samples[..k])
    {
      assert samples[k] in samples;
      totals := WalkSample(desks, v, start, samples[k], totals);
      forall i | i in totals ensures totals[i] == SampleTotal(v, i, samples[..k + 1]) {
        SumStep(samples, k, Credits(v, i, {}));
      }
    }
    assert samples[..|samples|] == samples;
    var values := AverageTotals(desks, totals, |samples|);
    r := Ok(values);
  }

  method AverageTotals(desks: seq<string>, totals: map<string, real>, n: nat) returns (values: Dict<string, real>)
    requires n > 0 && totals.Keys == Elements(desks)
    ensures Names(values) == FirstOccurrences(desks)
    ensures forall e :: e in values ==> e.0 in totals && e.1 == Average(totals[e.0], n)
  {
    values := [];
    for k := 0 to |desks|
      invariant Names(values) == FirstOccurrences(desks[..k])
      invariant forall e :: e in values ==> e.0 in totals && e.1 == Average(totals[e.0], n)
    {
      assert desks[k] in Elements(desks);
      assert desks[..k + 1][..k] == desks[..k];
      var mean := Average(totals[desks[k]], n);
      PutName(values, desks[k], mean);
      values := Put(values, desks[k], mean);
    }
    assert desks[..|desks|] == desks;
  }
}
