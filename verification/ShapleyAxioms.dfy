/** What exact and sampled Shapley values promise, for any value function. */
module ShapleyAxioms {
  import opened Combinatorics
  import opened Sums
  import opened ShapleyTheory
  import opened Shapley

  // ----- exact value = average over orderings

  /** The factorial-weighted sum over coalitions is the average, over all n! orderings, of the sampled loop's credit. */
  lemma ExactIsOrderingAverage(v: Value, i: string, desks: seq<string>)
    requires Distinct(desks) && i in desks
    ensures ExactValue(v, i, desks) == Average(SampleTotal(v, i, Permutations(desks)), Factorial(|desks|))
  {
    var n, others := |desks|, Without(desks, i);
    LayersAreSubsets(others, {}, ExactTerm(v, i, n));
    ExactSumIsAverage(v, i, others, n);
    OrderingsAreSubsets(v, i, desks, {}, 0, n);
  }

  lemma ExactSumIsAverage(v: Value, i: string, others: seq<string>, n: nat)
    ensures SubsetSum(others, {}, ExactTerm(v, i, n)) == Average(SubsetSum(others, {}, Term(v, i, 0, n)), Factorial(n))
  {
    forall s: set<string> ensures ExactTerm(v, i, n)(s) == Average(Term(v, i, 0, n)(s), Factorial(n)) {
      assert Term(v, i, 0, n)(s) == Times(Weight(|s|, n), Marginal(v, i, s));
      assert ExactTerm(v, i, n)(s) == Weighted(n)(|s|, Marginal(v, i, s));
    }
    SubsetSumAverage(others, {}, Factorial(n), Term(v, i, 0, n), ExactTerm(v, i, n));
  }

  /** Drawing every ordering once makes the estimator exact, in whatever order they come. */
  lemma SampledOverAllOrderingsIsExact(v: Value, i: string, desks: seq<string>, samples: seq<seq<string>>)
    requires Distinct(desks) && i in desks
    requires multiset(samples) == multiset(Permutations(desks))
    ensures samples != [] && Average(SampleTotal(v, i, samples), |samples|) == ExactValue(v, i, desks)
  {
    PermutationsCount(desks);
    assert |samples| == |multiset(samples)| == Factorial(|desks|);
    SumPermutation(samples, Permutations(desks), Credits(v, i, {}));
    ExactIsOrderingAverage(v, i, desks);
  }

  // ----- efficiency

  ghost function ExactValues(v: Value, desks: seq<string>): string -> real {
    i => ExactValue(v, i, desks)
  }

  ghost function SampleTotals(v: Value, samples: seq<seq<string>>): string -> real {
    i => SampleTotal(v, i, samples)
  }

  /** The names the values are stored under, and the total of the values. */
  ghost function ExactTotal(v: Value, desks: seq<string>): real {
    Sum(FirstOccurrences(desks), ExactValues(v, desks))
  }

  ghost function SampledSum(v: Value, desks: seq<string>, samples: seq<seq<string>>): real {
    Sum(FirstOccurrences(desks), SampleTotals(v, samples))
  }

  lemma {:induction false} SumOfPoint(ds: seq<string>, x: string, m: real)
    requires Distinct(ds)
    ensures Sum(ds, d => if x == d then m else 0.0) == if x in ds then m else 0.0
  {
    if ds != [] {
      DistinctTail(ds);
      SumOfPoint(ds[1..], x, m);
    }
  }

  /** Along one ordering the marginals telescope. */
  lemma {:induction false} CreditsTelescope(v: Value, ds: seq<string>, p: seq<string>, base: set<string>)
    requires Distinct(ds) && forall x :: x in p ==> x in ds
    ensures Sum(ds, CreditTo(v, p, base)) == v(base + Elements(p)) - v(base)
  {
    if p == [] {
      SumConstant(ds, 0.0, CreditTo(v, p, base));
      TimesIsProduct(|ds|, 0.0);
      assert base + Elements(p) == base;
    } else {
      var x, base' := p[0], base + {p[0]};
      var m := Marginal(v, x, base);
      CreditsTelescope(v, ds, p[1..], base');
      SumOfPoint(ds, x, m);
      SumPlus(ds, d => if x == d then m else 0.0, CreditTo(v, p[1..], base'), CreditTo(v, p, base));
      ElementsSplit(p);
      assert base' + Elements(p[1..]) == base + Elements(p);
    }
  }

  ghost function CreditTo(v: Value, p: seq<string>, base: set<string>): string -> real {
    d => Credit(v, d, p, base)
  }

  lemma SameElements(p: seq<string>, desks: seq<string>)
    requires multiset(p) == multiset(desks)
    ensures Elements(p) == Elements(desks) && |p| == |desks|
  {
    assert forall x :: x in p <==> x in multiset(p);
    assert forall x :: x in desks <==> x in multiset(desks);
    assert |p| == |multiset(p)| == |desks|;
  }

  /** Sampled efficiency: for every sequence of shuffles, the totals add up to the value of the grand coalition. */
  lemma {:induction false} SampledEfficiency(v: Value, desks: seq<string>, samples: seq<seq<string>>)
    requires forall p :: p in samples ==> multiset(p) == multiset(desks)
    ensures SampledSum(v, desks, samples) == Times(|samples|, v(Elements(desks)) - v({}))
  {
    var ds, gain := FirstOccurrences(desks), v(Elements(desks)) - v({});
    if samples == [] {
      SumConstant(ds, 0.0, SampleTotals(v, samples));
      TimesIsProduct(|ds|, 0.0);
    } else {
      var p, rest := samples[0], samples[1..];
      assert p in samples && forall q :: q in rest ==> q in samples;
      SampledEfficiency(v, desks, rest);
      OneSample(v, desks, p);
      SumPlus(ds, CreditTo(v, p, {}), SampleTotals(v, rest), SampleTotals(v, samples));
    }
  }

  lemma OneSample(v: Value, desks: seq<string>, p: seq<string>)
    requires multiset(p) == multiset(desks)
    ensures Sum(FirstOccurrences(desks), CreditTo(v, p, {})) == v(Elements(desks)) - v({})
  {
    var ds := FirstOccurrences(desks);
    FirstOccurrencesSpec(desks);
    SameElements(p, desks);
    forall x | x in p ensures x in ds { assert x in Elements(p); assert x in Elements(ds); }
    CreditsTelescope(v, ds, p, {});
    assert {} + Elements(p) == Elements(desks);
  }

  /** Exact efficiency for distinct desks. */
  lemma ExactEfficiency(v: Value, desks: seq<string>)
    requires Distinct(desks)
    ensures ExactTotal(v, desks) == v(Elements(desks)) - v({})
  {
    var ps := Permutations(desks);
    forall p | p in ps ensures multiset(p) == multiset(desks) { PermutationsExact(desks, p); }
    SampledEfficiency(v, desks, ps);
    PermutationsCount(desks);
    ExactTotalIsAverage(v, desks);
    AverageOfCopies(v(Elements(desks)) - v({}), |ps|);
  }

  lemma ExactTotalIsAverage(v: Value, desks: seq<string>)
    requires Distinct(desks)
    ensures ExactTotal(v, desks) == Average(SampledSum(v, desks, Permutations(desks)), Factorial(|desks|))
  {
    var ps, n := Permutations(desks), Factorial(|desks|);
    DistinctFirstOccurrences(desks);
    forall i | i in desks ensures ExactValues(v, desks)(i) == Average(SampleTotals(v, ps)(i), n) {
      ExactIsOrderingAverage(v, i, desks);
    }
    SumOfAverages(desks, n, SampleTotals(v, ps), ExactValues(v, desks));
  }

  /** Worth 1 as soon as anybody joins. */
  function AnyoneJoined(s: set<string>): real {
    if s == {} then 0.0 else 1.0
  }

  /** Only the empty coalition has a marginal here, so every desk is worth 1 / n. */
  lemma ExactValueOfAnyone(i: string, desks: seq<string>)
    requires i in desks
    ensures ExactValue(AnyoneJoined, i, desks) == 1.0 / |desks| as real
  {
    var n := |desks|;
    var others, f, g := Without(desks, i), ExactTerm(AnyoneJoined, i, n), (s: set<string>) => 0.0;
    LayersAreSubsets(others, {}, f);
    EmptyWeight(n, 1.0);
    forall s: set<string> | {} < s ensures f(s) == g(s) {
      NoMarginalNoWeight(n, |s|);
      assert f(s) == Weighted(n)(|s|, Marginal(AnyoneJoined, i, s));
      assert Marginal(AnyoneJoined, i, s) == 0.0;
    }
    SubsetSumAtBase(others, {}, f, g);
    SubsetSumOfZero(others, {}, g);
    assert f({}) == Weighted(n)(0, Marginal(AnyoneJoined, i, {}));
  }

  /** The empty coalition weighs 1 / n. */
  lemma EmptyWeight(n: nat, m: real)
    requires n > 0
    ensures Weighted(n)(0, m) == Average(m, n)
  {
    var a := Factorial(n - 1);
    assert Factorial(0) == 1 && Weight(0, n) == a && Factorial(n) == n * a;
    TimesIsProduct(a, m);
    CancelFactor(a, n, m);
  }

  lemma CancelFactor(a: nat, n: nat, m: real)
    requires a > 0 && n > 0
    ensures (a as real * m) / (n * a) as real == m / n as real
  {
    var q, x := m / n as real, a as real;
    assert q * n as real == m;
    assert (n * a) as real == n as real * x;
    assert x * m == q * (n as real * x);
  }

  lemma NoMarginalNoWeight(n: nat, size: nat)
    ensures Weighted(n)(size, 0.0) == 0.0
  {
    TimesIsProduct(Weight(size, n), 0.0);
  }

  lemma {:induction false} SubsetSumOfZero(xs: seq<string>, base: set<string>, g: Value)
    requires forall s :: g(s) == 0.0
    ensures SubsetSum(xs, base, g) == 0.0
  {
    if xs != [] {
      SubsetSumOfZero(xs[1..], base, g);
      SubsetSumOfZero(xs[1..], base + {xs[0]}, g);
    }
  }

  lemma RepeatedNameIsInefficient(desks: seq<string>)
    requires !Distinct(desks)
    ensures ExactTotal(AnyoneJoined, desks) < AnyoneJoined(Elements(desks)) - AnyoneJoined({})
  {
    var ds, n := FirstOccurrences(desks), |desks|;
    FirstOccurrencesSpec(desks);
    DistinctFirstOccurrences(desks);
    var share := 1.0 / n as real;
    forall i | i in ds ensures ExactValue(AnyoneJoined, i, desks) == share {
      assert i in Elements(ds);
      ExactValueOfAnyone(i, desks);
    }
    SumConstant(ds, share, ExactValues(AnyoneJoined, desks));
    assert desks[0] in Elements(desks);
    FewerThanAll(|ds|, n, share);
  }

  lemma FewerThanAll(k: nat, n: nat, share: real)
    requires k < n && share == 1.0 / n as real
    ensures Times(k, share) < 1.0
  {
    TimesIsProduct(n, share);
    TimesPlus(n - k - 1, k + 1, share);
    TimesIsProduct(n - k - 1, share);
  }

  // ----- bounds

  /** If every marginal of i lies in [lo, hi], so does its credit along an ordering in which it appears once. */
  lemma {:induction false} CreditBounds(v: Value, i: string, p: seq<string>, base: set<string>, all: set<string>,
                                        lo: real, hi: real)
    requires Distinct(p) && i in p && i !in base && base + Elements(p) <= all
    requires forall s :: s <= all && i !in s ==> lo <= Marginal(v, i, s) <= hi
    ensures lo <= Credit(v, i, p, base) <= hi
  {
    ElementsSplit(p);
    DistinctTail(p);
    assert base + {p[0]} + Elements(p[1..]) == base + Elements(p);
    if p[0] == i {
      CreditAbsent(v, i, p[1..], base + {i});
    } else {
      CreditBounds(v, i, p[1..], base + {p[0]}, all, lo, hi);
    }
  }

  /** The mean credit over any shuffles lies between the extremes of the desk's marginals. */
  lemma SampledBounds(v: Value, i: string, desks: seq<string>, samples: seq<seq<string>>, lo: real, hi: real)
    requires Distinct(desks) && i in desks && samples != []
    requires forall p :: p in samples ==> multiset(p) == multiset(desks)
    requires forall s :: s <= Elements(desks) && i !in s ==> lo <= Marginal(v, i, s) <= hi
    ensures lo <= Average(SampleTotal(v, i, samples), |samples|) <= hi
  {
    forall p | p in samples ensures lo <= Credits(v, i, {})(p) <= hi {
      SameElements(p, desks);
      DistinctSize(p);
      DistinctSize(desks);
      assert i in Elements(p);
      CreditBounds(v, i, p, {}, Elements(desks), lo, hi);
    }
    SumBounds(samples, lo, hi, Credits(v, i, {}));
    AverageBounds(SampleTotal(v, i, samples), |samples|, lo, hi);
  }

  /** A desk's exact value lies between the extremes of its marginals. */
  lemma ExactBounds(v: Value, i: string, desks: seq<string>, lo: real, hi: real)
    requires Distinct(desks) && i in desks
    requires forall s :: s <= Elements(desks) && i !in s ==> lo <= Marginal(v, i, s) <= hi
    ensures lo <= ExactValue(v, i, desks) <= hi
  {
    var ps := Permutations(desks);
    forall p | p in ps ensures multiset(p) == multiset(desks) { PermutationsExact(desks, p); }
    PermutationsCount(desks);
    ExactIsOrderingAverage(v, i, desks);
    SampledBounds(v, i, desks, ps, lo, hi);
  }

  // ----- symmetry

  /** Two desks whose arrival is worth the same to every coalition without either of them earn the same. */
  lemma ExactSymmetry(v: Value, i: string, j: string, desks: seq<string>)
    requires Distinct(desks) && i in desks && j in desks && i != j
    requires Interchangeable(v, i, j)
    ensures ExactValue(v, i, desks) == ExactValue(v, j, desks)
  {
    var n := |desks|;
    LayersAreSubsets(Without(desks, i), {}, ExactTerm(v, i, n));
    LayersAreSubsets(Without(desks, j), {}, ExactTerm(v, j, n));
    SwapPlayers(v, i, j, desks, {}, Weighted(n));
  }

  ghost predicate Interchangeable(v: Value, i: string, j: string) {
    forall s :: i !in s && j !in s ==> v(s + {i}) == v(s + {j})
  }

  lemma {:induction false} SwapPlayers(v: Value, i: string, j: string, xs: seq<string>, base: set<string>,
                                       w: (nat, real) -> real)
    requires Distinct(xs) && i in xs && j in xs && i != j
    requires i !in base && j !in base && Interchangeable(v, i, j)
    ensures SubsetSum(Without(xs, i), base, WeightedTerm(v, i, w))
              == SubsetSum(Without(xs, j), base, WeightedTerm(v, j, w))
  {
    var x, rest := xs[0], xs[1..];
    DistinctTail(xs);
    if x != i && x != j {
      SwapPlayers(v, i, j, rest, base, w);
      SwapPlayers(v, i, j, rest, base + {x}, w);
      SubsetSumHead(x, Without(rest, i), base, WeightedTerm(v, i, w));
      SubsetSumHead(x, Without(rest, j), base, WeightedTerm(v, j, w));
    } else {
      var other := if x == i then j else i;
      WithoutAbsent(rest, x);
      assert Interchangeable(v, x, other);
      SwapTail(v, x, other, rest, base, w);
      SubsetSumHead(x, Without(rest, other), base, WeightedTerm(v, other, w));
    }
  }

  lemma {:induction false} SubsetSumHead(x: string, xs: seq<string>, base: set<string>, f: Value)
    ensures SubsetSum([x] + xs, base, f) == SubsetSum(xs, base, f) + SubsetSum(xs, base + {x}, f)
  {
    assert ([x] + xs)[1..] == xs;
  }

  /** Coalitions of the tail as a sees them, against coalitions of a and the tail as b sees them. */
  lemma {:induction false} SwapTail(v: Value, a: string, b: string, rest: seq<string>, base: set<string>,
                                    w: (nat, real) -> real)
    requires Distinct(rest) && a !in rest && b in rest && a != b
    requires a !in base && b !in base && Interchangeable(v, a, b)
    ensures SubsetSum(rest, base, WeightedTerm(v, a, w)) ==
            SubsetSum(Without(rest, b), base, WeightedTerm(v, b, w))
                + SubsetSum(Without(rest, b), base + {a}, WeightedTerm(v, b, w))
  {
    var x, tail := rest[0], rest[1..];
    DistinctTail(rest);
    if x == b {
      WithoutAbsent(tail, b);
      SwapLeaves(v, a, b, tail, base, w);
    } else {
      SwapTail(v, a, b, tail, base, w);
      SwapTail(v, a, b, tail, base + {x}, w);
      assert base + {x} + {a} == base + {a} + {x};
      SubsetSumHead(x, Without(tail, b), base, WeightedTerm(v, b, w));
      SubsetSumHead(x, Without(tail, b), base + {a}, WeightedTerm(v, b, w));
    }
  }

  lemma {:induction false} SwapLeaves(v: Value, a: string, b: string, xs: seq<string>, base: set<string>,
                                      w: (nat, real) -> real)
    requires a !in xs && b !in xs && a != b && a !in base && b !in base && Interchangeable(v, a, b)
    ensures SubsetSum(xs, base, WeightedTerm(v, a, w)) == SubsetSum(xs, base, WeightedTerm(v, b, w))
    ensures SubsetSum(xs, base + {b}, WeightedTerm(v, a, w)) == SubsetSum(xs, base + {a}, WeightedTerm(v, b, w))
  {
    if xs == [] {
      SwapLeaf(v, a, b, base, w);
    } else {
      SwapLeaves(v, a, b, xs[1..], base, w);
      SwapLeaves(v, a, b, xs[1..], base + {xs[0]}, w);
      assert base + {xs[0]} + {b} == base + {b} + {xs[0]};
      assert base + {xs[0]} + {a} == base + {a} + {xs[0]};
    }
  }

  lemma SwapLeaf(v: Value, a: string, b: string, base: set<string>, w: (nat, real) -> real)
    requires a != b && a !in base && b !in base && Interchangeable(v, a, b)
    ensures WeightedTerm(v, a, w)(base) == WeightedTerm(v, b, w)(base)
    ensures WeightedTerm(v, a, w)(base + {b}) == WeightedTerm(v, b, w)(base + {a})
  {
    assert v(base + {a}) == v(base + {b});
    assert Marginal(v, a, base) == Marginal(v, b, base);
    assert base + {a} + {b} == base + {b} + {a};
    assert Marginal(v, a, base + {b}) == Marginal(v, b, base + {a});
    assert |base + {a}| == |base + {b}|;
  }
}
