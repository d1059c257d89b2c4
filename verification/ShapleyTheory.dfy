/** The combinatorics behind Shapley values, for any value function and any players. */
module ShapleyTheory {
  import opened Sums
  import opened Combinatorics

  /** Sum of f over the sets base + S, for S a subset (by position) of xs. */
  ghost function SubsetSum<T>(xs: seq<T>, base: set<T>, f: set<T> -> real): real
  {
    if xs == [] then f(base)
    else SubsetSum(xs[1..], base, f) + SubsetSum(xs[1..], base + {xs[0]}, f)
  }

  lemma {:induction false} SubsetSumPlus<T>(xs: seq<T>, base: set<T>, f: set<T> -> real, g: set<T> -> real,
                                            h: set<T> -> real)
    requires forall s :: base <= s ==> h(s) == f(s) + g(s)
    ensures SubsetSum(xs, base, h) == SubsetSum(xs, base, f) + SubsetSum(xs, base, g)
  {
    if xs != [] {
      SubsetSumPlus(xs[1..], base, f, g, h);
      SubsetSumPlus(xs[1..], base + {xs[0]}, f, g, h);
    }
  }

  lemma {:induction false} SubsetSumAverage<T>(xs: seq<T>, base: set<T>, n: nat, f: set<T> -> real, h: set<T> -> real)
    requires n > 0 && forall s :: h(s) == Average(f(s), n)
    ensures SubsetSum(xs, base, h) == Average(SubsetSum(xs, base, f), n)
  {
    if xs != [] {
      SubsetSumAverage(xs[1..], base, n, f, h);
      SubsetSumAverage(xs[1..], base + {xs[0]}, n, f, h);
      AveragePlus(SubsetSum(xs[1..], base, f), SubsetSum(xs[1..], base + {xs[0]}, f), n);
    }
  }

  lemma {:induction false} SubsetSumCongruence<T>(xs: seq<T>, base: set<T>, f: set<T> -> real, g: set<T> -> real)
    requires forall s :: base <= s ==> f(s) == g(s)
    ensures SubsetSum(xs, base, f) == SubsetSum(xs, base, g)
  {
    if xs != [] {
      SubsetSumCongruence(xs[1..], base, f, g);
      SubsetSumCongruence(xs[1..], base + {xs[0]}, f, g);
    }
  }

  /** If f and g differ only at base itself, so do the two sums. */
  lemma {:induction false} SubsetSumAtBase<T>(xs: seq<T>, base: set<T>, f: set<T> -> real, g: set<T> -> real)
    requires forall x :: x in xs ==> x !in base
    requires forall s :: base < s ==> f(s) == g(s)
    ensures SubsetSum(xs, base, f) - SubsetSum(xs, base, g) == f(base) - g(base)
  {
    if xs != [] {
      SubsetSumAtBase(xs[1..], base, f, g);
      assert xs[0] !in base;
      assert base < base + {xs[0]};
      SubsetSumCongruence(xs[1..], base + {xs[0]}, f, g);
    }
  }

  // ----- the loops over r and over combinations cover every subset once

  /** Sum over the r-element combinations, as one pass of the inner loop. */
  ghost function CombinationSum<T>(xs: seq<T>, r: nat, base: set<T>, f: set<T> -> real): real
  {
    Sum(Combinations(xs, r), c => f(base + Elements(c)))
  }

  /** Sum over the combinations of fewer than m elements, as m passes of the outer loop. */
  ghost function LayerSum<T>(xs: seq<T>, m: nat, base: set<T>, f: set<T> -> real): real
  {
    if m == 0 then 0.0 else LayerSum(xs, m - 1, base, f) + CombinationSum(xs, m - 1, base, f)
  }

  lemma {:induction false} CombinationSumSplit<T>(xs: seq<T>, r: nat, base: set<T>, f: set<T> -> real)
    requires xs != [] && r > 0
    ensures CombinationSum(xs, r, base, f) ==
            CombinationSum(xs[1..], r - 1, base + {xs[0]}, f) + CombinationSum(xs[1..], r, base, f)
  {
    var x, rest := xs[0], xs[1..];
    var g := (c: seq<T>) => f(base + Elements(c));
    var h := (c: seq<T>) => f(base + {x} + Elements(c));
    SumAppend(Prepend(x, Combinations(rest, r - 1)), Combinations(rest, r), g);
    SumPrepend(x, Combinations(rest, r - 1), g);
    forall c: seq<T> ensures g([x] + c) == h(c) {
      assert base + Elements([x] + c) == base + {x} + Elements(c);
    }
    SumCongruence(Combinations(rest, r - 1), c => g([x] + c), h);
  }

  lemma {:induction false} LayerSumSplit<T>(xs: seq<T>, m: nat, base: set<T>, f: set<T> -> real)
    requires xs != [] && m > 0
    ensures LayerSum(xs, m, base, f) == LayerSum(xs[1..], m, base, f) + LayerSum(xs[1..], m - 1, base + {xs[0]}, f)
  {
    if m > 1 {
      LayerSumSplit(xs, m - 1, base, f);
      CombinationSumSplit(xs, m - 1, base, f);
    }
  }

  lemma {:induction false} LayersAreSubsets<T>(xs: seq<T>, base: set<T>, f: set<T> -> real)
    ensures LayerSum(xs, |xs| + 1, base, f) == SubsetSum(xs, base, f)
  {
    if xs == [] {
      EmptyLayer(xs, base, f);
    } else {
      var rest, n := xs[1..], |xs|;
      LayerSumSplit(xs, n + 1, base, f);
      assert LayerSum(xs, n + 1, base, f) == LayerSum(rest, n + 1, base, f) + LayerSum(rest, n, base + {xs[0]}, f);
      LastLayerIsEmpty(rest, base, f);
      assert LayerSum(rest, n + 1, base, f) == LayerSum(rest, n, base, f);
      LayersAreSubsets(rest, base, f);
      assert LayerSum(rest, n, base, f) == SubsetSum(rest, base, f);
      LayersAreSubsets(rest, base + {xs[0]}, f);
      assert LayerSum(rest, n, base + {xs[0]}, f) == SubsetSum(rest, base + {xs[0]}, f);
    }
  }

  lemma {:induction false} LastLayerIsEmpty<T>(xs: seq<T>, base: set<T>, f: set<T> -> real)
    ensures LayerSum(xs, |xs| + 2, base, f) == LayerSum(xs, |xs| + 1, base, f)
  {
    NoLongCombinations(xs, |xs| + 1);
    assert CombinationSum(xs, |xs| + 1, base, f) == 0.0;
  }

  lemma {:induction false} EmptyLayer<T>(xs: seq<T>, base: set<T>, f: set<T> -> real)
    ensures LayerSum(xs, 1, base, f) == f(base)
  {
    var g := (c: seq<T>) => f(base + Elements(c));
    assert Combinations(xs, 0) == [[]];
    assert base + Elements<T>([]) == base;
    assert Sum<seq<T>>([[]], g) == g([]) + Sum([], g);
    assert LayerSum(xs, 0, base, f) == 0.0;
  }

  lemma {:induction false} NoLongCombinations<T>(xs: seq<T>, r: nat)
    requires r > |xs|
    ensures Combinations(xs, r) == []
  {
    if xs != [] {
      NoLongCombinations(xs[1..], r - 1);
      NoLongCombinations(xs[1..], r);
    }
  }

  // ----- choosing one more member in every possible way

  /** For each x in xs other than i, from position k on: the sum of f over the sets that contain base and x and no i. */
  ghost function PivotSum<T>(xs: seq<T>, i: T, base: set<T>, f: set<T> -> real, k: nat): real
    requires k <= |xs|
    decreases |xs| - k
  {
    if k == |xs| then 0.0
    else
      (if xs[k] == i then 0.0 else SubsetSum(Without(RemoveAt(xs, k), i), base + {xs[k]}, f))
      + PivotSum(xs, i, base, f, k + 1)
  }

  lemma {:induction false} PivotShift<T>(xs: seq<T>, i: T, base: set<T>, f: set<T> -> real, k: nat)
    requires xs != [] && k <= |xs| - 1
    ensures PivotSum(xs, i, base, f, k + 1) ==
            if xs[0] == i then PivotSum(xs[1..], i, base, f, k)
            else PivotSum(xs[1..], i, base, f, k) + PivotSum(xs[1..], i, base + {xs[0]}, f, k)
    decreases |xs| - k
  {
    if k < |xs| - 1 {
      var x, rest := xs[0], xs[1..];
      PivotShift(xs, i, base, f, k + 1);
      assert RemoveAt(xs, k + 1) == [x] + RemoveAt(rest, k);
      assert base + {xs[k + 1]} + {x} == base + {x} + {rest[k]};
    }
  }

  /** f, counted once for every member beyond the first b. */
  ghost function Scaled<T>(b: int, f: set<T> -> real): set<T> -> real {
    s => Times(|s| - b, f(s))
  }

  /** Each superset S of base is reached once for every member it adds. */
  lemma {:induction false} PivotCount<T>(xs: seq<T>, i: T, base: set<T>, f: set<T> -> real)
    requires Distinct(xs) && forall x :: x in xs ==> x !in base
    ensures PivotSum(xs, i, base, f, 0) == SubsetSum(Without(xs, i), base, Scaled(|base|, f))
  {
    if xs == [] {
      assert Times(0, f(base)) == 0.0;
    } else {
      var x, rest := xs[0], xs[1..];
      PivotUnfold(xs, i, base, f);
      assert forall j :: 0 <= j < |rest| ==> rest[j] == xs[j + 1];
      PivotCount(rest, i, base, f);
      if x != i {
        assert x !in base && |base + {x}| == |base| + 1;
        PivotCount(rest, i, base + {x}, f);
        PivotJoin(x, Without(rest, i), base, f);
      }
    }
  }

  lemma {:induction false} PivotJoin<T>(x: T, others: seq<T>, base: set<T>, f: set<T> -> real)
    requires x !in base
    ensures SubsetSum([x] + others, base, Scaled(|base|, f)) ==
            SubsetSum(others, base + {x}, f) + SubsetSum(others, base, Scaled(|base|, f))
            + SubsetSum(others, base + {x}, Scaled(|base| + 1, f))
  {
    var h, h' := Scaled(|base|, f), Scaled(|base| + 1, f);
    forall s | base + {x} <= s ensures h(s) == f(s) + h'(s) {
      StrictSupersetIsLarger(base, s);
    }
    SubsetSumPlus(others, base + {x}, f, h', h);
    assert ([x] + others)[1..] == others;
  }

  lemma {:induction false} PivotUnfold<T>(xs: seq<T>, i: T, base: set<T>, f: set<T> -> real)
    requires xs != []
    ensures PivotSum(xs, i, base, f, 0) ==
            if xs[0] == i then PivotSum(xs[1..], i, base, f, 0)
            else SubsetSum(Without(xs[1..], i), base + {xs[0]}, f) + PivotSum(xs[1..], i, base, f, 0)
                 + PivotSum(xs[1..], i, base + {xs[0]}, f, 0)
  {
    PivotShift(xs, i, base, f, 0);
    assert RemoveAt(xs, 0) == xs[1..];
  }

  // ----- what the sampled loop credits along one ordering

  /** v(S + i) - v(S). */
  function Marginal<T>(v: set<T> -> real, i: T, s: set<T>): real {
    v(s + {i}) - v(s)
  }

  /** What player i earns while the players of p join base one after another. */
  function Credit<T(==)>(v: set<T> -> real, i: T, p: seq<T>, base: set<T>): real
  {
    if p == [] then 0.0
    else (if p[0] == i then Marginal(v, i, base) else 0.0) + Credit(v, i, p[1..], base + {p[0]})
  }

  lemma {:induction false} CreditAbsent<T>(v: set<T> -> real, i: T, p: seq<T>, base: set<T>)
    requires i !in p
    ensures Credit(v, i, p, base) == 0.0
  {
    if p != [] {
      CreditAbsent(v, i, p[1..], base + {p[0]});
    }
  }

  ghost function Credits<T>(v: set<T> -> real, i: T, base: set<T>): seq<T> -> real {
    p => Credit(v, i, p, base)
  }

  /** Total credit of i over all orderings of xs that start at position k or later. */
  ghost function OrderingSum<T>(v: set<T> -> real, i: T, xs: seq<T>, base: set<T>, k: nat): real
    requires k <= |xs|
  {
    Sum(PermutationsFrom(xs, k), Credits(v, i, base))
  }

  ghost function AllOrderings<T>(v: set<T> -> real, i: T, xs: seq<T>, base: set<T>): real {
    Sum(Permutations(xs), Credits(v, i, base))
  }

  lemma {:induction false} OrderingSumStep<T>(v: set<T> -> real, i: T, xs: seq<T>, base: set<T>, k: nat)
    requires k < |xs|
    ensures OrderingSum(v, i, xs, base, k) ==
            (if xs[k] == i then Times(Factorial(|xs| - 1), Marginal(v, i, base)) else 0.0)
            + AllOrderings(v, i, RemoveAt(xs, k), base + {xs[k]}) + OrderingSum(v, i, xs, base, k + 1)
  {
    var x, rest := xs[k], RemoveAt(xs, k);
    var ps := Permutations(rest);
    SumAppend(Prepend(x, ps), PermutationsFrom(xs, k + 1), Credits(v, i, base));
    PrependCredit(v, i, x, ps, base);
    PermutationsCount(rest);
  }

  lemma {:induction false} PrependCredit<T>(v: set<T> -> real, i: T, x: T, ps: seq<seq<T>>, base: set<T>)
    ensures Sum(Prepend(x, ps), Credits(v, i, base)) ==
            (if x == i then Times(|ps|, Marginal(v, i, base)) else 0.0) + Sum(ps, Credits(v, i, base + {x}))
  {
    if ps != [] {
      PrependCredit(v, i, x, ps[1..], base);
      assert ([x] + ps[0])[1..] == ps[0];
    }
  }

  lemma {:induction false} AbsentEarnsNothing<T>(v: set<T> -> real, i: T, xs: seq<T>, base: set<T>)
    requires i !in xs
    ensures AllOrderings(v, i, xs, base) == 0.0
  {
    forall p | p in Permutations(xs) ensures Credit(v, i, p, base) == 0.0 {
      PermutationsExact(xs, p);
      assert i in p <==> i in multiset(p);
      CreditAbsent(v, i, p, base);
    }
    SumConstant(Permutations(xs), 0.0, Credits(v, i, base));
    TimesIsProduct(|Permutations(xs)|, 0.0);
  }

  // ----- the two formulas agree

  /** s! (n - s - 1)!, the weight of a coalition of s others among n players (zero off the range). */
  function Weight(s: int, n: int): nat {
    if 0 <= s < n then Factorial(s) * Factorial(n - s - 1) else 0
  }

  lemma {:induction false} WeightStep(s: int, n: int)
    requires s > 0
    ensures Weight(s, n) == s * Weight(s - 1, n - 1)
  {
    if s < n {
      var a, b := Factorial(s - 1), Factorial(n - s - 1);
      assert Factorial(s) * b == s * (a * b);
    }
  }

  /** The summand of the exact formula, times n!, for n players joining b others. */
  ghost function Term<T>(v: set<T> -> real, i: T, b: int, n: int): set<T> -> real {
    s => Times(Weight(|s| - b, n), Marginal(v, i, s))
  }

  /** Each ordering puts some set of players before i; the set S comes first in |S|! (n - |S| - 1)! of them. */
  lemma {:induction false} OrderingsAreSubsets<T>(v: set<T> -> real, i: T, xs: seq<T>, base: set<T>, b: nat, n: nat)
    requires Distinct(xs) && i in xs && forall x :: x in xs ==> x !in base
    requires b == |base| && n == |xs|
    ensures AllOrderings(v, i, xs, base) == SubsetSum(Without(xs, i), base, Term(v, i, b, n))
    decreases |xs|, |xs| + 1
  {
    OrderingsFromPosition(v, i, xs, base, b, n, 0);
    assert i in xs[0..];
    assert AllOrderings(v, i, xs, base) == OrderingSum(v, i, xs, base, 0);
    PivotCount(xs, i, base, Term(v, i, b + 1, n - 1));
    var others := Without(xs, i);
    forall x | x in others ensures x !in base {
      WithoutElements(xs, i);
      assert x in Elements(others);
    }
    TermsAgree(v, i, others, base, b, n);
  }

  lemma {:induction false} TermsAgree<T>(v: set<T> -> real, i: T, others: seq<T>, base: set<T>, b: nat, n: nat)
    requires n > 0 && b == |base| && forall x :: x in others ==> x !in base
    ensures SubsetSum(others, base, Term(v, i, b, n)) ==
            Times(Factorial(n - 1), Marginal(v, i, base)) + SubsetSum(others, base, Scaled(b, Term(v, i, b + 1, n - 1)))
  {
    var g, h := Term(v, i, b, n), Scaled(b, Term(v, i, b + 1, n - 1));
    forall s | base < s ensures g(s) == h(s) {
      StrictSupersetIsLarger(base, s);
      var k, w := |s| - b, Weight(|s| - b - 1, n - 1);
      assert g(s) == Times(Weight(k, n), Marginal(v, i, s));
      assert h(s) == Times(k, Times(w, Marginal(v, i, s)));
      WeightStep(k, n);
      TimesTimes(k, w, Marginal(v, i, s));
    }
    SubsetSumAtBase(others, base, g, h);
    assert h(base) == Times(0, Term(v, i, b + 1, n - 1)(base)) == 0.0;
    assert g(base) == Times(Weight(0, n), Marginal(v, i, base));
    assert Weight(0, n) == Factorial(n - 1);
  }

  lemma {:induction false} StrictSupersetIsLarger<T>(a: set<T>, b: set<T>)
    requires a < b
    ensures |a| < |b|
  {
    assert b == a + (b - a);
    assert b - a != {};
  }

  lemma {:induction false} OrderingsFromPosition<T>(v: set<T> -> real, i: T, xs: seq<T>, base: set<T>, b: nat, n: nat,
                                                    k: nat)
    requires k <= |xs| && Distinct(xs) && i in xs && forall x :: x in xs ==> x !in base
    requires b == |base| && n == |xs|
    ensures OrderingSum(v, i, xs, base, k) ==
            (if i in xs[k..] then Times(Factorial(n - 1), Marginal(v, i, base)) else 0.0)
            + PivotSum(xs, i, base, Term(v, i, b + 1, n - 1), k)
    decreases |xs|, |xs| - k
  {
    if k < |xs| {
      OrderingsFromPosition(v, i, xs, base, b, n, k + 1);
      FirstPlayer(v, i, xs, base, b, n, k);
      DropStep(xs, k, i);
      if xs[k] == i {
        LaterIsDifferent(xs, k);
      }
    }
  }

  /** The orderings that begin with the player at position k. */
  lemma {:induction false} FirstPlayer<T>(v: set<T> -> real, i: T, xs: seq<T>, base: set<T>, b: nat, n: nat, k: nat)
    requires k < |xs| && Distinct(xs) && i in xs && forall x :: x in xs ==> x !in base
    requires b == |base| && n == |xs|
    ensures OrderingSum(v, i, xs, base, k) - OrderingSum(v, i, xs, base, k + 1) ==
            if xs[k] == i then Times(Factorial(n - 1), Marginal(v, i, base))
            else SubsetSum(Without(RemoveAt(xs, k), i), base + {xs[k]}, Term(v, i, b + 1, n - 1))
    decreases |xs|, |xs| - k, 0
  {
    var x, rest := xs[k], RemoveAt(xs, k);
    OrderingSumStep(v, i, xs, base, k);
    if x == i {
      LaterIsDifferent(xs, k);
      AbsentEarnsNothing(v, i, rest, base + {x});
    } else {
      RemoveAtElements(xs, k);
      assert i in Elements(rest);
      forall y | y in rest ensures y !in base + {x} { assert y in Elements(rest); }
      OrderingsAreSubsets(v, i, rest, base + {x}, b + 1, n - 1);
    }
  }

  lemma {:induction false} LaterIsDifferent<T>(xs: seq<T>, k: nat)
    requires k < |xs| && Distinct(xs)
    ensures xs[k] !in RemoveAt(xs, k) && xs[k] !in xs[k + 1..]
  {
    RemoveAtElements(xs, k);
    assert xs[k] !in Elements(RemoveAt(xs, k));
  }
}
