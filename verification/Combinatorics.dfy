/**
 Factorials, binomials, distinct sequences and their elements, and the enumerations of combinations and
 permutations of a sequence in the order of itertools, with their counts and exact contents.
 */
module Combinatorics {
  import opened Sums

  function Factorial(n: nat): (f: nat)
    ensures f >= 1
  {
    if n == 0 then 1 else n * Factorial(n - 1)
  }

  function Binomial(n: nat, k: nat): nat
  {
    if k == 0 then 1 else if n == 0 then 0 else Binomial(n - 1, k - 1) + Binomial(n - 1, k)
  }

  function Elements<T>(xs: seq<T>): set<T> {
    set x | x in xs
  }

  ghost predicate Distinct<T>(xs: seq<T>) {
    forall i, j :: 0 <= i < j < |xs| ==> xs[i] != xs[j]
  }

  lemma {:induction false} ElementsSplit<T>(xs: seq<T>)
    requires xs != []
    ensures Elements(xs) == {xs[0]} + Elements(xs[1..])
  {
    assert xs == [xs[0]] + xs[1..];
  }

  lemma {:induction false} ElementsPrepend<T>(x: T, xs: seq<T>)
    ensures Elements([x] + xs) == {x} + Elements(xs)
  {
  }

  lemma {:induction false} DistinctTail<T>(xs: seq<T>)
    requires xs != []
    ensures Distinct(xs) <==> xs[0] !in xs[1..] && Distinct(xs[1..])
  {
    var rest := xs[1..];
    assert forall j :: 0 <= j < |rest| ==> rest[j] == xs[j + 1];
    if xs[0] !in rest && Distinct(rest) {
      forall i, j | 0 <= i < j < |xs| ensures xs[i] != xs[j] {
        assert xs[j] == rest[j - 1];
        if i > 0 { assert xs[i] == rest[i - 1]; }
      }
    }
  }

  lemma {:induction false} DistinctSize<T>(xs: seq<T>)
    ensures |Elements(xs)| <= |xs|
    ensures Distinct(xs) <==> |Elements(xs)| == |xs|
  {
    if xs == [] {
      assert Elements(xs) == {};
    } else {
      DistinctSize(xs[1..]);
      ElementsSplit(xs);
      DistinctTail(xs);
      if xs[0] in Elements(xs[1..]) {
        assert Elements(xs) == Elements(xs[1..]);
      }
    }
  }

  lemma {:induction false} DropStep<T>(xs: seq<T>, k: nat, i: T)
    requires k < |xs|
    ensures i in xs[k..] <==> i == xs[k] || i in xs[k + 1..]
  {
    assert xs[k..] == [xs[k]] + xs[k + 1..];
  }

  lemma Associates<T>(xs: seq<T>, ys: seq<T>, zs: seq<T>)
    ensures xs + ys + zs == xs + (ys + zs)
  {
  }

  /** Puts x in front of every sequence of yss. */
  function Prepend<T>(x: T, yss: seq<seq<T>>): (r: seq<seq<T>>)
    ensures |r| == |yss|
  {
    if yss == [] then [] else [[x] + yss[0]] + Prepend(x, yss[1..])
  }

  lemma {:induction false} PrependAt<T>(x: T, yss: seq<seq<T>>, k: nat)
    requires k < |yss|
    ensures Prepend(x, yss)[k] == [x] + yss[k]
  {
    if k > 0 {
      PrependAt(x, yss[1..], k - 1);
    }
  }

  lemma {:induction false} PrependMember<T>(x: T, yss: seq<seq<T>>, p: seq<T>)
    ensures p in Prepend(x, yss) <==> p != [] && p[0] == x && p[1..] in yss
  {
    if p in Prepend(x, yss) {
      var i :| 0 <= i < |yss| && p == Prepend(x, yss)[i];
      PrependAt(x, yss, i);
      assert p[1..] == yss[i];
    }
    if p != [] && p[0] == x && p[1..] in yss {
      var i :| 0 <= i < |yss| && yss[i] == p[1..];
      PrependAt(x, yss, i);
      assert [x] + p[1..] == p;
    }
  }

  lemma {:induction false} HeadMultiset<T>(p: seq<T>)
    requires p != []
    ensures multiset(p) == multiset(p[1..]) + multiset{p[0]}
  {
    assert p == [p[0]] + p[1..];
  }

  lemma {:induction false} SumPrepend<T>(x: T, yss: seq<seq<T>>, f: seq<T> -> real)
    ensures Sum(Prepend(x, yss), f) == Sum(yss, ys => f([x] + ys))
  {
    if yss != [] {
      SumPrepend(x, yss[1..], f);
    }
  }

  /** The r-element combinations of xs, by position, in the lexicographic order of itertools. */
  function Combinations<T>(xs: seq<T>, r: nat): seq<seq<T>>
  {
    if r == 0 then [[]]
    else if xs == [] then []
    else Prepend(xs[0], Combinations(xs[1..], r - 1)) + Combinations(xs[1..], r)
  }

  lemma {:induction false} CombinationsCount<T>(xs: seq<T>, r: nat)
    ensures |Combinations(xs, r)| == Binomial(|xs|, r)
  {
    if r > 0 && xs != [] {
      CombinationsCount(xs[1..], r - 1);
      CombinationsCount(xs[1..], r);
    }
  }

  lemma {:induction false} CombinationsMember<T>(xs: seq<T>, r: nat, c: seq<T>)
    requires c in Combinations(xs, r)
    ensures |c| == r && Elements(c) <= Elements(xs)
    ensures Distinct(xs) ==> Distinct(c)
  {
    if r > 0 {
      var rest := xs[1..];
      ElementsSplit(xs);
      DistinctTail(xs);
      if c in Combinations(rest, r) {
        CombinationsMember(rest, r, c);
      } else {
        assert c in Prepend(xs[0], Combinations(rest, r - 1));
        PrependMember(xs[0], Combinations(rest, r - 1), c);
        CombinationsMember(rest, r - 1, c[1..]);
        ElementsSplit(c);
        DistinctTail(c);
        assert xs[0] in c[1..] ==> xs[0] in Elements(c[1..]);
      }
    }
  }

  /** Every subset of the elements is the element set of a combination of its own size. */
  lemma {:induction false} SubsetIsCombination<T>(xs: seq<T>, s: set<T>) returns (c: seq<T>)
    requires s <= Elements(xs)
    ensures c in Combinations(xs, |s|) && Elements(c) == s
  {
    if s == {} {
      c := [];
    } else {
      var x, rest := xs[0], xs[1..];
      ElementsSplit(xs);
      if x in s {
        var c' := SubsetIsCombination(rest, s - {x});
        c := [x] + c';
        CombinationWith(xs, |s|, c');
        ElementsPrepend(x, c');
      } else {
        c := SubsetIsCombination(rest, s);
      }
    }
  }

  lemma {:induction false} CombinationWith<T>(xs: seq<T>, r: nat, c: seq<T>)
    requires xs != [] && r > 0 && c in Combinations(xs[1..], r - 1)
    ensures [xs[0]] + c in Combinations(xs, r)
  {
    assert ([xs[0]] + c)[1..] == c;
    PrependMember(xs[0], Combinations(xs[1..], r - 1), [xs[0]] + c);
  }

  function RemoveAt<T>(xs: seq<T>, k: nat): (r: seq<T>)
    requires k < |xs|
    ensures |r| == |xs| - 1
  {
    xs[..k] + xs[k + 1..]
  }

  lemma {:induction false} RemoveAtElements<T>(xs: seq<T>, k: nat)
    requires k < |xs|
    ensures multiset(xs) == multiset(RemoveAt(xs, k)) + multiset{xs[k]}
    ensures Distinct(xs) ==> Distinct(RemoveAt(xs, k)) && Elements(RemoveAt(xs, k)) == Elements(xs) - {xs[k]}
  {
    MultisetTakeOut(xs, k);
    var r := RemoveAt(xs, k);
    assert forall j :: 0 <= j < |r| ==> r[j] == if j < k then xs[j] else xs[j + 1];
    if Distinct(xs) {
      assert forall j :: 0 <= j < |r| ==> r[j] != xs[k];
      forall x | x in Elements(xs) - {xs[k]} ensures x in Elements(r) {
        var j :| 0 <= j < |xs| && xs[j] == x;
        if j < k { assert r[j] == x; } else { assert r[j - 1] == x; }
      }
    }
  }

  /** All orderings of xs, by position. */
  function Permutations<T>(xs: seq<T>): seq<seq<T>>
    decreases |xs|, |xs| + 1
  {
    if xs == [] then [[]] else PermutationsFrom(xs, 0)
  }

  /** The orderings of xs whose first element is at position k or later. */
  function PermutationsFrom<T>(xs: seq<T>, k: nat): seq<seq<T>>
    requires k <= |xs|
    decreases |xs|, |xs| - k
  {
    if k == |xs| then [] else Prepend(xs[k], Permutations(RemoveAt(xs, k))) + PermutationsFrom(xs, k + 1)
  }

  lemma {:induction false} PermutationsCount<T>(xs: seq<T>)
    ensures |Permutations(xs)| == Factorial(|xs|)
    decreases |xs|, |xs| + 1
  {
    if xs != [] {
      PermutationsFromCount(xs, 0);
    }
  }

  lemma {:induction false} PermutationsFromCount<T>(xs: seq<T>, k: nat)
    requires k <= |xs| && xs != []
    ensures |PermutationsFrom(xs, k)| == (|xs| - k) * Factorial(|xs| - 1)
    decreases |xs|, |xs| - k
  {
    if k < |xs| {
      var f := Factorial(|xs| - 1);
      PermutationsCount(RemoveAt(xs, k));
      PermutationsFromCount(xs, k + 1);
      calc {
        |PermutationsFrom(xs, k)|;
        f + |PermutationsFrom(xs, k + 1)|;
        f + (|xs| - (k + 1)) * f;
        (|xs| - k) * f;
      }
    }
  }

  /** Permutations lists exactly the rearrangements of xs. */
  lemma {:induction false} PermutationsExact<T>(xs: seq<T>, p: seq<T>)
    ensures p in Permutations(xs) <==> multiset(p) == multiset(xs)
    decreases |xs|, |xs| + 1
  {
    if xs == [] {
      assert |p| == |multiset(p)|;
    } else {
      PermutationsFromExact(xs, 0, p);
      if multiset(p) == multiset(xs) {
        assert |p| == |multiset(p)| == |xs|;
        assert p[0] in multiset(p);
        assert xs[0..] == xs;
      }
    }
  }

  /** p rearranges xs with xs[k] in front exactly when its tail rearranges the others. */
  lemma HeadRemoved<T>(xs: seq<T>, k: nat, p: seq<T>)
    requires k < |xs| && p != [] && p[0] == xs[k]
    ensures multiset(p[1..]) == multiset(RemoveAt(xs, k)) <==> multiset(p) == multiset(xs)
  {
    RemoveAtElements(xs, k);
    HeadMultiset(p);
    assert multiset(p[1..]) == multiset(p) - multiset{xs[k]};
    assert multiset(RemoveAt(xs, k)) == multiset(xs) - multiset{xs[k]};
  }

  lemma {:induction false} PermutationsFromExact<T>(xs: seq<T>, k: nat, p: seq<T>)
    requires k <= |xs|
    ensures p in PermutationsFrom(xs, k) <==>
            p != [] && p[0] in xs[k..] && multiset(p) == multiset(xs)
    decreases |xs|, |xs| - k
  {
    if k < |xs| {
      var rest := RemoveAt(xs, k);
      PermutationsFromExact(xs, k + 1, p);
      PrependMember(xs[k], Permutations(rest), p);
      if p != [] {
        DropStep(xs, k, p[0]);
        if p[0] == xs[k] {
          HeadRemoved(xs, k, p);
          PermutationsExact(rest, p[1..]);
        }
      }
    }
  }

  /** No rearrangement of distinct elements is listed twice. */
  lemma {:induction false} PermutationsDistinct<T>(xs: seq<T>)
    requires Distinct(xs)
    ensures Distinct(Permutations(xs))
    decreases |xs|, |xs| + 1
  {
    if xs != [] {
      PermutationsFromDistinct(xs, 0);
    }
  }

  lemma {:induction false} PermutationsFromDistinct<T>(xs: seq<T>, k: nat)
    requires k <= |xs| && Distinct(xs)
    ensures Distinct(PermutationsFrom(xs, k))
    decreases |xs|, |xs| - k
  {
    if k < |xs| {
      var ps := Permutations(RemoveAt(xs, k));
      RemoveAtElements(xs, k);
      PermutationsDistinct(RemoveAt(xs, k));
      PermutationsFromDistinct(xs, k + 1);
      var here, later := Prepend(xs[k], ps), PermutationsFrom(xs, k + 1);
      forall i, j | 0 <= i < |here| && 0 <= j < |later| ensures here[i] != later[j] {
        PermutationsFromExact(xs, k + 1, later[j]);
        PrependAt(xs[k], ps, i);
      }
      forall i, j | 0 <= i < j < |here| ensures here[i] != here[j] {
        PrependAt(xs[k], ps, i);
        PrependAt(xs[k], ps, j);
        assert here[i][1..] == ps[i] && here[j][1..] == ps[j];
      }
    }
  }

  /** The elements other than x, in order. */
  function Without<T(==)>(xs: seq<T>, x: T): seq<T>
  {
    if xs == [] then []
    else if xs[0] == x then Without(xs[1..], x)
    else [xs[0]] + Without(xs[1..], x)
  }

  lemma {:induction false} WithoutElements<T>(xs: seq<T>, x: T)
    ensures Elements(Without(xs, x)) == Elements(xs) - {x}
    ensures |Without(xs, x)| <= |xs|
    ensures Distinct(xs) ==> Distinct(Without(xs, x))
    ensures Distinct(xs) && x in xs ==> |Without(xs, x)| == |xs| - 1
  {
    if xs != [] {
      var rest := Without(xs[1..], x);
      WithoutElements(xs[1..], x);
      ElementsSplit(xs);
      DistinctTail(xs);
      if xs[0] == x {
        if Distinct(xs) { WithoutAbsent(xs[1..], x); }
      } else {
        ElementsPrepend(xs[0], rest);
        DistinctTail([xs[0]] + rest);
        assert ([xs[0]] + rest)[1..] == rest;
        assert xs[0] in rest ==> xs[0] in Elements(rest);
      }
    }
  }

  lemma {:induction false} WithoutAbsent<T>(xs: seq<T>, x: T)
    requires x !in xs
    ensures Without(xs, x) == xs
  {
    if xs != [] {
      WithoutAbsent(xs[1..], x);
    }
  }

  // ----- in how many combinations an element lies

  function Containing(choices: seq<seq<nat>>, t: nat): nat
  {
    if choices == [] then 0 else (if t in choices[0] then 1 else 0) + Containing(choices[1..], t)
  }

  lemma {:induction false} ContainingAppend(xs: seq<seq<nat>>, ys: seq<seq<nat>>, t: nat)
    ensures Containing(xs + ys, t) == Containing(xs, t) + Containing(ys, t)
  {
    if xs == [] {
      assert xs + ys == ys;
    } else {
      assert (xs + ys)[1..] == xs[1..] + ys;
      ContainingAppend(xs[1..], ys, t);
    }
  }

  lemma {:induction false} ContainingPrepend(x: nat, yss: seq<seq<nat>>, t: nat)
    ensures Containing(Prepend(x, yss), t) == if t == x then |yss| else Containing(yss, t)
  {
    if yss != [] {
      ContainingPrepend(x, yss[1..], t);
      assert Prepend(x, yss)[1..] == Prepend(x, yss[1..]);
      assert t in [x] + yss[0] <==> t == x || t in yss[0];
    }
  }

  lemma {:induction false} ContainingNone(xs: seq<nat>, r: nat, t: nat)
    requires t !in xs
    ensures Containing(Combinations(xs, r), t) == 0
  {
    if r > 0 && xs != [] {
      ContainingNone(xs[1..], r - 1, t);
      ContainingNone(xs[1..], r, t);
      ContainingPrepend(xs[0], Combinations(xs[1..], r - 1), t);
      ContainingAppend(Prepend(xs[0], Combinations(xs[1..], r - 1)), Combinations(xs[1..], r), t);
    }
  }

  lemma ContainingStep(xs: seq<nat>, r: nat, t: nat)
    requires r > 0 && xs != []
    ensures Containing(Combinations(xs, r), t)
         == (if t == xs[0] then |Combinations(xs[1..], r - 1)| else Containing(Combinations(xs[1..], r - 1), t))
            + Containing(Combinations(xs[1..], r), t)
  {
    ContainingPrepend(xs[0], Combinations(xs[1..], r - 1), t);
    ContainingAppend(Prepend(xs[0], Combinations(xs[1..], r - 1)), Combinations(xs[1..], r), t);
  }

  /** How many r-element combinations of n elements contain a given one. */
  function ChoicesWith(n: nat, r: nat): nat
    requires n > 0
  {
    if r == 0 then 0 else Binomial(n - 1, r - 1)
  }

  lemma ChoicesWithStep(n: nat, r: nat)
    requires n > 1 && r > 0
    ensures ChoicesWith(n, r) == ChoicesWith(n - 1, r - 1) + ChoicesWith(n - 1, r)
  {
  }

  lemma HeadStep(xs: seq<nat>, r: nat)
    requires r > 0 && xs != [] && xs[0] !in xs[1..]
    ensures Containing(Combinations(xs, r), xs[0]) == |Combinations(xs[1..], r - 1)|
  {
    ContainingStep(xs, r, xs[0]);
    ContainingNone(xs[1..], r, xs[0]);
  }

  lemma HeadCount(xs: seq<nat>, r: nat)
    requires r > 0 && xs != [] && xs[0] !in xs[1..]
    ensures Containing(Combinations(xs, r), xs[0]) == ChoicesWith(|xs|, r)
  {
    assert |Combinations(xs[1..], r - 1)| == Binomial(|xs| - 1, r - 1) by {
      CombinationsCount(xs[1..], r - 1);
    }
    HeadStep(xs, r);
  }

  lemma TailStep(xs: seq<nat>, rest: seq<nat>, r: nat, t: nat)
    requires r > 0 && xs != [] && rest == xs[1..] && t != xs[0]
    ensures Containing(Combinations(xs, r), t)
         == Containing(Combinations(rest, r - 1), t) + Containing(Combinations(rest, r), t)
  {
    ContainingStep(xs, r, t);
  }

  lemma TailCount(xs: seq<nat>, rest: seq<nat>, r: nat, t: nat)
    requires r > 0 && xs != [] && rest == xs[1..] && rest != [] && t != xs[0]
    requires Containing(Combinations(rest, r - 1), t) == ChoicesWith(|rest|, r - 1)
    requires Containing(Combinations(rest, r), t) == ChoicesWith(|rest|, r)
    ensures Containing(Combinations(xs, r), t) == ChoicesWith(|xs|, r)
  {
    TailStep(xs, rest, r, t);
    ChoicesWithStep(|xs|, r);
  }

  /** A given element is in C(n - 1, r - 1) of the r-element combinations. */
  lemma {:induction false} ContainingCount(xs: seq<nat>, r: nat, t: nat)
    requires Distinct(xs) && t in xs
    ensures Containing(Combinations(xs, r), t) == ChoicesWith(|xs|, r)
  {
    if r == 0 {
      assert Containing([[]], t) == 0;
    } else {
      DistinctTail(xs);
      if t == xs[0] {
        HeadCount(xs, r);
      } else {
        ContainingCount(xs[1..], r - 1, t);
        ContainingCount(xs[1..], r, t);
        TailCount(xs, xs[1..], r, t);
      }
    }
  }

  // ----- estimates

  /** a! b! <= (a + b - 1)! */
  lemma {:induction false} FactorialProduct(a: nat, b: nat)
    requires a > 0 && b > 0
    ensures Factorial(a) * Factorial(b) <= Factorial(a + b - 1)
  {
    if b > 1 {
      FactorialProduct(a, b - 1);
      LargerFactor(Factorial(a) * Factorial(b - 1), Factorial(a + b - 2), b, a + b - 1);
      Swap(Factorial(a), b, Factorial(b - 1));
    } else {
      assert Factorial(0) == 1 && Factorial(1) == 1;
    }
  }

  lemma Swap(x: nat, b: nat, y: nat)
    ensures x * (b * y) == b * (x * y)
  {
  }

  lemma LargerFactor(x: nat, y: nat, k: nat, m: nat)
    requires x <= y && k <= m
    ensures k * x <= m * y
  {
    assert k * x <= k * y <= m * y;
  }

  function Power2(k: nat): nat {
    if k == 0 then 1 else 2 * Power2(k - 1)
  }

  lemma Doubled(k: nat, x: nat)
    ensures (2 * k) * x == k * x + k * x
  {
  }

  lemma OneDoubled(k: nat, x: nat)
    ensures (2 * k - 1) * x == (k - 1) * x + k * x
  {
  }

  lemma PowerBelow(k: nat, n: nat)
    requires k + 2 <= n <= 6
    ensures n + Power2(k) - 2 < n * (n - 1)
  {
    assert Power2(0) == 1 && Power2(1) == 2 && Power2(2) == 4 && Power2(3) == 8 && Power2(4) == 16;
  }

  lemma FewerCopies(a: nat, p: nat, b: nat, f: nat)
    requires p > 0 && a + p - 1 < b && f > 0
    ensures a * f + (p - 1) * f < b * f
  {
    assert a * f + (p - 1) * f == (a + p - 1) * f;
    assert (b - (a + p - 1)) * f > 0;
  }

  lemma Regroup(n: nat, m: nat, f: nat)
    ensures n * (m * f) == (n * m) * f
  {
  }
}
