/**
 Finite sums of reals over sequences, repeated addition as a product that unfolds, and averages, with the
 few laws the rest of the project uses. Keeping the products folded keeps the proofs linear.
 */
module Sums {
  function Abs(x: real): real {
    if x < 0.0 then -x else x
  }

  function Sum<T>(xs: seq<T>, f: T -> real): real
  {
    if xs == [] then 0.0 else f(xs[0]) + Sum(xs[1..], f)
  }

  lemma {:induction false} SumAppend<T>(xs: seq<T>, ys: seq<T>, f: T -> real)
    ensures Sum(xs + ys, f) == Sum(xs, f) + Sum(ys, f)
  {
    if xs == [] {
      assert xs + ys == ys;
    } else {
      assert (xs + ys)[1..] == xs[1..] + ys;
      SumAppend(xs[1..], ys, f);
    }
  }

  /** One step of a left-to-right accumulation. */
  lemma {:induction false} SumStep<T>(xs: seq<T>, k: nat, f: T -> real)
    requires k < |xs|
    ensures Sum(xs[..k + 1], f) == Sum(xs[..k], f) + f(xs[k])
  {
    assert xs[..k + 1] == xs[..k] + [xs[k]];
    SumAppend(xs[..k], [xs[k]], f);
  }

  lemma {:induction false} SumCongruence<T>(xs: seq<T>, f: T -> real, g: T -> real)
    requires forall x :: x in xs ==> f(x) == g(x)
    ensures Sum(xs, f) == Sum(xs, g)
  {
    if xs != [] {
      SumCongruence(xs[1..], f, g);
    }
  }

  lemma {:induction false} SumPlus<T>(xs: seq<T>, f: T -> real, g: T -> real, h: T -> real)
    requires forall x :: x in xs ==> h(x) == f(x) + g(x)
    ensures Sum(xs, h) == Sum(xs, f) + Sum(xs, g)
  {
    if xs != [] {
      SumPlus(xs[1..], f, g, h);
    }
  }

  /** k copies of x, for k > 0: a product that unfolds by addition. */
  function Times(k: int, x: real): real {
    if k <= 0 then 0.0 else x + Times(k - 1, x)
  }

  lemma {:induction false} TimesIsProduct(k: nat, x: real)
    ensures Times(k, x) == k as real * x
  {
    if k > 0 {
      TimesIsProduct(k - 1, x);
      assert k as real * x == x + (k - 1) as real * x;
    }
  }

  lemma {:induction false} TimesPlus(a: nat, b: nat, x: real)
    ensures Times(a + b, x) == Times(a, x) + Times(b, x)
  {
    if a > 0 {
      TimesPlus(a - 1, b, x);
    }
  }

  lemma {:induction false} TimesTimes(a: nat, b: nat, x: real)
    ensures Times(a * b, x) == Times(a, Times(b, x))
  {
    if a > 0 {
      TimesTimes(a - 1, b, x);
      TimesPlus((a - 1) * b, b, x);
      assert a * b == (a - 1) * b + b;
    }
  }

  lemma {:induction false} SumConstant<T>(xs: seq<T>, c: real, f: T -> real)
    requires forall x :: x in xs ==> f(x) == c
    ensures Sum(xs, f) == Times(|xs|, c)
  {
    if xs != [] {
      SumConstant(xs[1..], c, f);
    }
  }

  lemma {:induction false} SumBounds<T>(xs: seq<T>, lo: real, hi: real, f: T -> real)
    requires forall x :: x in xs ==> lo <= f(x) <= hi
    ensures Times(|xs|, lo) <= Sum(xs, f) <= Times(|xs|, hi)
  {
    if xs != [] {
      SumBounds(xs[1..], lo, hi, f);
    }
  }

  function Average(total: real, n: nat): real
    requires n > 0
  {
    total / n as real
  }

  lemma AverageOfCopies(x: real, n: nat)
    requires n > 0
    ensures Average(Times(n, x), n) == x
  {
    TimesIsProduct(n, x);
  }

  lemma AverageBounds(total: real, n: nat, lo: real, hi: real)
    requires n > 0 && Times(n, lo) <= total <= Times(n, hi)
    ensures lo <= Average(total, n) <= hi
  {
    TimesIsProduct(n, lo);
    TimesIsProduct(n, hi);
    QuotientBounds(total, n as real, lo, hi);
  }

  lemma QuotientBounds(t: real, k: real, lo: real, hi: real)
    requires k > 0.0 && k * lo <= t <= k * hi
    ensures lo <= t / k <= hi
  {
    var a := t / k;
    assert k * a == t;
    assert k * (a - lo) >= 0.0 && k * (hi - a) >= 0.0;
  }

  lemma {:induction false} SumOfAverages<T>(xs: seq<T>, n: nat, f: T -> real, h: T -> real)
    requires n > 0 && forall x :: x in xs ==> h(x) == Average(f(x), n)
    ensures Sum(xs, h) == Average(Sum(xs, f), n)
  {
    if xs != [] {
      SumOfAverages(xs[1..], n, f, h);
      AveragePlus(f(xs[0]), Sum(xs[1..], f), n);
    }
  }

  lemma AveragePlus(a: real, b: real, n: nat)
    requires n > 0
    ensures Average(a + b, n) == Average(a, n) + Average(b, n)
  {
  }

  /** Taking out one element takes out one term. */
  lemma {:induction false} SumTakeOut<T>(ys: seq<T>, k: nat, f: T -> real)
    requires k < |ys|
    ensures Sum(ys, f) == f(ys[k]) + Sum(ys[..k] + ys[k + 1..], f)
  {
    var tail := [ys[k]] + ys[k + 1..];
    assert ys == ys[..k] + tail;
    SumAppend(ys[..k], tail, f);
    SumAppend(ys[..k], ys[k + 1..], f);
    assert tail[1..] == ys[k + 1..];
  }

  lemma {:induction false} MultisetTakeOut<T>(ys: seq<T>, k: nat)
    requires k < |ys|
    ensures multiset(ys) == multiset(ys[..k] + ys[k + 1..]) + multiset{ys[k]}
  {
    assert ys == ys[..k] + ([ys[k]] + ys[k + 1..]);
  }

  /** A sum does not depend on the order of its terms. */
  lemma {:induction false} SumPermutation<T>(xs: seq<T>, ys: seq<T>, f: T -> real)
    requires multiset(xs) == multiset(ys)
    ensures Sum(xs, f) == Sum(ys, f)
  {
    if xs == [] {
      assert |ys| == |multiset(ys)|;
    } else {
      assert xs[0] in multiset(ys);
      var k :| 0 <= k < |ys| && ys[k] == xs[0];
      SumTakeOut(ys, k, f);
      MultisetTakeOut(ys, k);
      MultisetTakeOut(xs, 0);
      assert xs[..0] + xs[0 + 1..] == xs[1..];
      var rest := ys[..k] + ys[k + 1..];
      assert multiset(xs[1..]) == multiset(xs) - multiset{xs[0]};
      assert multiset(rest) == multiset(ys) - multiset{xs[0]};
      SumPermutation(xs[1..], rest, f);
    }
  }

  lemma {:induction false} SumsOrdered<T>(xs: seq<T>, f: T -> real, g: T -> real)
    requires forall x :: x in xs ==> f(x) <= g(x)
    ensures Sum(xs, f) <= Sum(xs, g)
    ensures Sum(xs, f) == Sum(xs, g) <==> forall x :: x in xs ==> f(x) == g(x)
  {
    if xs != [] {
      SumsOrdered(xs[1..], f, g);
      assert xs[0] in xs;
      assert forall x :: x in xs <==> x == xs[0] || x in xs[1..];
    }
  }

  lemma SplitQuotient(a: real, b: real, d: real)
    requires d != 0.0
    ensures (a + b) / d == a / d + b / d
  {
  }

  lemma ZeroFactor(x: real, t: real, product: real)
    requires t > 0.0 && product == x * t
    ensures x == 0.0 <==> product == 0.0
  {
    assert x > 0.0 ==> x * t > 0.0;
    assert x < 0.0 ==> -x * t > 0.0;
  }

  lemma {:induction false} SumPointwise<A, B>(xs: seq<A>, ys: seq<B>, f: A -> real, g: B -> real)
    requires |xs| == |ys| && forall i :: 0 <= i < |xs| ==> f(xs[i]) == g(ys[i])
    ensures Sum(xs, f) == Sum(ys, g)
  {
    if xs != [] {
      assert forall i :: 0 <= i < |xs| - 1 ==> xs[1..][i] == xs[i + 1] && ys[1..][i] == ys[i + 1];
      SumPointwise(xs[1..], ys[1..], f, g);
    }
  }

  lemma {:induction false} NonNegativeSum<T>(xs: seq<T>, f: T -> real)
    requires forall x :: x in xs ==> f(x) >= 0.0
    ensures Sum(xs, f) >= 0.0
  {
    if xs != [] { NonNegativeSum(xs[1..], f); }
  }

  lemma MoreThanOnce(q: real, k: real)
    requires q > 0.0 && k > 1.0
    ensures k * q > q
  {
    assert (k - 1.0) * q > 0.0;
  }

  /** One term only. */
  lemma SumOnly<T>(xs: seq<T>, k: nat, f: T -> real)
    requires k < |xs| && forall i :: 0 <= i < |xs| && i != k ==> f(xs[i]) == 0.0
    ensures Sum(xs, f) == f(xs[k])
  {
    var rest := xs[..k] + xs[k + 1..];
    forall x | x in rest ensures f(x) == 0.0 {
      var i :| 0 <= i < |rest| && rest[i] == x;
      var i' := if i < k then i else i + 1;
      assert xs[i'] == x;
    }
    SumTakeOut(xs, k, f);
    SumConstant(rest, 0.0, f);
    TimesIsProduct(|rest|, 0.0);
  }

  lemma AverageNonNegative(total: real, n: nat)
    requires n > 0 && total >= 0.0
    ensures Average(total, n) >= 0.0
  {
  }
}
