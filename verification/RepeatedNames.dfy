/** The exact Shapley functions on desks listed more than once (attribution/shapley.py). */
module RepeatedNames {
  import opened Contracts
  import opened Combinatorics
  import opened Sums
  import opened Dicts
  import opened WeightTable
  import opened Controllers
  import opened ShapleyTheory
  import opened Shapley
  import opened ShapleyAxioms
  import opened Attribution

  // A desk forecasting several targets is listed once per weight row. Exactly when a name repeats the exact
  // functions can fail to hand out the whole total.

  ghost predicate Efficient(v: Value, desks: seq<string>) {
    ExactTotal(v, desks) == v(Elements(desks)) - v({})
  }

  /** Rows of one regime, no slot twice, as the latest-weights query returns them. */
  ghost predicate Readable(rows: seq<WeightRow>, desks: seq<string>) {
    && DeskNames(rows) == desks && Distinct(Slots(rows))
    && forall r, q :: r in rows && q in rows ==> r.slot.regime == q.slot.regime
  }

  // ----- only the coalitions of the desks matter, and no constant does

  lemma {:induction false} SubsetSumWithin<T>(xs: seq<T>, base: set<T>, f: set<T> -> real, g: set<T> -> real)
    requires forall s :: base <= s <= base + Elements(xs) ==> f(s) == g(s)
    ensures SubsetSum(xs, base, f) == SubsetSum(xs, base, g)
  {
    if xs != [] {
      ElementsSplit(xs);
      SubsetSumWithin(xs[1..], base, f, g);
      SubsetSumWithin(xs[1..], base + {xs[0]}, f, g);
    }
  }

  ghost predicate Shifted(v: Value, u: Value, desks: seq<string>, c: real) {
    forall s :: s <= Elements(desks) ==> v(s) == u(s) + c
  }

  lemma ShiftedMarginal(v: Value, u: Value, i: string, desks: seq<string>, c: real, s: set<string>)
    requires Shifted(v, u, desks, c) && i in desks && s <= Elements(desks)
    ensures Marginal(v, i, s) == Marginal(u, i, s)
  {
    assert s + {i} <= Elements(desks);
  }

  lemma ExactOfShifted(v: Value, u: Value, i: string, desks: seq<string>, c: real)
    requires Shifted(v, u, desks, c) && i in desks
    ensures ExactValue(v, i, desks) == ExactValue(u, i, desks)
  {
    var others, n := Without(desks, i), |desks|;
    WithoutElements(desks, i);
    forall s | {} <= s <= {} + Elements(others) ensures ExactTerm(v, i, n)(s) == ExactTerm(u, i, n)(s) {
      ShiftedMarginal(v, u, i, desks, c, s);
    }
    SubsetSumWithin(others, {}, ExactTerm(v, i, n), ExactTerm(u, i, n));
    LayersAreSubsets(others, {}, ExactTerm(v, i, n));
    LayersAreSubsets(others, {}, ExactTerm(u, i, n));
  }

  lemma TotalOfShifted(v: Value, u: Value, desks: seq<string>, c: real)
    requires Shifted(v, u, desks, c)
    ensures ExactTotal(v, desks) == ExactTotal(u, desks)
    ensures v(Elements(desks)) - v({}) == u(Elements(desks)) - u({})
  {
    var ds := FirstOccurrences(desks);
    FirstOccurrencesSpec(desks);
    forall i | i in ds ensures ExactValues(v, desks)(i) == ExactValues(u, desks)(i) {
      assert i in Elements(ds);
      ExactOfShifted(v, u, i, desks, c);
    }
    SumCongruence(ds, ExactValues(v, desks), ExactValues(u, desks));
  }

  // ----- one desk only, listed once per target

  lemma HasElements<T>(xs: seq<T>)
    requires xs != []
    ensures Elements(xs) != {}
  {
    assert xs[0] in Elements(xs);
  }

  lemma LoneName(desks: seq<string>)
    requires desks != [] && forall d :: d in desks ==> d == desks[0]
    ensures Without(desks, desks[0]) == [] && Elements(desks) == {desks[0]} && FirstOccurrences(desks) == [desks[0]]
  {
    var d := desks[0];
    var others, ds := Without(desks, d), FirstOccurrences(desks);
    assert Elements(desks) == {d};
    WithoutElements(desks, d);
    if others != [] { HasElements(others); }
    FirstOccurrencesSpec(desks);
    DistinctFirstOccurrences(desks);
    assert ds[0] in Elements(ds);
  }

  /** However many targets a lone desk has, n rows leave it an n-th of the total. */
  lemma LoneDeskKeepsAnNth(v: Value, desks: seq<string>, total: real)
    requires desks != [] && forall d :: d in desks ==> d == desks[0]
    requires total == v(Elements(desks)) - v({})
    ensures ExactTotal(v, desks) == Average(total, |desks|)
  {
    LoneName(desks);
    LoneTotal(v, desks[0], desks);
    LoneValue(v, desks[0], desks);
    EmptyTerm(v, desks[0], Weighted(|desks|), total);
    EmptyWeight(|desks|, total);
  }

  /** So with two targets or more nothing is lost exactly when there is nothing to hand out. */
  lemma LoneDeskEfficientIff(v: Value, desks: seq<string>, total: real)
    requires |desks| > 1 && forall d :: d in desks ==> d == desks[0]
    requires total == v(Elements(desks)) - v({})
    ensures Efficient(v, desks) <==> total == 0.0
  {
    LoneDeskKeepsAnNth(v, desks, total);
    AnNth(total, |desks|);
  }

  lemma AnNth(total: real, n: nat)
    requires n > 1
    ensures Average(total, n) == total <==> total == 0.0
  {
    var q, k := Average(total, n), n as real;
    assert k * q == total;
    if q > 0.0 { MoreThanOnce(q, k); }
    if q < 0.0 { MoreThanOnce(-q, k); }
  }

  lemma LoneTotal(v: Value, d: string, desks: seq<string>)
    requires FirstOccurrences(desks) == [d]
    ensures ExactTotal(v, desks) == ExactValue(v, d, desks)
  {
    assert [d][1..] == [];
    assert Sum([d], ExactValues(v, desks)) == ExactValues(v, desks)(d) + 0.0;
  }

  lemma LoneValue(v: Value, d: string, desks: seq<string>)
    requires Without(desks, d) == []
    ensures ExactValue(v, d, desks) == LayerSum([], 1, {}, WeightedTerm(v, d, Weighted(|desks|)))
  {
  }

  lemma EmptyTerm(v: Value, d: string, w: (nat, real) -> real, gain: real)
    requires gain == v({d}) - v({})
    ensures LayerSum([], 1, {}, WeightedTerm(v, d, w)) == w(0, gain)
  {
    EmptyLayer([], {}, WeightedTerm(v, d, w));
    NobodyTerm(v, d, w, gain, {});
  }

  lemma NobodyTerm(v: Value, d: string, w: (nat, real) -> real, gain: real, nobody: set<string>)
    requires gain == v({d}) - v({}) && nobody == {}
    ensures WeightedTerm(v, d, w)(nobody) == w(0, gain)
  {
    assert |nobody| == 0 && nobody + {d} == {d};
    assert Marginal(v, d, nobody) == gain;
  }

  // ----- the witnesses: one row per desk, told apart by their targets

  function Slot(desks: seq<string>, i: nat): Triple
    requires i < |desks|
  {
    Triple("regime", desks[i], seq(i, _ => 't'))
  }

  function EqualRows(desks: seq<string>): seq<WeightRow> {
    seq(|desks|, i requires 0 <= i < |desks| => WeightRow(i, Slot(desks, i), 1.0, 0, ColdStart))
  }

  /** The rows from the i-th on have a fresh forecast of 1. */
  function EqualBook(desks: seq<string>, i: nat): Book
    requires i <= |desks|
    decreases |desks| - i
  {
    if i == |desks| then [] else [(EqualRows(desks)[i].Key(), Forecast("f", 1.0, false))] + EqualBook(desks, i + 1)
  }

  const UNIT := ParamsRow(0, "regime", 1.0, 1.0, 0)

  lemma KeysDiffer(desks: seq<string>, i: nat, j: nat)
    requires i < |desks| && j < |desks| && i != j
    ensures EqualRows(desks)[i].Key() != EqualRows(desks)[j].Key() && Slot(desks, i) != Slot(desks, j)
  {
    assert |Slot(desks, i).target| == i && |Slot(desks, j).target| == j;
  }

  lemma EqualRowsReadable(desks: seq<string>)
    ensures Readable(EqualRows(desks), desks)
  {
    var rows := EqualRows(desks);
    forall i, j | 0 <= i < j < |rows| ensures Slots(rows)[i] != Slots(rows)[j] {
      KeysDiffer(desks, i, j);
    }
  }

  // ----- every row pushes to the limit

  lemma {:induction false} EqualContribution(desks: seq<string>, i: nat, j: nat)
    requires i <= j < |desks|
    ensures Get(EqualBook(desks, i), EqualRows(desks)[j].Key()) == Some(Forecast("f", 1.0, false))
    decreases j - i
  {
    if i < j {
      KeysDiffer(desks, i, j);
      EqualContribution(desks, i + 1, j);
      assert EqualBook(desks, i)[1..] == EqualBook(desks, i + 1);
    }
  }

  lemma SaturatedSignal(desks: seq<string>, s: set<string>)
    requires s <= Elements(desks)
    ensures if s == {} then CoalitionSignal(EqualRows(desks), EqualBook(desks, 0), s) == 0.0
            else CoalitionSignal(EqualRows(desks), EqualBook(desks, 0), s) >= 1.0
  {
    var rows, f := EqualRows(desks), Included(EqualBook(desks, 0), s);
    forall r | r in rows ensures f(r) == if r.slot.desk in s then 1.0 else 0.0 {
      var j :| 0 <= j < |rows| && rows[j] == r;
      EqualContribution(desks, 0, j);
    }
    if s == {} {
      EmptyCoalitionSignal(rows, EqualBook(desks, 0));
    } else {
      var d :| d in s;
      var j :| 0 <= j < |desks| && desks[j] == d;
      SumTakeOut(rows, j, f);
      var rest := rows[..j] + rows[j + 1..];
      forall r | r in rest ensures r in rows { RestIsIn(rows, j, r); }
      NonNegativeSum(rest, f);
    }
  }

  lemma RestIsIn<T>(xs: seq<T>, j: nat, x: T)
    requires j < |xs| && x in xs[..j] + xs[j + 1..]
    ensures x in xs
  {
  }

  /** Anybody alone already takes the full position. */
  lemma SaturatedIsAnyoneJoined(desks: seq<string>)
    ensures Shifted(PositionValue(EqualRows(desks), EqualBook(desks, 0), UNIT), AnyoneJoined, desks, 0.0)
  {
    var rows, book := EqualRows(desks), EqualBook(desks, 0);
    forall s | s <= Elements(desks) ensures PositionValue(rows, book, UNIT)(s) == AnyoneJoined(s) + 0.0 {
      SaturatedSignal(desks, s);
    }
  }

  /** The exact positions add up for all such rows, books and parameters exactly when no desk name repeats. */
  lemma PositionEfficientIffDistinct(desks: seq<string>)
    ensures (forall rows, book, p: ParamsRow :: Readable(rows, desks) && p.limit >= 0.0 ==>
                                                  Efficient(PositionValue(rows, book, p), desks))
            <==> Distinct(desks)
  {
    if Distinct(desks) {
      forall rows, book, p: ParamsRow ensures Efficient(PositionValue(rows, book, p), desks) {
        ExactEfficiency(PositionValue(rows, book, p), desks);
      }
    } else {
      var v := PositionValue(EqualRows(desks), EqualBook(desks, 0), UNIT);
      EqualRowsReadable(desks);
      SaturatedIsAnyoneJoined(desks);
      TotalOfShifted(v, AnyoneJoined, desks, 0.0);
      RepeatedNameIsInefficient(desks);
      assert !Efficient(v, desks);
    }
  }

  // ----- how many orderings a desk is counted for when every arrival is worth the same

  /** The weights of the coalitions base + S, for S a subset (by position) of xs. */
  ghost function Orders(xs: seq<string>, base: set<string>, n: nat): nat
  {
    if xs == [] then Weight(|base|, n) else Orders(xs[1..], base, n) + Orders(xs[1..], base + {xs[0]}, n)
  }

  ghost predicate Additive(h: nat -> real) {
    forall a: nat, b: nat :: h(a) + h(b) == h(a + b)
  }

  lemma {:induction false} OrdersSum(xs: seq<string>, base: set<string>, n: nat, f: Value, h: nat -> real)
    requires Additive(h) && forall s :: base <= s <= base + Elements(xs) ==> f(s) == h(Weight(|s|, n))
    ensures SubsetSum(xs, base, f) == h(Orders(xs, base, n))
  {
    if xs != [] {
      ElementsSplit(xs);
      OrdersSum(xs[1..], base, n, f, h);
      OrdersSum(xs[1..], base + {xs[0]}, n, f, h);
    }
  }

  /** c once per ordering, over n! */
  ghost function OrderShare(c: real, n: nat): nat -> real {
    (k: nat) => Average(Times(k, c), Factorial(n))
  }

  lemma OrderShareIsAdditive(c: real, n: nat)
    ensures Additive(OrderShare(c, n))
  {
    forall a: nat, b: nat ensures OrderShare(c, n)(a) + OrderShare(c, n)(b) == OrderShare(c, n)(a + b) {
      OrderSharesJoin(c, n, a, b);
    }
  }

  lemma OrderSharesJoin(c: real, n: nat, a: nat, b: nat)
    ensures OrderShare(c, n)(a) + OrderShare(c, n)(b) == OrderShare(c, n)(a + b)
  {
    TimesPlus(a, b, c);
    AveragePlus(Times(a, c), Times(b, c), Factorial(n));
  }

  lemma LeafShare(v: Value, i: string, base: set<string>, n: nat, c: real)
    requires Marginal(v, i, base) == c
    ensures ExactTerm(v, i, n)(base) == OrderShare(c, n)(Weight(|base|, n))
  {
    assert ExactTerm(v, i, n)(base) == Weighted(n)(|base|, Marginal(v, i, base));
  }

  /** A desk whose arrival is always worth c earns c once per counted ordering, over n!. */
  lemma ConstantShare(v: Value, i: string, desks: seq<string>, c: real)
    requires forall s :: s <= Elements(desks) - {i} ==> Marginal(v, i, s) == c
    ensures ExactValue(v, i, desks) == OrderShare(c, |desks|)(Orders(Without(desks, i), {}, |desks|))
  {
    var others, n := Without(desks, i), |desks|;
    WithoutElements(desks, i);
    forall s | {} <= s <= {} + Elements(others) ensures ExactTerm(v, i, n)(s) == OrderShare(c, n)(Weight(|s|, n)) {
      LeafShare(v, i, s, n, c);
    }
    OrderShareIsAdditive(c, n);
    LayersAreSubsets(others, {}, ExactTerm(v, i, n));
    OrdersSum(others, {}, n, ExactTerm(v, i, n), OrderShare(c, n));
  }

  /** Every coalition that is not empty and misses two of the n is weighed at most (n - 2)!. */
  lemma {:induction false} JoinedOrders(xs: seq<string>, base: set<string>, n: nat)
    requires base != {} && |base| + |xs| + 2 <= n
    ensures Orders(xs, base, n) <= Power2(|xs|) * Factorial(n - 2)
  {
    if xs == [] {
      FactorialProduct(|base|, n - |base| - 1);
    } else {
      var base' := base + {xs[0]};
      assert |base'| <= |base| + 1 && xs[0] in base';
      JoinedOrders(xs[1..], base, n);
      JoinedOrders(xs[1..], base', n);
      Doubled(Power2(|xs| - 1), Factorial(n - 2));
    }
  }

  lemma {:induction false} FewOrders(xs: seq<string>, n: nat)
    requires |xs| + 2 <= n
    ensures Orders(xs, {}, n) <= Factorial(n - 1) + (Power2(|xs|) - 1) * Factorial(n - 2)
  {
    if xs != [] {
      assert {} + {xs[0]} == {xs[0]};
      FewOrders(xs[1..], n);
      JoinedOrders(xs[1..], {xs[0]}, n);
      OneDoubled(Power2(|xs| - 1), Factorial(n - 2));
    }
  }

  /** Up to six desks, a desk listed twice is counted for fewer than all n! orderings. */
  lemma TwiceIsTooFew(xs: seq<string>, n: nat)
    requires |xs| + 2 <= n <= EXACT_MAX_N
    ensures Orders(xs, {}, n) < Factorial(n)
  {
    var f := Factorial(n - 2);
    FewOrders(xs, n);
    PowerBelow(|xs|, n);
    FewerCopies(n - 1, Power2(|xs|), n * (n - 1), f);
    assert Factorial(n) == n * Factorial(n - 1) && Factorial(n - 1) == (n - 1) * f;
    Regroup(n, n - 1, f);
  }

  // ----- one row alone has a forecast

  function OnlyBook(desks: seq<string>, j: nat): Book
    requires j < |desks|
  {
    [(EqualRows(desks)[j].Key(), Forecast("f", 1.0, false))]
  }

  /** Worth 1 as soon as d joins. */
  function Joined(d: string): Value {
    s => if d in s then 1.0 else 0.0
  }

  lemma OnlyContribution(desks: seq<string>, j: nat, i: nat)
    requires j < |desks| && i < |desks|
    ensures Contribution(EqualRows(desks)[i], OnlyBook(desks, j)) == if i == j then 1.0 else 0.0
  {
    var row, key, f := EqualRows(desks)[i], EqualRows(desks)[j].Key(), Forecast("f", 1.0, false);
    GetSingle(key, f, row.Key());
    if i != j { KeysDiffer(desks, i, j); }
    assert Used(row, OnlyBook(desks, j)) == if i == j then Some(f) else None;
  }

  lemma OnlySignal(desks: seq<string>, j: nat, s: set<string>)
    requires j < |desks|
    ensures CoalitionSignal(EqualRows(desks), OnlyBook(desks, j), s) == Joined(desks[j])(s)
  {
    var rows, f := EqualRows(desks), Included(OnlyBook(desks, j), s);
    forall i | 0 <= i < |rows| ensures f(rows[i]) == if i == j then Joined(desks[j])(s) else 0.0 {
      OnlyContribution(desks, j, i);
    }
    SumOnly(rows, j, f);
  }

  lemma OnlyActive(desks: seq<string>, j: nat, s: set<string>)
    requires j < |desks|
    ensures NormalizedSignal(OnlyBook(desks, j), s) == Joined(desks[j])(s)
  {
    var xs := ActiveValues(OnlyBook(desks, j), s);
    assert ActiveValues(OnlyBook(desks, j)[1..], s) == [];
    assert xs == if desks[j] in s then [1.0] else [];
    if desks[j] in s {
      SumConstant([1.0], 1.0, x => x);
      AverageOfCopies(1.0, 1);
      assert Sum(xs, x => x) == Sum([1.0], x => x);
    }
  }

  lemma OnlyPosition(desks: seq<string>, j: nat)
    requires j < |desks|
    ensures Unsaturated(EqualRows(desks), OnlyBook(desks, j), UNIT)
    ensures Shifted(PositionValue(EqualRows(desks), OnlyBook(desks, j), UNIT), Joined(desks[j]), desks, 0.0)
  {
    forall s | s <= Elements(desks)
      ensures InLimit(UNIT, CoalitionSignal(EqualRows(desks), OnlyBook(desks, j), s))
      ensures PositionValue(EqualRows(desks), OnlyBook(desks, j), UNIT)(s) == Joined(desks[j])(s) + 0.0 {
      OnlySignal(desks, j, s);
    }
    assert DeskNames(EqualRows(desks)) == desks;
  }

  lemma UnitError(x: real)
    requires x == 0.0 || x == 1.0
    ensures NegatedSquare(x - 1.0) == x - 1.0
  {
  }

  lemma OnlyGrading(desks: seq<string>, j: nat)
    requires j < |desks|
    ensures Shifted(GradingValue(EqualRows(desks), OnlyBook(desks, j), 1.0), Joined(desks[j]), desks, -1.0)
  {
    forall s | s <= Elements(desks)
      ensures GradingValue(EqualRows(desks), OnlyBook(desks, j), 1.0)(s) == Joined(desks[j])(s) + -1.0 {
      OnlySignal(desks, j, s);
      UnitError(Joined(desks[j])(s));
    }
  }

  lemma OnlyNormalized(desks: seq<string>, j: nat)
    requires j < |desks|
    ensures Shifted(NormalizedValue(OnlyBook(desks, j), 1.0), Joined(desks[j]), desks, -1.0)
  {
    forall s | s <= Elements(desks)
      ensures NormalizedValue(OnlyBook(desks, j), 1.0)(s) == Joined(desks[j])(s) + -1.0 {
      OnlyActive(desks, j, s);
      UnitError(Joined(desks[j])(s));
    }
  }

  // ----- the desk that is listed twice gets less than all

  lemma {:induction false} WithoutShorter(xs: seq<string>, d: string)
    requires d in xs
    ensures |Without(xs, d)| < |xs|
  {
    WithoutElements(xs, d);
    if xs[0] == d {
      WithoutElements(xs[1..], d);
    } else {
      WithoutShorter(xs[1..], d);
    }
  }

  lemma {:induction false} WithoutTwice(xs: seq<string>, i: nat, j: nat)
    requires i < j < |xs| && xs[i] == xs[j]
    ensures |Without(xs, xs[j])| + 2 <= |xs|
  {
    if i == 0 {
      assert xs[j] == xs[1..][j - 1];
      WithoutShorter(xs[1..], xs[j]);
    } else {
      WithoutTwice(xs[1..], i - 1, j - 1);
    }
  }

  lemma JoinedShare(d: string, desks: seq<string>, i: string)
    ensures ExactValue(Joined(d), i, desks)
         == OrderShare(if i == d then 1.0 else 0.0, |desks|)(Orders(Without(desks, i), {}, |desks|))
  {
    ConstantShare(Joined(d), i, desks, if i == d then 1.0 else 0.0);
  }

  lemma OrderShareBounds(n: nat, k: nat)
    ensures OrderShare(0.0, n)(k) == 0.0
    ensures k < Factorial(n) ==> OrderShare(1.0, n)(k) < 1.0
  {
    TimesIsProduct(k, 0.0);
    TimesIsProduct(k, 1.0);
  }

  lemma JoinedTotal(d: string, desks: seq<string>)
    requires d in desks
    ensures ExactTotal(Joined(d), desks) == ExactValue(Joined(d), d, desks)
  {
    var ds, w := FirstOccurrences(desks), ExactValue(Joined(d), d, desks);
    FirstOccurrencesSpec(desks);
    assert d in Elements(desks) && d in Elements(ds);
    forall i | i in ds ensures ExactValues(Joined(d), desks)(i) == if d == i then w else 0.0 {
      JoinedShare(d, desks, i);
      OrderShareBounds(|desks|, Orders(Without(desks, i), {}, |desks|));
    }
    SumOfPoint(ds, d, w);
    SumCongruence(ds, ExactValues(Joined(d), desks), i => if d == i then w else 0.0);
  }

  lemma ListedTwiceLoses(desks: seq<string>, i: nat, j: nat)
    requires i < j < |desks| <= EXACT_MAX_N && desks[i] == desks[j]
    ensures ExactTotal(Joined(desks[j]), desks) < 1.0
    ensures Joined(desks[j])(Elements(desks)) - Joined(desks[j])({}) == 1.0
  {
    var d := desks[j];
    WithoutTwice(desks, i, j);
    TwiceIsTooFew(Without(desks, d), |desks|);
    JoinedTotal(d, desks);
    JoinedShare(d, desks, d);
    OrderShareBounds(|desks|, Orders(Without(desks, d), {}, |desks|));
  }

  lemma RepeatedNameLoses(v: Value, desks: seq<string>, i: nat, j: nat, c: real)
    requires i < j < |desks| <= EXACT_MAX_N && desks[i] == desks[j]
    requires Shifted(v, Joined(desks[j]), desks, c)
    ensures ExactTotal(v, desks) < v(Elements(desks)) - v({})
  {
    TotalOfShifted(v, Joined(desks[j]), desks, c);
    ListedTwiceLoses(desks, i, j);
  }

  /** In the position space the loss needs no clipping. */
  lemma UnsaturatedEfficientIffDistinct(desks: seq<string>)
    requires |desks| <= EXACT_MAX_N
    ensures (forall rows, book, p: ParamsRow ::
               Readable(rows, desks) && p.limit >= 0.0 && Unsaturated(rows, book, p) ==>
                 Efficient(PositionValue(rows, book, p), desks))
            <==> Distinct(desks)
  {
    if Distinct(desks) {
      forall rows, book, p: ParamsRow ensures Efficient(PositionValue(rows, book, p), desks) {
        ExactEfficiency(PositionValue(rows, book, p), desks);
      }
    } else {
      var i, j :| 0 <= i < j < |desks| && desks[i] == desks[j];
      var v := PositionValue(EqualRows(desks), OnlyBook(desks, j), UNIT);
      EqualRowsReadable(desks);
      OnlyPosition(desks, j);
      RepeatedNameLoses(v, desks, i, j, 0.0);
      assert !Efficient(v, desks);
    }
  }

  /** The squared-error values add up for every input with these desks exactly when no name repeats. */
  lemma GradingEfficientIffDistinct(desks: seq<string>)
    requires |desks| <= EXACT_MAX_N
    ensures (forall rows, book, y :: Readable(rows, desks) ==> Efficient(GradingValue(rows, book, y), desks))
            <==> Distinct(desks)
  {
    if Distinct(desks) {
      forall rows, book, y ensures Efficient(GradingValue(rows, book, y), desks) {
        ExactEfficiency(GradingValue(rows, book, y), desks);
      }
    } else {
      var i, j :| 0 <= i < j < |desks| && desks[i] == desks[j];
      var v := GradingValue(EqualRows(desks), OnlyBook(desks, j), 1.0);
      EqualRowsReadable(desks);
      OnlyGrading(desks, j);
      RepeatedNameLoses(v, desks, i, j, -1.0);
      assert !Efficient(v, desks);
    }
  }

  /** And so do the normalized ones. */
  lemma NormalizedEfficientIffDistinct(desks: seq<string>)
    requires |desks| <= EXACT_MAX_N
    ensures (forall book, y :: Efficient(NormalizedValue(book, y), desks)) <==> Distinct(desks)
  {
    if Distinct(desks) {
      forall book, y ensures Efficient(NormalizedValue(book, y), desks) {
        ExactEfficiency(NormalizedValue(book, y), desks);
      }
    } else {
      var i, j :| 0 <= i < j < |desks| && desks[i] == desks[j];
      var v := NormalizedValue(OnlyBook(desks, j), 1.0);
      OnlyNormalized(desks, j);
      RepeatedNameLoses(v, desks, i, j, -1.0);
      assert !Efficient(v, desks);
    }
  }
}
