/**
 ORDER BY and SELECT DISTINCT: byte-wise string order, lexicographic order of slots, and duplicate-free
 ascending lists of them.
 */
module Ordering {
  import opened Contracts

  predicate StringLess(a: string, b: string)
  {
    b != [] && (a == [] || a[0] < b[0] || (a[0] == b[0] && StringLess(a[1..], b[1..])))
  }

  /** The strings agree up to some place, where the first ends or has the smaller character. */
  lemma {:induction false} StringLessIff(a: string, b: string)
    ensures StringLess(a, b) <==>
            exists i :: 0 <= i <= |a| && i < |b| && a[..i] == b[..i] && (i == |a| || a[i] < b[i])
  {
    if a == [] || b == [] || a[0] != b[0] {
      assert a[..0] == b[..0];
      forall i | 0 < i <= |a| && i < |b| ensures a[..i] != b[..i] { assert a[..i][0] != b[..i][0]; }
    } else {
      StringLessIff(a[1..], b[1..]);
      if i :| 0 <= i <= |a[1..]| && i < |b[1..]| && a[1..][..i] == b[1..][..i]
              && (i == |a[1..]| || a[1..][i] < b[1..][i]) {
        assert a[..i + 1] == [a[0]] + a[1..][..i] == [b[0]] + b[1..][..i] == b[..i + 1];
      }
      if i :| 0 <= i <= |a| && i < |b| && a[..i] == b[..i] && (i == |a| || a[i] < b[i]) {
        assert a[1..][..i - 1] == a[..i][1..] == b[..i][1..] == b[1..][..i - 1];
      }
    }
  }

  /** Lexicographic order of (regime_id, desk_name, target_variable). */
  predicate TripleLess(a: Triple, b: Triple)
  {
    StringLess(a.regime, b.regime)
    || (a.regime == b.regime && (StringLess(a.desk, b.desk) || (a.desk == b.desk && StringLess(a.target, b.target))))
  }

  ghost predicate StrictTotal<T(!new)>(less: (T, T) -> bool) {
    && (forall a :: !less(a, a))
    && (forall a, b, c :: less(a, b) && less(b, c) ==> less(a, c))
    && (forall a, b :: less(a, b) || less(b, a) || a == b)
  }

  lemma {:induction false} StringIrreflexive(a: string)
    ensures !StringLess(a, a)
  {
    if a != [] { StringIrreflexive(a[1..]); }
  }

  lemma {:induction false} StringTransitive(a: string, b: string, c: string)
    requires StringLess(a, b) && StringLess(b, c)
    ensures StringLess(a, c)
  {
    if a != [] && a[0] == b[0] == c[0] { StringTransitive(a[1..], b[1..], c[1..]); }
  }

  lemma {:induction false} StringTotal(a: string, b: string)
    ensures StringLess(a, b) || StringLess(b, a) || a == b
  {
    if a != [] && b != [] && a[0] == b[0] {
      StringTotal(a[1..], b[1..]);
      if a[1..] == b[1..] { assert a == [a[0]] + a[1..] == b; }
    }
  }

  lemma StringOrder()
    ensures StrictTotal(StringLess)
  {
    forall a ensures !StringLess(a, a) { StringIrreflexive(a); }
    forall a, b, c | StringLess(a, b) && StringLess(b, c) ensures StringLess(a, c) { StringTransitive(a, b, c); }
    forall a, b ensures StringLess(a, b) || StringLess(b, a) || a == b { StringTotal(a, b); }
  }

  lemma TripleOrder()
    ensures StrictTotal(TripleLess)
  {
    StringOrder();
    forall a, b ensures TripleLess(a, b) || TripleLess(b, a) || a == b {
      StringTotal(a.regime, b.regime);
      StringTotal(a.desk, b.desk);
      StringTotal(a.target, b.target);
    }
    forall a, b, c | TripleLess(a, b) && TripleLess(b, c) ensures TripleLess(a, c) {
    }
  }

  ghost predicate Ascending<T>(less: (T, T) -> bool, xs: seq<T>) {
    forall i, j :: 0 <= i < j < |xs| ==> less(xs[i], xs[j])
  }

  function Insert<T(==)>(less: (T, T) -> bool, xs: seq<T>, x: T): seq<T>
  {
    if xs == [] then [x]
    else if xs[0] == x then xs
    else if less(x, xs[0]) then [x] + xs
    else [xs[0]] + Insert(less, xs[1..], x)
  }

  /** The distinct elements of xs in ascending order. */
  function SortDistinct<T(==)>(less: (T, T) -> bool, xs: seq<T>): seq<T>
  {
    if xs == [] then [] else Insert(less, SortDistinct(less, xs[..|xs| - 1]), xs[|xs| - 1])
  }

  lemma {:induction false} InsertMember<T>(less: (T, T) -> bool, xs: seq<T>, x: T, y: T)
    ensures y in Insert(less, xs, x) <==> y == x || y in xs
  {
    if xs != [] && xs[0] != x && !less(x, xs[0]) {
      InsertMember(less, xs[1..], x, y);
      assert y in xs <==> y == xs[0] || y in xs[1..];
    }
  }

  lemma {:induction false} InsertAscending<T(!new)>(less: (T, T) -> bool, xs: seq<T>, x: T)
    requires StrictTotal(less) && Ascending(less, xs)
    ensures Ascending(less, Insert(less, xs, x))
  {
    if xs != [] && xs[0] != x {
      if less(x, xs[0]) {
        assert forall j :: 0 < j < |xs| ==> less(xs[0], xs[j]);
      } else {
        InsertAscending(less, xs[1..], x);
        var tail := Insert(less, xs[1..], x);
        forall j | 0 <= j < |tail| ensures less(xs[0], tail[j]) {
          InsertMember(less, xs[1..], x, tail[j]);
        }
      }
    }
  }

  lemma {:induction false} SortDistinctSpec<T(!new)>(less: (T, T) -> bool, xs: seq<T>)
    requires StrictTotal(less)
    ensures Ascending(less, SortDistinct(less, xs))
    ensures forall y :: y in SortDistinct(less, xs) <==> y in xs
  {
    if xs != [] {
      var front, last := xs[..|xs| - 1], xs[|xs| - 1];
      SortDistinctSpec(less, front);
      InsertAscending(less, SortDistinct(less, front), last);
      assert xs == front + [last];
      forall y ensures y in SortDistinct(less, xs) <==> y in xs {
        InsertMember(less, SortDistinct(less, front), last, y);
      }
    }
  }

  lemma NothingInNothing<T>(xs: seq<T>, ys: seq<T>)
    requires forall y :: y in xs ==> y in ys
    ensures ys == [] ==> xs == []
  {
    if xs != [] { assert xs[0] in ys; }
  }

  /** An ascending list is determined by its elements. */
  lemma {:induction false} AscendingUnique<T(!new)>(less: (T, T) -> bool, xs: seq<T>, ys: seq<T>)
    requires StrictTotal(less) && Ascending(less, xs) && Ascending(less, ys)
    requires forall y :: y in xs <==> y in ys
    ensures xs == ys
  {
    if xs == [] {
      NothingInNothing(ys, xs);
    } else {
      assert xs[0] in ys;
      assert ys[0] in xs;
      assert xs[0] == ys[0];
      forall y ensures y in xs[1..] <==> y in ys[1..] {
        assert y in xs <==> y == xs[0] || y in xs[1..];
        assert y in ys <==> y == ys[0] || y in ys[1..];
        assert xs[0] !in xs[1..] && ys[0] !in ys[1..];
      }
      AscendingUnique(less, xs[1..], ys[1..]);
    }
  }
}
