/**
 Python's sorted(): ascending by an integer key, equal keys in their original order, characterised by its
 contents and by the run of every key.
 */
module StableSort {
  predicate SortedBy<T>(key: T -> int, xs: seq<T>) {
    forall i, j :: 0 <= i < j < |xs| ==> key(xs[i]) <= key(xs[j])
  }

  /** After every element whose key is not larger. */
  function InsertBy<T>(key: T -> int, xs: seq<T>, x: T): seq<T>
  {
    if xs == [] then [x]
    else if key(xs[0]) <= key(x) then [xs[0]] + InsertBy(key, xs[1..], x)
    else [x] + xs
  }

  function SortBy<T>(key: T -> int, xs: seq<T>): seq<T>
  {
    if xs == [] then [] else InsertBy(key, SortBy(key, xs[..|xs| - 1]), xs[|xs| - 1])
  }

  /** The elements with key k, in order. */
  function WithKey<T>(key: T -> int, xs: seq<T>, k: int): seq<T>
  {
    if xs == [] then [] else (if key(xs[0]) == k then [xs[0]] else []) + WithKey(key, xs[1..], k)
  }

  lemma {:induction false} WithKeyAppend<T>(key: T -> int, xs: seq<T>, ys: seq<T>, k: int)
    ensures WithKey(key, xs + ys, k) == WithKey(key, xs, k) + WithKey(key, ys, k)
  {
    if xs == [] {
      assert xs + ys == ys;
    } else {
      assert (xs + ys)[1..] == xs[1..] + ys;
      WithKeyAppend(key, xs[1..], ys, k);
      var head: seq<T> := if key(xs[0]) == k then [xs[0]] else [];
      assert WithKey(key, xs + ys, k) == head + WithKey(key, xs[1..] + ys, k);
      assert head + (WithKey(key, xs[1..], k) + WithKey(key, ys, k))
          == head + WithKey(key, xs[1..], k) + WithKey(key, ys, k);
    }
  }

  lemma {:induction false} WithKeyNone<T>(key: T -> int, xs: seq<T>, k: int)
    requires forall x :: x in xs ==> key(x) != k
    ensures WithKey(key, xs, k) == []
  {
    if xs != [] { WithKeyNone(key, xs[1..], k); }
  }

  lemma {:induction false} InsertContents<T>(key: T -> int, xs: seq<T>, x: T)
    ensures multiset(InsertBy(key, xs, x)) == multiset(xs) + multiset{x}
  {
    if xs != [] && key(xs[0]) <= key(x) {
      InsertContents(key, xs[1..], x);
      assert xs == [xs[0]] + xs[1..];
    }
  }

  lemma {:induction false} SortContents<T>(key: T -> int, xs: seq<T>)
    ensures multiset(SortBy(key, xs)) == multiset(xs)
  {
    if xs != [] {
      var front, last := xs[..|xs| - 1], xs[|xs| - 1];
      SortContents(key, front);
      InsertContents(key, SortBy(key, front), last);
      assert xs == front + [last];
    }
  }

  lemma {:induction false} InsertSorted<T>(key: T -> int, xs: seq<T>, x: T)
    requires SortedBy(key, xs)
    ensures SortedBy(key, InsertBy(key, xs, x))
  {
    if xs != [] && key(xs[0]) <= key(x) {
      InsertSorted(key, xs[1..], x);
      var tail := InsertBy(key, xs[1..], x);
      InsertContents(key, xs[1..], x);
      forall j | 0 <= j < |tail| ensures key(xs[0]) <= key(tail[j]) {
        assert tail[j] in multiset(tail);
        assert tail[j] == x || tail[j] in xs[1..];
      }
    }
  }

  lemma {:induction false} SortSorted<T>(key: T -> int, xs: seq<T>)
    ensures SortedBy(key, SortBy(key, xs))
  {
    if xs != [] {
      SortSorted(key, xs[..|xs| - 1]);
      InsertSorted(key, SortBy(key, xs[..|xs| - 1]), xs[|xs| - 1]);
    }
  }

  lemma {:induction false} InsertStable<T>(key: T -> int, xs: seq<T>, x: T, k: int)
    requires SortedBy(key, xs)
    ensures WithKey(key, InsertBy(key, xs, x), k) == WithKey(key, xs + [x], k)
  {
    if xs == [] {
      assert xs + [x] == [x];
    } else if key(xs[0]) <= key(x) {
      assert (xs + [x])[1..] == xs[1..] + [x];
      InsertStable(key, xs[1..], x, k);
    } else {
      WithKeyAppend(key, xs, [x], k);
      WithKeyAppend(key, [x], xs, k);
      if k == key(x) {
        forall y | y in xs ensures key(y) != k { var i :| 0 <= i < |xs| && xs[i] == y; }
        WithKeyNone(key, xs, k);
      } else {
        assert WithKey(key, [x], k) == [];
      }
    }
  }

  /** Sorting keeps the order of equal keys. */
  lemma {:induction false} SortStable<T>(key: T -> int, xs: seq<T>, k: int)
    ensures WithKey(key, SortBy(key, xs), k) == WithKey(key, xs, k)
  {
    if xs != [] {
      var front, last := xs[..|xs| - 1], xs[|xs| - 1];
      SortStable(key, front, k);
      SortSorted(key, front);
      InsertStable(key, SortBy(key, front), last, k);
      WithKeyAppend(key, SortBy(key, front), [last], k);
      WithKeyAppend(key, front, [last], k);
      assert xs == front + [last];
    }
  }

  lemma {:induction false} WithKeyMember<T>(key: T -> int, xs: seq<T>, k: int)
    ensures forall y :: y in WithKey(key, xs, k) ==> y in xs && key(y) == k
    ensures WithKey(key, xs, k) == [] ==> forall y :: y in xs ==> key(y) != k
  {
    if xs != [] { WithKeyMember(key, xs[1..], k); }
  }

  /** A sorted sequence is determined by its runs of equal keys. */
  lemma {:induction false} SortedUnique<T>(key: T -> int, xs: seq<T>, ys: seq<T>)
    requires SortedBy(key, xs) && SortedBy(key, ys)
    requires forall k :: WithKey(key, xs, k) == WithKey(key, ys, k)
    ensures xs == ys
  {
    if xs != [] && ys != [] {
      var k := key(xs[0]);
      WithKeyMember(key, ys, k);
      WithKeyMember(key, xs, key(ys[0]));
      assert WithKey(key, xs, k) != [] && WithKey(key, ys, key(ys[0])) != [];
      SameFirstKey(key, xs, ys);
      assert xs[0] == WithKey(key, xs, k)[0] == ys[0];
      forall q ensures WithKey(key, xs[1..], q) == WithKey(key, ys[1..], q) {
        assert WithKey(key, xs, q) == WithKey(key, ys, q);
        TailRuns(key, xs, q);
        TailRuns(key, ys, q);
      }
      SortedUnique(key, xs[1..], ys[1..]);
    } else {
      NoRuns(key, xs, ys);
      NoRuns(key, ys, xs);
    }
  }

  lemma {:induction false} TailRuns<T>(key: T -> int, xs: seq<T>, k: int)
    requires xs != []
    ensures WithKey(key, xs[1..], k) == if key(xs[0]) == k then WithKey(key, xs, k)[1..] else WithKey(key, xs, k)
  {
  }

  lemma {:induction false} NoRuns<T>(key: T -> int, xs: seq<T>, ys: seq<T>)
    requires forall k :: WithKey(key, xs, k) == WithKey(key, ys, k)
    ensures ys == [] ==> xs == []
  {
    if xs != [] {
      assert WithKey(key, xs, key(xs[0])) == WithKey(key, ys, key(xs[0]));
    }
  }

  lemma {:induction false} SameFirstKey<T>(key: T -> int, xs: seq<T>, ys: seq<T>)
    requires xs != [] && ys != [] && SortedBy(key, xs) && SortedBy(key, ys)
    requires WithKey(key, xs, key(xs[0])) == WithKey(key, ys, key(xs[0]))
    requires WithKey(key, xs, key(ys[0])) == WithKey(key, ys, key(ys[0]))
    ensures key(xs[0]) == key(ys[0])
  {
    FirstKeyLeast(key, xs, ys);
    FirstKeyLeast(key, ys, xs);
  }

  lemma {:induction false} FirstKeyLeast<T>(key: T -> int, xs: seq<T>, ys: seq<T>)
    requires xs != [] && ys != [] && SortedBy(key, ys)
    requires WithKey(key, xs, key(xs[0])) == WithKey(key, ys, key(xs[0]))
    ensures key(ys[0]) <= key(xs[0])
  {
    var run := WithKey(key, ys, key(xs[0]));
    assert run != [];
    WithKeyMember(key, ys, key(xs[0]));
    var i :| 0 <= i < |ys| && ys[i] == run[0];
  }
}
