/** Greedy thinning as an interval-scheduling optimum (feasibility/tractability_v1.py:247-283). */
module Thinning {
  import opened Contracts
  import opened StableSort

  function Identity(x: int): int { x }

  /** sorted(decision_ts). */
  function Sorted(xs: seq<int>): seq<int> {
    SortBy(Identity, xs)
  }

  ghost predicate NonDecreasing(xs: seq<int>) {
    forall i, j :: 0 <= i < j < |xs| ==> xs[i] <= xs[j]
  }

  /** Each timestamp is more than the gap after the one before it, hence after all before it. */
  ghost predicate Separated(xs: seq<int>, gap: int) {
    forall i, j :: 0 <= i < j < |xs| ==> xs[j] > xs[i] + gap
  }

  /** What the greedy pass keeps of a sorted sequence, given the next timestamp's lower bound. */
  function Kept(xs: seq<int>, nextAllowed: Option<int>, gap: int): seq<int>
  {
    if xs == [] then []
    else if nextAllowed.Some? && xs[0] <= nextAllowed.value then Kept(xs[1..], nextAllowed, gap)
    else [xs[0]] + Kept(xs[1..], Some(xs[0] + gap), gap)
  }

  function Gap(purge: int, embargo: int): int { (purge + embargo) * DAY }

  function Thinned(decisions: seq<int>, gap: int): seq<int> {
    Kept(Sorted(decisions), None, gap)
  }

  lemma SortedNonDecreasing(xs: seq<int>)
    ensures NonDecreasing(Sorted(xs)) && multiset(Sorted(xs)) == multiset(xs)
  {
    SortSorted(Identity, xs);
    SortContents(Identity, xs);
    var s := Sorted(xs);
    forall i, j | 0 <= i < j < |s| ensures s[i] <= s[j] {
      assert Identity(s[i]) <= Identity(s[j]);
    }
  }

  /** A run of equal timestamps is fixed by how often they occur. */
  lemma {:induction false} RunOf(xs: seq<int>, k: int)
    ensures WithKey(Identity, xs, k) == seq(multiset(xs)[k], i => k)
  {
    if xs != [] {
      RunOf(xs[1..], k);
      FirstAndRest(xs);
    }
  }

  lemma FirstAndRest(xs: seq<int>)
    requires xs != []
    ensures multiset(xs) == multiset{xs[0]} + multiset(xs[1..])
  {
    assert xs == [xs[0]] + xs[1..];
  }

  /** The order of the input does not matter. */
  lemma ThinningIgnoresOrder(xs: seq<int>, ys: seq<int>, gap: int)
    requires multiset(xs) == multiset(ys)
    ensures Thinned(xs, gap) == Thinned(ys, gap)
  {
    SortSorted(Identity, xs);
    SortSorted(Identity, ys);
    SortContents(Identity, xs);
    SortContents(Identity, ys);
    forall k ensures WithKey(Identity, Sorted(xs), k) == WithKey(Identity, Sorted(ys), k) {
      RunOf(Sorted(xs), k);
      RunOf(Sorted(ys), k);
    }
    SortedUnique(Identity, Sorted(xs), Sorted(ys));
  }

  lemma {:induction false} KeptWithin(xs: seq<int>, nextAllowed: Option<int>, gap: int)
    ensures multiset(Kept(xs, nextAllowed, gap)) <= multiset(xs)
  {
    if xs != [] {
      FirstAndRest(xs);
      if nextAllowed.Some? && xs[0] <= nextAllowed.value {
        KeptWithin(xs[1..], nextAllowed, gap);
      } else {
        KeptWithin(xs[1..], Some(xs[0] + gap), gap);
        FirstAndRest(Kept(xs, nextAllowed, gap));
      }
    }
  }

  lemma {:induction false} KeptAbove(xs: seq<int>, nextAllowed: Option<int>, gap: int, k: int)
    requires NonDecreasing(xs) && k in Kept(xs, nextAllowed, gap)
    ensures k in xs && (nextAllowed.Some? ==> k > nextAllowed.value)
  {
    if nextAllowed.Some? && xs[0] <= nextAllowed.value {
      KeptAbove(xs[1..], nextAllowed, gap, k);
    } else if k != xs[0] {
      KeptAbove(xs[1..], Some(xs[0] + gap), gap, k);
      assert k in xs && xs[0] <= k;
    }
  }

  lemma {:induction false} KeptSeparated(xs: seq<int>, nextAllowed: Option<int>, gap: int)
    requires NonDecreasing(xs)
    ensures Separated(Kept(xs, nextAllowed, gap), gap) && NonDecreasing(Kept(xs, nextAllowed, gap))
  {
    if xs != [] {
      if nextAllowed.Some? && xs[0] <= nextAllowed.value {
        KeptSeparated(xs[1..], nextAllowed, gap);
      } else {
        var tail := Kept(xs[1..], Some(xs[0] + gap), gap);
        KeptSeparated(xs[1..], Some(xs[0] + gap), gap);
        forall j | 0 <= j < |tail| ensures tail[j] > xs[0] + gap && tail[j] >= xs[0] {
          KeptAbove(xs[1..], Some(xs[0] + gap), gap, tail[j]);
        }
        assert Kept(xs, nextAllowed, gap) == [xs[0]] + tail;
      }
    }
  }

  /** Every timestamp is kept or lies within the gap after a kept one. */
  lemma {:induction false} DroppedFrom(xs: seq<int>, nextAllowed: Option<int>, gap: int, x: int)
    requires NonDecreasing(xs) && x in xs
    ensures var kept := Kept(xs, nextAllowed, gap);
            || x in kept
            || (exists k :: k in kept && k <= x <= k + gap)
            || (nextAllowed.Some? && x <= nextAllowed.value)
  {
    if nextAllowed.Some? && xs[0] <= nextAllowed.value {
      if x in xs[1..] { DroppedFrom(xs[1..], nextAllowed, gap, x); }
    } else if x != xs[0] {
      var bound := xs[0] + gap;
      var kept := Kept(xs, nextAllowed, gap);
      assert x in xs[1..];
      DroppedFrom(xs[1..], Some(bound), gap, x);
      if x !in Kept(xs[1..], Some(bound), gap) {
        if exists k :: k in Kept(xs[1..], Some(bound), gap) && k <= x <= k + gap {
          var k :| k in Kept(xs[1..], Some(bound), gap) && k <= x <= k + gap;
          assert k in kept;
        } else {
          assert xs[0] in kept && xs[0] <= x <= xs[0] + gap;
        }
      }
    }
  }

  /** The greedy pass stays ahead of any separated selection. */
  lemma {:induction false} StaysAhead(xs: seq<int>, nextAllowed: Option<int>, gap: int, other: seq<int>)
    requires NonDecreasing(xs) && NonDecreasing(other) && Separated(other, gap)
    requires multiset(other) <= multiset(xs)
    requires nextAllowed.Some? ==> forall k :: k in other ==> k > nextAllowed.value
    ensures |other| <= |Kept(xs, nextAllowed, gap)|
  {
    if other == [] {
    } else {
      assert other[0] in multiset(other);
      FirstAndRest(xs);
      if nextAllowed.Some? && xs[0] <= nextAllowed.value {
        assert xs[0] !in other;
        WithoutFirst(xs, other);
        StaysAhead(xs[1..], nextAllowed, gap, other);
      } else {
        assert xs[0] <= other[0];
        forall k | k in other[1..] ensures k > xs[0] + gap {
          var j :| 0 <= j < |other[1..]| && other[1..][j] == k;
          assert other[j + 1] > other[0] + gap;
        }
        RestWithin(xs, other);
        StaysAhead(xs[1..], Some(xs[0] + gap), gap, other[1..]);
      }
    }
  }

  lemma WithoutFirst(xs: seq<int>, other: seq<int>)
    requires xs != [] && multiset(other) <= multiset(xs) && xs[0] !in other
    ensures multiset(other) <= multiset(xs[1..])
  {
    FirstAndRest(xs);
    assert xs[0] !in multiset(other);
    forall y ensures multiset(other)[y] <= multiset(xs[1..])[y] {}
  }

  lemma RestWithin(xs: seq<int>, other: seq<int>)
    requires xs != [] && other != [] && NonDecreasing(other) && multiset(other) <= multiset(xs) && xs[0] <= other[0]
    ensures multiset(other[1..]) <= multiset(xs[1..])
  {
    FirstAndRest(xs);
    FirstAndRest(other);
    if xs[0] != other[0] {
      assert xs[0] !in other;
      WithoutFirst(xs, other);
    }
    forall y ensures multiset(other[1..])[y] <= multiset(xs[1..])[y] {}
  }

  /**
   * The greedy selection is optimal: separated, made of input timestamps, every dropped timestamp within
   * the gap after a kept one, and no separated selection from the input is larger.
   */
  lemma ThinningIsOptimal(decisions: seq<int>, gap: int)
    ensures Separated(Thinned(decisions, gap), gap) && NonDecreasing(Thinned(decisions, gap))
    ensures multiset(Thinned(decisions, gap)) <= multiset(decisions)
    ensures forall x :: x in decisions ==>
              x in Thinned(decisions, gap) || exists k :: k in Thinned(decisions, gap) && k <= x <= k + gap
    ensures forall other :: multiset(other) <= multiset(decisions) && NonDecreasing(other) && Separated(other, gap)
              ==> |other| <= |Thinned(decisions, gap)|
  {
    var s := Sorted(decisions);
    SortedNonDecreasing(decisions);
    KeptSeparated(s, None, gap);
    KeptWithin(s, None, gap);
    forall x | x in decisions
      ensures x in Thinned(decisions, gap) || exists k :: k in Thinned(decisions, gap) && k <= x <= k + gap {
      assert x in multiset(s);
      DroppedFrom(s, None, gap, x);
    }
    forall other | multiset(other) <= multiset(decisions) && NonDecreasing(other) && Separated(other, gap)
      ensures |other| <= |Thinned(decisions, gap)| {
      StaysAhead(s, None, gap, other);
    }
  }

  /** More timestamps never mean fewer kept ones. */
  lemma ThinningMonotone(fewer: seq<int>, more: seq<int>, gap: int)
    requires multiset(fewer) <= multiset(more)
    ensures |Thinned(fewer, gap)| <= |Thinned(more, gap)|
  {
    ThinningIsOptimal(fewer, gap);
    ThinningIsOptimal(more, gap);
    assert multiset(Thinned(fewer, gap)) <= multiset(more);
  }

  /** effective_n. */
  method EffectiveN(decisions: seq<int>, purge: int, embargo: int) returns (n: Result<int>)
    ensures purge < 0 || embargo < 0 <==> n == Raised(ValueError)
    ensures n.Ok? ==> n.value == |Thinned(decisions, (purge + embargo) * 86400)|
  {
    if purge < 0 || embargo < 0 { return Raised(ValueError); }
    var kept := 0;
    var nextAllowed: Option<int> := None;
    var gap := Gap(purge, embargo);
    var sorted := Sorted(decisions);
    for i := 0 to |sorted|
      invariant kept + |Kept(sorted[i..], nextAllowed, gap)| == |Kept(sorted, None, gap)|
    {
      var ts := sorted[i];
      assert sorted[i..][0] == ts && sorted[i..][1..] == sorted[i + 1..];
      if nextAllowed.Some? && ts <= nextAllowed.value { continue; }
      kept := kept + 1;
      nextAllowed := Some(ts + gap);
    }
    n := Ok(kept);
  }

  /** kept_decision_ts: the same pass, without the sign check. */
  method KeptDecisionTs(decisions: seq<int>, purge: int, embargo: int) returns (kept: seq<int>)
    ensures kept == Thinned(decisions, (purge + embargo) * 86400)
  {
    kept := [];
    var nextAllowed: Option<int> := None;
    var gap := Gap(purge, embargo);
    var sorted := Sorted(decisions);
    for i := 0 to |sorted|
      invariant kept + Kept(sorted[i..], nextAllowed, gap) == Kept(sorted, None, gap)
    {
      var ts := sorted[i];
      assert sorted[i..][0] == ts && sorted[i..][1..] == sorted[i + 1..];
      if nextAllowed.Some? && ts <= nextAllowed.value { continue; }
      kept := kept + [ts];
      nextAllowed := Some(ts + gap);
    }
  }
}
