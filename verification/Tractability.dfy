/** From event families to a target's observations (feasibility/tractability_v1.py:661-780). */
module Tractability {
  import Combinatorics
  import opened Contracts
  import opened StableSort
  import opened Sums
  import opened Thinning

  const POST_2020_START := 1577836800
  const ADMISSIBLE: set<string> := {"true_first_release", "release_lag_safe_revision_unknown"}

  /** quality: the items of vintage_quality_distribution. */
  datatype Family = Family(name: string, decisions: seq<int>, quality: seq<(string, int)>)

  /** The family of the release and the price timestamp it is anchored to. */
  datatype Observation = Observation(family: string, anchor: int)

  ghost predicate Index(prices: seq<int>) {
    forall i, j :: 0 <= i < j < |prices| ==> prices[i] < prices[j]
  }

  /** searchsorted(ts, side="left"): the number of leading entries before ts. */
  function SearchSorted(prices: seq<int>, ts: int): nat
  {
    if prices == [] || prices[0] >= ts then 0 else 1 + SearchSorted(prices[1..], ts)
  }

  /** The first price timestamp not before the release, if a full horizon of prices follows it. */
  function Anchor(prices: seq<int>, horizon: nat, ts: int): Option<int> {
    var pos := SearchSorted(prices, ts);
    if pos + horizon < |prices| then Some(prices[pos]) else None
  }

  lemma {:induction false} SearchSortedSplits(prices: seq<int>, ts: int)
    requires Index(prices)
    ensures SearchSorted(prices, ts) <= |prices|
    ensures forall i :: 0 <= i < |prices| ==> (prices[i] < ts <==> i < SearchSorted(prices, ts))
  {
    if prices != [] && prices[0] < ts {
      SearchSortedSplits(prices[1..], ts);
      forall i | 0 <= i < |prices| ensures prices[i] < ts <==> i < SearchSorted(prices, ts) {
        if i > 0 { assert prices[1..][i - 1] == prices[i]; }
      }
    }
  }

  /** A release is anchored to the earliest price at or after it, and only if horizon more prices follow. */
  lemma AnchorMeaning(prices: seq<int>, horizon: nat, ts: int)
    requires Index(prices)
    ensures Anchor(prices, horizon, ts).Some? <==>
            exists i :: 0 <= i && i + horizon < |prices| && prices[i] >= ts && forall j :: 0 <= j < i ==> prices[j] < ts
    ensures Anchor(prices, horizon, ts).Some? ==>
              var a := Anchor(prices, horizon, ts).value;
              a in prices && a >= ts && forall p :: p in prices && p >= ts ==> a <= p
  {
    SearchSortedSplits(prices, ts);
    var pos := SearchSorted(prices, ts);
    if Anchor(prices, horizon, ts).Some? {
      assert prices[pos] >= ts && forall j :: 0 <= j < pos ==> prices[j] < ts;
      forall p | p in prices && p >= ts ensures prices[pos] <= p {
        var i :| 0 <= i < |prices| && prices[i] == p;
      }
    }
    forall i | 0 <= i && i + horizon < |prices| && prices[i] >= ts ensures i >= pos {}
  }

  // ----- the functional specification of the waterfall

  function ReleaseObservations(prices: seq<int>, horizon: nat, name: string, decisions: seq<int>): seq<Observation>
  {
    if decisions == [] then []
    else
      var a := Anchor(prices, horizon, decisions[|decisions| - 1]);
      ReleaseObservations(prices, horizon, name, decisions[..|decisions| - 1]) +
      if a.Some? then [Observation(name, a.value)] else []
  }

  function Projected(prices: seq<int>, horizon: nat, families: seq<Family>): seq<Observation>
  {
    if families == [] then []
    else
      var f := families[|families| - 1];
      Projected(prices, horizon, families[..|families| - 1]) + ReleaseObservations(prices, horizon, f.name, f.decisions)
  }

  /** Releases are projected in order, family by family. */
  lemma {:induction false} ReleasesInOrder(prices: seq<int>, horizon: nat, name: string, xs: seq<int>, ys: seq<int>)
    ensures ReleaseObservations(prices, horizon, name, xs + ys)
         == ReleaseObservations(prices, horizon, name, xs) + ReleaseObservations(prices, horizon, name, ys)
  {
    if ys == [] {
      assert xs + ys == xs;
    } else {
      ReleasesInOrder(prices, horizon, name, xs, ys[..|ys| - 1]);
      assert (xs + ys)[..|xs + ys| - 1] == xs + ys[..|ys| - 1];
    }
  }

  lemma {:induction false} FamiliesInOrder(prices: seq<int>, horizon: nat, fs: seq<Family>, gs: seq<Family>)
    ensures Projected(prices, horizon, fs + gs) == Projected(prices, horizon, fs) + Projected(prices, horizon, gs)
  {
    if gs == [] {
      assert fs + gs == fs;
    } else {
      var front, g := gs[..|gs| - 1], gs[|gs| - 1];
      FamiliesInOrder(prices, horizon, fs, front);
      assert (fs + gs)[..|fs + gs| - 1] == fs + front;
      Combinatorics.Associates(Projected(prices, horizon, fs), Projected(prices, horizon, front),
                               ReleaseObservations(prices, horizon, g.name, g.decisions));
    }
  }

  function AnchorOf(o: Observation): int { o.anchor }

  function AdmissibleCount(quality: seq<(string, int)>): int
  {
    if quality == [] then 0
    else (if quality[0].0 in ADMISSIBLE then quality[0].1 else 0) + AdmissibleCount(quality[1..])
  }

  predicate Admissible(f: Family) {
    AdmissibleCount(f.quality) > 0
  }

  predicate AdmissibleTag(tag: string) {
    tag == "true_first_release" || tag == "release_lag_safe_revision_unknown"
  }

  ghost predicate Counted(quality: seq<(string, int)>) {
    forall q :: q in quality ==> q.1 >= 0
  }

  lemma {:induction false} AdmissibleCountIff(quality: seq<(string, int)>)
    requires Counted(quality)
    ensures AdmissibleCount(quality) >= 0
    ensures AdmissibleCount(quality) > 0 <==> exists q :: q in quality && AdmissibleTag(q.0) && q.1 > 0
  {
    if quality != [] {
      AdmissibleCountIff(quality[1..]);
      assert forall q :: q in quality <==> q == quality[0] || q in quality[1..];
      assert quality[0].1 >= 0;
    }
  }

  /** A family is admissible exactly when it counts some release under one of the two tags. */
  lemma AdmissibleIff(f: Family)
    requires Counted(f.quality)
    ensures Admissible(f) <==>
            exists q :: q in f.quality && q.1 > 0
                        && (q.0 == "true_first_release" || q.0 == "release_lag_safe_revision_unknown")
  {
    AdmissibleCountIff(f.quality);
  }

  /** family_admissible.get(name, False): of several families of one name the last decides. */
  predicate NameAdmissible(families: seq<Family>, name: string)
  {
    if families == [] then false
    else if families[|families| - 1].name == name then Admissible(families[|families| - 1])
    else NameAdmissible(families[..|families| - 1], name)
  }

  function QualityFilter(observations: seq<Observation>, families: seq<Family>): seq<Observation>
  {
    if observations == [] then []
    else (if NameAdmissible(families, observations[0].family) then [observations[0]] else [])
         + QualityFilter(observations[1..], families)
  }

  /** The filter keeps the observations of admissible names, each as often as it occurs, in their order. */
  lemma {:induction false} QualityFilterExact(observations: seq<Observation>, families: seq<Family>, o: Observation)
    ensures multiset(QualityFilter(observations, families))[o]
         == if NameAdmissible(families, o.family) then multiset(observations)[o] else 0
  {
    if observations != [] {
      var rest := QualityFilter(observations[1..], families);
      QualityFilterExact(observations[1..], families, o);
      assert observations == [observations[0]] + observations[1..];
      if NameAdmissible(families, observations[0].family) {
        assert multiset([observations[0]] + rest) == multiset{observations[0]} + multiset(rest);
      } else {
        assert [] + rest == rest;
      }
    }
  }

  lemma {:induction false} QualityFilterInOrder(xs: seq<Observation>, ys: seq<Observation>, families: seq<Family>)
    ensures QualityFilter(xs + ys, families) == QualityFilter(xs, families) + QualityFilter(ys, families)
  {
    if xs == [] {
      assert xs + ys == ys;
    } else {
      assert (xs + ys)[1..] == xs[1..] + ys;
      QualityFilterInOrder(xs[1..], ys, families);
    }
  }

  function Post2020(observations: seq<Observation>): seq<Observation>
  {
    if observations == [] then []
    else (if observations[0].anchor >= POST_2020_START then [observations[0]] else []) + Post2020(observations[1..])
  }

  function Anchors(observations: seq<Observation>): seq<int>
  {
    if observations == [] then [] else [observations[0].anchor] + Anchors(observations[1..])
  }

  /** The sorted, admissible, post-2020 observations. */
  function Usable(prices: seq<int>, horizon: nat, families: seq<Family>): seq<Observation> {
    Post2020(QualityFilter(SortBy(AnchorOf, Projected(prices, horizon, families)), families))
  }

  /** n_after_purge_embargo. */
  function N(prices: seq<int>, horizon: nat, families: seq<Family>, gap: int): nat {
    |Thinned(Anchors(Usable(prices, horizon, families)), gap)|
  }

  // ----- how often each anchor survives, family by family

  /** How often one family's releases are anchored to x. */
  function Hits(prices: seq<int>, horizon: nat, decisions: seq<int>, x: int): nat
  {
    if decisions == [] then 0
    else
      Hits(prices, horizon, decisions[..|decisions| - 1], x)
      + if Anchor(prices, horizon, decisions[|decisions| - 1]) == Some(x) then 1 else 0
  }

  /** How often the releases of the families with an admitted name are. */
  ghost function AllHits(prices: seq<int>, horizon: nat, families: seq<Family>, admitted: string -> bool, x: int): nat
  {
    if families == [] then 0
    else
      var f := families[|families| - 1];
      AllHits(prices, horizon, families[..|families| - 1], admitted, x)
      + if admitted(f.name) then Hits(prices, horizon, f.decisions, x) else 0
  }

  ghost function AdmittedBy(families: seq<Family>): string -> bool {
    (name: string) => NameAdmissible(families, name)
  }

  /** How many of the observations have an admitted family and the anchor x. */
  ghost function Passing(observations: seq<Observation>, admitted: string -> bool, x: int): nat
  {
    if observations == [] then 0
    else (if admitted(observations[0].family) && observations[0].anchor == x then 1 else 0)
         + Passing(observations[1..], admitted, x)
  }

  lemma {:induction false} PassingAppend(xs: seq<Observation>, ys: seq<Observation>, admitted: string -> bool, x: int)
    ensures Passing(xs + ys, admitted, x) == Passing(xs, admitted, x) + Passing(ys, admitted, x)
  {
    if xs == [] {
      assert xs + ys == ys;
    } else {
      assert (xs + ys)[1..] == xs[1..] + ys;
      PassingAppend(xs[1..], ys, admitted, x);
    }
  }

  lemma {:induction false} PassingInsert(xs: seq<Observation>, o: Observation, admitted: string -> bool, x: int)
    ensures Passing(InsertBy(AnchorOf, xs, o), admitted, x) == Passing(xs, admitted, x) + Passing([o], admitted, x)
  {
    if xs == [] {
    } else if AnchorOf(xs[0]) <= AnchorOf(o) {
      PassingInsert(xs[1..], o, admitted, x);
    } else {
      PassingAppend([o], xs, admitted, x);
    }
  }

  lemma {:induction false} PassingSort(xs: seq<Observation>, admitted: string -> bool, x: int)
    ensures Passing(SortBy(AnchorOf, xs), admitted, x) == Passing(xs, admitted, x)
  {
    if xs != [] {
      var front, last := xs[..|xs| - 1], xs[|xs| - 1];
      PassingSort(front, admitted, x);
      PassingInsert(SortBy(AnchorOf, front), last, admitted, x);
      PassingAppend(front, [last], admitted, x);
      assert xs == front + [last];
    }
  }

  lemma AnchorsCons(o: Observation, xs: seq<Observation>, x: int)
    ensures multiset(Anchors([o] + xs))[x] == (if o.anchor == x then 1 else 0) + multiset(Anchors(xs))[x]
  {
    assert ([o] + xs)[1..] == xs;
  }

  lemma {:induction false} RecentAnchors(xs: seq<Observation>, x: int)
    ensures multiset(Anchors(Post2020(xs)))[x] == if x >= POST_2020_START then multiset(Anchors(xs))[x] else 0
  {
    if xs != [] {
      RecentAnchors(xs[1..], x);
      AnchorsCons(xs[0], xs[1..], x);
      assert [xs[0]] + xs[1..] == xs;
      var rest := Post2020(xs[1..]);
      if xs[0].anchor >= POST_2020_START {
        AnchorsCons(xs[0], rest, x);
      } else {
        assert [] + rest == rest;
      }
    }
  }

  lemma {:induction false} QualityAnchors(xs: seq<Observation>, families: seq<Family>, x: int)
    ensures multiset(Anchors(QualityFilter(xs, families)))[x] == Passing(xs, AdmittedBy(families), x)
  {
    if xs != [] {
      QualityAnchors(xs[1..], families, x);
      var rest := QualityFilter(xs[1..], families);
      if NameAdmissible(families, xs[0].family) {
        AnchorsCons(xs[0], rest, x);
      } else {
        assert [] + rest == rest;
      }
    }
  }

  lemma {:induction false} PassingReleases(prices: seq<int>, horizon: nat, name: string, decisions: seq<int>,
                                           admitted: string -> bool, x: int)
    ensures Passing(ReleaseObservations(prices, horizon, name, decisions), admitted, x)
         == if admitted(name) then Hits(prices, horizon, decisions, x) else 0
  {
    if decisions != [] {
      var front := decisions[..|decisions| - 1];
      PassingReleases(prices, horizon, name, front, admitted, x);
      var a := Anchor(prices, horizon, decisions[|decisions| - 1]);
      var xs := ReleaseObservations(prices, horizon, name, front);
      if a.Some? {
        PassingAppend(xs, [Observation(name, a.value)], admitted, x);
      } else {
        assert xs + [] == xs;
      }
    }
  }

  lemma {:induction false} PassingProjected(prices: seq<int>, horizon: nat, families: seq<Family>,
                                            admitted: string -> bool, x: int)
    ensures Passing(Projected(prices, horizon, families), admitted, x)
         == AllHits(prices, horizon, families, admitted, x)
  {
    if families != [] {
      var front, f := families[..|families| - 1], families[|families| - 1];
      PassingProjected(prices, horizon, front, admitted, x);
      PassingReleases(prices, horizon, f.name, f.decisions, admitted, x);
      PassingAppend(Projected(prices, horizon, front), ReleaseObservations(prices, horizon, f.name, f.decisions),
          admitted, x);
    }
  }

  /** The whole waterfall up to thinning adds up the admitted families' shares from 2020 on. */
  lemma UsableAnchors(prices: seq<int>, horizon: nat, families: seq<Family>, x: int)
    ensures multiset(Anchors(Usable(prices, horizon, families)))[x]
         == if x >= 1577836800 then AllHits(prices, horizon, families, AdmittedBy(families), x) else 0
  {
    var projected := Projected(prices, horizon, families);
    var sorted := SortBy(AnchorOf, projected);
    QualityAnchors(sorted, families, x);
    RecentAnchors(QualityFilter(sorted, families), x);
    PassingSort(projected, AdmittedBy(families), x);
    PassingProjected(prices, horizon, families, AdmittedBy(families), x);
  }

  // ----- adding a family

  lemma {:induction false} AllHitsMonotone(prices: seq<int>, horizon: nat, families: seq<Family>,
                                          fewer: string -> bool, more: string -> bool, x: int)
    requires forall f :: f in families && fewer(f.name) ==> more(f.name)
    ensures AllHits(prices, horizon, families, fewer, x) <= AllHits(prices, horizon, families, more, x)
  {
    if families != [] {
      assert families[|families| - 1] in families;
      AllHitsMonotone(prices, horizon, families[..|families| - 1], fewer, more, x);
    }
  }

  lemma NFollowsShares(prices: seq<int>, horizon: nat, fewer: seq<Family>, more: seq<Family>, gap: int)
    requires forall x :: AllHits(prices, horizon, fewer, AdmittedBy(fewer), x) <= AllHits(prices, horizon, more,
               AdmittedBy(more), x)
    ensures N(prices, horizon, fewer, gap) <= N(prices, horizon, more, gap)
  {
    var xs, ys := Anchors(Usable(prices, horizon, fewer)), Anchors(Usable(prices, horizon, more));
    forall x ensures multiset(xs)[x] <= multiset(ys)[x] {
      UsableAnchors(prices, horizon, fewer, x);
      UsableAnchors(prices, horizon, more, x);
    }
    ThinningMonotone(xs, ys, gap);
  }

  predicate Named(families: seq<Family>, name: string) {
    exists i :: 0 <= i < |families| && families[i].name == name
  }

  lemma {:induction false} UnnamedIsNotAdmissible(families: seq<Family>, name: string)
    requires !Named(families, name)
    ensures !NameAdmissible(families, name)
  {
    if families != [] {
      UnnamedIsNotAdmissible(families[..|families| - 1], name);
    }
  }

  /**
   * Adding a family never lowers the count of any target: when its name is new, or when it is itself
   * admissible. The N delta of such a candidate is never negative.
   */
  lemma AddingNeverLowersN(prices: seq<int>, horizon: nat, families: seq<Family>, candidate: Family, gap: int)
    requires !Named(families, candidate.name) || Admissible(candidate)
    ensures N(prices, horizon, families, gap) <= N(prices, horizon, families + [candidate], gap)
  {
    var more := families + [candidate];
    assert more[..|more| - 1] == families;
    if !Named(families, candidate.name) { UnnamedIsNotAdmissible(families, candidate.name); }
    forall x ensures AllHits(prices, horizon, families, AdmittedBy(families), x) <= AllHits(prices, horizon, more,
        AdmittedBy(more), x) {
      AllHitsMonotone(prices, horizon, families, AdmittedBy(families), AdmittedBy(more), x);
    }
    NFollowsShares(prices, horizon, families, more, gap);
  }

  /** The families of any other name. */
  function Excluding(families: seq<Family>, name: string): seq<Family>
  {
    if families == [] then []
    else Excluding(families[..|families| - 1], name) +
         if families[|families| - 1].name == name then [] else [families[|families| - 1]]
  }

  lemma {:induction false} ExcludingAdmits(families: seq<Family>, name: string, other: string)
    ensures NameAdmissible(Excluding(families, name), other) <==> other != name && NameAdmissible(families, other)
  {
    if families != [] {
      var front := families[..|families| - 1];
      ExcludingAdmits(front, name, other);
      var kept := Excluding(families, name);
      if families[|families| - 1].name != name {
        assert kept[..|kept| - 1] == Excluding(front, name);
      } else {
        assert kept == Excluding(front, name);
      }
    }
  }

  lemma {:induction false} ExcludingShares(prices: seq<int>, horizon: nat, families: seq<Family>, name: string,
                                           admitted: string -> bool, all: string -> bool, x: int)
    requires !all(name) && forall f :: f in families && f.name != name ==> (admitted(f.name) <==> all(f.name))
    ensures AllHits(prices, horizon, Excluding(families, name), admitted, x)
         == AllHits(prices, horizon, families, all, x)
  {
    if families != [] {
      var front := families[..|families| - 1];
      assert families[|families| - 1] in families;
      ExcludingShares(prices, horizon, front, name, admitted, all, x);
      var kept := Excluding(families, name);
      if families[|families| - 1].name != name {
        assert kept[..|kept| - 1] == Excluding(front, name);
      } else {
        assert kept == Excluding(front, name);
      }
    }
  }

  /**
   * An inadmissible family under a name already present discards that name's earlier observations: the
   * count becomes the one without that name, so the delta is never positive.
   */
  lemma InadmissibleNamesakeDiscards(prices: seq<int>, horizon: nat, families: seq<Family>, candidate: Family, gap: int)
    requires Named(families, candidate.name) && !Admissible(candidate)
    ensures N(prices, horizon, families + [candidate], gap)
              == N(prices, horizon, Excluding(families, candidate.name), gap)
    ensures N(prices, horizon, families + [candidate], gap) <= N(prices, horizon, families, gap)
  {
    var more, rest := families + [candidate], Excluding(families, candidate.name);
    assert more[..|more| - 1] == families;
    forall x ensures AllHits(prices, horizon, rest, AdmittedBy(rest), x)
        == AllHits(prices, horizon, more, AdmittedBy(more), x) {
      forall f | f in families && f.name != candidate.name
        ensures AdmittedBy(rest)(f.name) <==> AdmittedBy(more)(f.name) {
        ExcludingAdmits(families, candidate.name, f.name);
      }
      ExcludingShares(prices, horizon, families, candidate.name, AdmittedBy(rest), AdmittedBy(more), x);
    }
    NFollowsShares(prices, horizon, rest, more, gap);
    NFollowsShares(prices, horizon, more, rest, gap);
    forall x ensures AllHits(prices, horizon, more, AdmittedBy(more), x) <= AllHits(prices, horizon, families,
        AdmittedBy(families), x) {
      AllHitsMonotone(prices, horizon, families, AdmittedBy(more), AdmittedBy(families), x);
    }
    NFollowsShares(prices, horizon, more, families, gap);
  }

  /** A name whose last family counts releases under other tags only contributes nothing to any target. */
  lemma OtherTagsContributeNothing(prices: seq<int>, horizon: nat, families: seq<Family>, k: nat, gap: int)
    requires k < |families| && forall j :: k < j < |families| ==> families[j].name != families[k].name
    requires Counted(families[k].quality) && forall q :: q in families[k].quality && q.1 > 0 ==> !AdmissibleTag(q.0)
    ensures N(prices, horizon, families, gap) == N(prices, horizon, Excluding(families, families[k].name), gap)
  {
    var name, rest := families[k].name, Excluding(families, families[k].name);
    AdmissibleIff(families[k]);
    LastOfTheName(families, k);
    forall x ensures AllHits(prices, horizon, rest, AdmittedBy(rest), x)
        == AllHits(prices, horizon, families, AdmittedBy(families), x) {
      RefusedNameAddsNothing(prices, horizon, families, name, x);
    }
    NFollowsShares(prices, horizon, rest, families, gap);
    NFollowsShares(prices, horizon, families, rest, gap);
  }

  lemma {:induction false} LastOfTheName(families: seq<Family>, k: nat)
    requires k < |families| && forall j :: k < j < |families| ==> families[j].name != families[k].name
    ensures NameAdmissible(families, families[k].name) == Admissible(families[k])
  {
    if k < |families| - 1 {
      LastOfTheName(families[..|families| - 1], k);
    }
  }

  lemma RefusedNameAddsNothing(prices: seq<int>, horizon: nat, families: seq<Family>, name: string, x: int)
    requires !NameAdmissible(families, name)
    ensures AllHits(prices, horizon, Excluding(families, name), AdmittedBy(Excluding(families, name)), x)
         == AllHits(prices, horizon, families, AdmittedBy(families), x)
  {
    var rest := Excluding(families, name);
    forall f | f in families && f.name != name ensures AdmittedBy(rest)(f.name) <==> AdmittedBy(families)(f.name) {
      ExcludingAdmits(families, name, f.name);
    }
    ExcludingShares(prices, horizon, families, name, AdmittedBy(rest), AdmittedBy(families), x);
  }

  lemma Singleton(xs: seq<int>, x: int)
    requires multiset(xs) == multiset{x}
    ensures xs == [x]
  {
    assert |xs| == |multiset(xs)| == 1;
    assert xs[0] in multiset(xs);
  }

  lemma OneAnchoredRelease(prices: seq<int>, horizon: nat, f: Family, gap: int, a: int)
    requires Admissible(f) && |f.decisions| == 1
    requires Anchor(prices, horizon, f.decisions[0]) == Some(a) && a >= POST_2020_START
    ensures N(prices, horizon, [f], gap) == 1
  {
    assert f.decisions[..0] == [] && [f][..0] == [];
    var xs := Anchors(Usable(prices, horizon, [f]));
    forall x ensures multiset(xs)[x] == multiset{a}[x] {
      UsableAnchors(prices, horizon, [f], x);
      assert AdmittedBy([f])(f.name);
      assert AllHits(prices, horizon, [], AdmittedBy([f]), x) == 0 && Hits(prices, horizon, [], x) == 0;
      assert Hits(prices, horizon, f.decisions, x) == if x == a then 1 else 0;
    }
    assert multiset(xs) == multiset{a};
    SortContents(Identity, xs);
    Singleton(Sorted(xs), a);
    assert Kept([a], None, gap) == [a] + Kept([a][1..], Some(a + gap), gap);
  }

  /** Such a candidate can lower the count: two families of one name, the second without admissible rows. */
  lemma NamesakeCanLowerN(gap: int)
    ensures var first := Family("wpsr", [POST_2020_START], [("true_first_release", 1)]);
            var second := Family("wpsr", [], []);
            var prices := [POST_2020_START, POST_2020_START + DAY];
            N(prices, 1, [first], gap) == 1 && N(prices, 1, [first, second], gap) == 0
  {
    var first := Family("wpsr", [POST_2020_START], [("true_first_release", 1)]);
    var second := Family("wpsr", [], []);
    var prices := [POST_2020_START, POST_2020_START + DAY];
    assert AdmissibleCount(first.quality) == 1 + AdmissibleCount(first.quality[1..]);
    assert SearchSorted(prices, POST_2020_START) == 0;
    OneAnchoredRelease(prices, 1, first, gap, POST_2020_START);
    assert [first][0].name == second.name;
    InadmissibleNamesakeDiscards(prices, 1, [first], second, gap);
    assert [first] + [second] == [first, second];
    assert [first][..0] == [] && Excluding([first], second.name) == [];
    assert Sorted([]) == [];
  }

  // ----- the order of the families

  lemma {:induction false} AllHitsWithout(prices: seq<int>, horizon: nat, families: seq<Family>,
                                         admitted: string -> bool, x: int, j: nat)
    requires j < |families|
    ensures AllHits(prices, horizon, families, admitted, x)
         == AllHits(prices, horizon, families[..j] + families[j + 1..], admitted, x)
            + AllHits(prices, horizon, [families[j]], admitted, x)
  {
    var n := |families| - 1;
    var rest := families[..j] + families[j + 1..];
    assert [families[j]][..0] == [];
    if j == n {
      assert rest == families[..n];
    } else {
      AllHitsWithout(prices, horizon, families[..n], admitted, x, j);
      assert rest[..n - 1] == families[..n][..j] + families[..n][j + 1..];
      assert rest[n - 1] == families[n];
    }
  }

  lemma RemoveSame(fs: seq<Family>, gs: seq<Family>, n: nat, j: nat)
    requires multiset(fs) == multiset(gs) && n < |fs| && j < |gs| && fs[n] == gs[j]
    ensures multiset(fs[..n] + fs[n + 1..]) == multiset(gs[..j] + gs[j + 1..])
  {
    assert fs == fs[..n] + [fs[n]] + fs[n + 1..];
    assert gs == gs[..j] + [gs[j]] + gs[j + 1..];
    assert multiset(fs[..n] + fs[n + 1..]) == multiset(fs) - multiset{fs[n]};
    assert multiset(gs[..j] + gs[j + 1..]) == multiset(gs) - multiset{gs[j]};
  }

  lemma {:induction false} AllHitsPermute(prices: seq<int>, horizon: nat, fs: seq<Family>, gs: seq<Family>,
                                         admitted: string -> bool, x: int)
    requires multiset(fs) == multiset(gs)
    ensures AllHits(prices, horizon, fs, admitted, x) == AllHits(prices, horizon, gs, admitted, x)
    decreases |fs|
  {
    assert |fs| == |multiset(fs)| == |gs|;
    if fs != [] {
      var n := |fs| - 1;
      assert fs[n] in multiset(gs);
      var j :| 0 <= j < |gs| && gs[j] == fs[n];
      RemoveSame(fs, gs, n, j);
      AllHitsWithout(prices, horizon, fs, admitted, x, n);
      AllHitsWithout(prices, horizon, gs, admitted, x, j);
      AllHitsPermute(prices, horizon, fs[..n] + fs[n + 1..], gs[..j] + gs[j + 1..], admitted, x);
    }
  }

  /** Families that share a name agree on whether it is admissible. */
  ghost predicate Consistent(families: seq<Family>) {
    forall f, g :: f in families && g in families && f.name == g.name ==> (Admissible(f) <==> Admissible(g))
  }

  lemma {:induction false} ConsistentNames(families: seq<Family>, name: string)
    requires Consistent(families)
    ensures NameAdmissible(families, name) <==> exists f :: f in families && f.name == name && Admissible(f)
  {
    if families != [] {
      var front, f := families[..|families| - 1], families[|families| - 1];
      assert families == front + [f];
      ConsistentNames(front, name);
      if f.name == name { assert f in families; }
    }
  }

  /** The count does not depend on the order in which consistently named families are listed. */
  lemma FamilyOrderIsIrrelevant(prices: seq<int>, horizon: nat, fs: seq<Family>, gs: seq<Family>, gap: int)
    requires multiset(fs) == multiset(gs) && Consistent(fs)
    ensures N(prices, horizon, fs, gap) == N(prices, horizon, gs, gap)
  {
    forall f ensures f in fs <==> f in gs { assert f in multiset(fs) <==> f in multiset(gs); }
    forall x ensures AllHits(prices, horizon, fs, AdmittedBy(fs), x)
        == AllHits(prices, horizon, gs, AdmittedBy(gs), x) {
      forall f | f in fs ensures AdmittedBy(fs)(f.name) <==> AdmittedBy(gs)(f.name) {
        ConsistentNames(fs, f.name);
        ConsistentNames(gs, f.name);
      }
      AllHitsPermute(prices, horizon, fs, gs, AdmittedBy(fs), x);
      AllHitsMonotone(prices, horizon, gs, AdmittedBy(fs), AdmittedBy(gs), x);
      AllHitsMonotone(prices, horizon, gs, AdmittedBy(gs), AdmittedBy(fs), x);
    }
    NFollowsShares(prices, horizon, fs, gs, gap);
    NFollowsShares(prices, horizon, gs, fs, gap);
  }

  // ----- what an observation measures

  /** return_path, magnitude_path and mae. */
  datatype Outcome = Outcome(ret: real, magnitude: real, mae: real)

  datatype TargetObservation = TargetObservation(plain: Observation, outcome: Outcome)

  function Least(xs: seq<real>): real
    requires xs != []
  {
    if |xs| == 1 then xs[0]
    else
      var m := Least(xs[1..]); if xs[0] < m then xs[0] else m
  }

  function Negated(xs: seq<real>): (ys: seq<real>)
    ensures |ys| == |xs| && forall i :: 0 <= i < |xs| ==> ys[i] == -xs[i]
  {
    seq(|xs|, i requires 0 <= i < |xs| => -xs[i])
  }

  function Greatest(xs: seq<real>): real
    requires xs != []
  {
    -Least(Negated(xs))
  }

  /** The moves from the start over the horizon. */
  function Moves(logs: seq<real>, pos: nat, horizon: nat): (ms: seq<real>)
    requires pos + horizon < |logs|
    ensures |ms| == horizon && forall k :: 0 <= k < horizon ==> ms[k] == logs[pos + 1 + k] - logs[pos]
  {
    seq(horizon, k requires 0 <= k < horizon => logs[pos + 1 + k] - logs[pos])
  }

  function OutcomeFrom(logs: seq<real>, pos: nat, horizon: nat): Outcome
    requires 0 < horizon && pos + horizon < |logs|
  {
    var path, ret := Moves(logs, pos, horizon), logs[pos + horizon] - logs[pos];
    var mae :=
      if ret >= 0.0 then (if Least(path) < 0.0 then Abs(Least(path)) else 0.0)
      else if Greatest(path) > 0.0 then Greatest(path) else 0.0;
    Outcome(ret, Abs(ret), mae)
  }

  lemma {:induction false} LeastIsLeast(xs: seq<real>)
    requires xs != []
    ensures Least(xs) in xs && forall x :: x in xs ==> Least(xs) <= x
  {
    if |xs| > 1 {
      LeastIsLeast(xs[1..]);
      assert forall x :: x in xs <==> x == xs[0] || x in xs[1..];
    }
  }

  lemma GreatestIsGreatest(xs: seq<real>)
    requires xs != []
    ensures Greatest(xs) in xs && forall x :: x in xs ==> x <= Greatest(xs)
  {
    LeastIsLeast(Negated(xs));
    var i :| 0 <= i < |xs| && Negated(xs)[i] == Least(Negated(xs));
    assert xs[i] == Greatest(xs);
    forall x | x in xs ensures x <= Greatest(xs) {
      var j :| 0 <= j < |xs| && xs[j] == x;
      assert Negated(xs)[j] in Negated(xs);
    }
  }

  /** How far the k-th later price lies against the direction of the whole return. */
  function Against(logs: seq<real>, pos: nat, horizon: nat, k: nat): real
    requires pos + horizon < |logs| && k <= horizon
  {
    if logs[pos + horizon] >= logs[pos] then logs[pos] - logs[pos + k] else logs[pos + k] - logs[pos]
  }

  /** The adverse excursion is the largest move against the return, and zero if there is none. */
  lemma OutcomeMeaning(logs: seq<real>, pos: nat, horizon: nat)
    requires 0 < horizon && pos + horizon < |logs|
    ensures var o := OutcomeFrom(logs, pos, horizon);
            && o.ret == logs[pos + horizon] - logs[pos] && o.mae >= 0.0
            && o.magnitude >= 0.0 && (o.magnitude == o.ret || o.magnitude == -o.ret)
            && (forall k :: 1 <= k <= horizon ==> Against(logs, pos, horizon, k) <= o.mae)
            && (o.mae > 0.0 ==> exists k :: 1 <= k <= horizon && Against(logs, pos, horizon, k) == o.mae)
  {
    var path, mae := Moves(logs, pos, horizon), OutcomeFrom(logs, pos, horizon).mae;
    LeastIsLeast(path);
    GreatestIsGreatest(path);
    forall k | 1 <= k <= horizon ensures Against(logs, pos, horizon, k) <= mae {
      assert path[k - 1] in path;
    }
    if mae > 0.0 {
      var worst := if logs[pos + horizon] >= logs[pos] then Least(path) else Greatest(path);
      var i :| 0 <= i < |path| && path[i] == worst;
      assert Against(logs, pos, horizon, i + 1) == mae;
    }
  }

  /** The outcome is measured from the anchor's place in the index. */
  ghost predicate MeasuredAt(prices: seq<int>, logs: seq<real>, horizon: nat, o: TargetObservation) {
    0 < horizon && exists pos :: 0 <= pos && pos + horizon < |prices| == |logs| && prices[pos] == o.plain.anchor
                                 && o.outcome == OutcomeFrom(logs, pos, horizon)
  }

  function TargetAnchor(o: TargetObservation): int { o.plain.anchor }

  function Plain(os: seq<TargetObservation>): (ps: seq<Observation>)
    ensures |ps| == |os| && forall i :: 0 <= i < |os| ==> ps[i] == os[i].plain
  {
    seq(|os|, i requires 0 <= i < |os| => os[i].plain)
  }

  lemma PlainSnoc(os: seq<TargetObservation>, o: TargetObservation)
    ensures Plain(os + [o]) == Plain(os) + [o.plain]
  {
  }

  lemma {:induction false} PlainInsert(os: seq<TargetObservation>, o: TargetObservation)
    ensures Plain(InsertBy(TargetAnchor, os, o)) == InsertBy(AnchorOf, Plain(os), o.plain)
  {
    if os != [] {
      PlainInsert(os[1..], o);
      assert Plain(os)[1..] == Plain(os[1..]);
      assert Plain([os[0]] + InsertBy(TargetAnchor, os[1..], o))
          == [os[0].plain] + Plain(InsertBy(TargetAnchor, os[1..], o));
    }
  }

  /** Sorting carries the outcomes along. */
  lemma {:induction false} PlainSort(os: seq<TargetObservation>)
    ensures Plain(SortBy(TargetAnchor, os)) == SortBy(AnchorOf, Plain(os))
  {
    if os != [] {
      var front, last := os[..|os| - 1], os[|os| - 1];
      PlainSort(front);
      PlainInsert(SortBy(TargetAnchor, front), last);
      assert Plain(os)[..|os| - 1] == Plain(front);
    }
  }

  lemma SortKeeps(os: seq<TargetObservation>)
    ensures forall o :: o in SortBy(TargetAnchor, os) <==> o in os
  {
    SortContents(TargetAnchor, os);
    forall o ensures o in SortBy(TargetAnchor, os) <==> o in os {
      assert o in SortBy(TargetAnchor, os) <==> o in multiset(SortBy(TargetAnchor, os));
      assert o in os <==> o in multiset(os);
    }
  }

  // ----- the code

  /** build_target_observations, given the logarithms of the prices. */
  method BuildTargetObservations(families: seq<Family>, prices: seq<int>, logs: seq<real>,
                                 horizon: int) returns (r: Result<seq<TargetObservation>>)
    requires Index(prices) && |logs| == |prices|
    ensures if horizon <= 0 then r == Raised(ValueError) else r.Ok?
    ensures r.Ok? ==> Plain(r.value) == SortBy(AnchorOf, Projected(prices, horizon, families))
    ensures r.Ok? ==> forall o :: o in r.value ==> MeasuredAt(prices, logs, horizon, o)
  {
    if horizon <= 0 { return Raised(ValueError); }
    var observations: seq<TargetObservation> := [];
    for i := 0 to |families|
      invariant Plain(observations) == Projected(prices, horizon, families[..i])
      invariant forall o :: o in observations ==> MeasuredAt(prices, logs, horizon, o)
    {
      var fam := families[i];
      var ds := fam.decisions;
      for k := 0 to |ds|
        invariant Plain(observations) == Projected(prices, horizon, families[..i])
                  + ReleaseObservations(prices, horizon, fam.name, ds[..k])
        invariant forall o :: o in observations ==> MeasuredAt(prices, logs, horizon, o)
      {
        assert ds[..k + 1][..k] == ds[..k];
        var pos := SearchSorted(prices, ds[k]);
        if pos >= |prices| { continue; }
        var end := pos + horizon;
        if end >= |prices| { continue; }
        var o := TargetObservation(Observation(fam.name, prices[pos]), OutcomeFrom(logs, pos, horizon));
        PlainSnoc(observations, o);
        observations := observations + [o];
      }
      assert ds[..|ds|] == ds && families[..i + 1][..i] == families[..i];
    }
    assert families[..|families|] == families;
    PlainSort(observations);
    SortKeeps(observations);
    r := Ok(SortBy(TargetAnchor, observations));
  }

  /** The dictionary of the first families: a later family of the same name overrides. */
  ghost predicate Flags(admissible: map<string, bool>, families: seq<Family>) {
    forall name :: NameAdmissible(families, name) <==> name in admissible && admissible[name]
  }

  lemma FlagsStep(admissible: map<string, bool>, families: seq<Family>, i: nat)
    requires i < |families| && Flags(admissible, families[..i])
    ensures Flags(admissible[families[i].name := Admissible(families[i])], families[..i + 1])
  {
    assert families[..i + 1][..i] == families[..i];
    var admissible' := admissible[families[i].name := Admissible(families[i])];
    forall name ensures NameAdmissible(families[..i + 1], name) <==> name in admissible' && admissible'[name] {
      assert NameAdmissible(families[..i], name) <==> name in admissible && admissible[name];
    }
  }

  /** apply_quality_filter. */
  method ApplyQualityFilter(observations: seq<Observation>, families: seq<Family>) returns (out: seq<Observation>)
    ensures out == QualityFilter(observations, families)
  {
    var admissible: map<string, bool> := map[];
    for i := 0 to |families|
      invariant Flags(admissible, families[..i])
    {
      FlagsStep(admissible, families, i);
      admissible := admissible[families[i].name := Admissible(families[i])];
    }
    assert families[..|families|] == families;
    out := [];
    for i := 0 to |observations|
      invariant out + QualityFilter(observations[i..], families) == QualityFilter(observations, families)
    {
      var o := observations[i];
      assert observations[i..][1..] == observations[i + 1..];
      if o.family in admissible && admissible[o.family] {
        out := out + [o];
      }
    }
  }

  /** The observation setdefault remembers for the timestamp: the first. */
  function FirstAt(observations: seq<Observation>, ts: int): Option<Observation>
  {
    if observations == [] then None
    else if observations[0].anchor == ts then Some(observations[0])
    else FirstAt(observations[1..], ts)
  }

  function Selected(observations: seq<Observation>, kept: seq<int>): seq<Observation>
  {
    if kept == [] then []
    else
      var o := FirstAt(observations, kept[|kept| - 1]);
      Selected(observations, kept[..|kept| - 1]) + if o.Some? then [o.value] else []
  }

  lemma {:induction false} FirstAtAppend(xs: seq<Observation>, o: Observation, ts: int)
    ensures FirstAt(xs + [o], ts)
         == if FirstAt(xs, ts).Some? then FirstAt(xs, ts) else if o.anchor == ts then Some(o) else None
  {
    if xs == [] {
      assert xs + [o] == [o];
    } else {
      assert (xs + [o])[1..] == xs[1..] + [o];
      FirstAtAppend(xs[1..], o, ts);
    }
  }

  /** _select_kept_observations. */
  method SelectKeptObservations(observations: seq<Observation>, kept: seq<int>) returns (out: seq<Observation>)
    ensures out == Selected(observations, kept)
  {
    var first: map<int, Observation> := map[];
    for i := 0 to |observations|
      invariant forall ts :: FirstAt(observations[..i], ts) == if ts in first then Some(first[ts]) else None
    {
      var o := observations[i];
      assert observations[..i + 1] == observations[..i] + [o];
      forall ts ensures FirstAt(observations[..i + 1], ts)
                     == if FirstAt(observations[..i], ts).Some? then FirstAt(observations[..i], ts)
                        else if o.anchor == ts then Some(o) else None {
        FirstAtAppend(observations[..i], o, ts);
      }
      if o.anchor !in first {
        first := first[o.anchor := o];
      }
    }
    assert observations[..|observations|] == observations;
    out := [];
    for i := 0 to |kept|
      invariant out == Selected(observations, kept[..i])
    {
      assert kept[..i + 1][..i] == kept[..i];
      if kept[i] in first {
        out := out + [first[kept[i]]];
      }
    }
    assert kept[..|kept|] == kept;
  }

  lemma {:induction false} FirstAtExact(observations: seq<Observation>, ts: int)
    ensures FirstAt(observations, ts).Some? <==> ts in Anchors(observations)
    ensures FirstAt(observations, ts).Some? ==>
              FirstAt(observations, ts).value in observations && FirstAt(observations, ts).value.anchor == ts
  {
    if observations != [] { FirstAtExact(observations[1..], ts); }
  }

  lemma {:induction false} FirstAtIsFirst(observations: seq<Observation>, i: nat)
    requires i < |observations| && forall j :: 0 <= j < i ==> observations[j].anchor != observations[i].anchor
    ensures FirstAt(observations, observations[i].anchor) == Some(observations[i])
  {
    if i > 0 { FirstAtIsFirst(observations[1..], i - 1); }
  }

  lemma {:induction false} AnchorsAppend(xs: seq<Observation>, ys: seq<Observation>)
    ensures Anchors(xs + ys) == Anchors(xs) + Anchors(ys)
  {
    if xs == [] {
      assert xs + ys == ys;
    } else {
      assert (xs + ys)[1..] == xs[1..] + ys;
      AnchorsAppend(xs[1..], ys);
    }
  }

  /** One observation per kept timestamp. */
  lemma {:induction false} OneObservationPerAnchor(observations: seq<Observation>, kept: seq<int>)
    requires forall k :: k in kept ==> k in Anchors(observations)
    ensures Anchors(Selected(observations, kept)) == kept
  {
    if kept != [] {
      var front, k := kept[..|kept| - 1], kept[|kept| - 1];
      OneObservationPerAnchor(observations, front);
      assert k in kept;
      FirstAtExact(observations, k);
      AnchorsAppend(Selected(observations, front), [FirstAt(observations, k).value]);
      assert kept == front + [k];
    }
  }

  lemma {:induction false} AnchorsLength(xs: seq<Observation>)
    ensures |Anchors(xs)| == |xs|
    ensures forall i :: 0 <= i < |xs| ==> Anchors(xs)[i] == xs[i].anchor
  {
    if xs != [] { AnchorsLength(xs[1..]); }
  }

  lemma SelectedCount(observations: seq<Observation>, gap: int)
    ensures var kept := Thinned(Anchors(observations), gap);
            Anchors(Selected(observations, kept)) == kept && |Selected(observations, kept)| == |kept|
  {
    var kept := Thinned(Anchors(observations), gap);
    ThinningIsOptimal(Anchors(observations), gap);
    forall k | k in kept ensures k in Anchors(observations) {
      assert k in multiset(kept);
      assert k in multiset(Anchors(observations));
    }
    OneObservationPerAnchor(observations, kept);
    AnchorsLength(Selected(observations, kept));
  }

  datatype TargetCounts = TargetCounts(raw: nat, post2020Raw: nat, afterQuality: nat, afterPurgeEmbargo: nat,
                                       observations: seq<Observation>)

  /** The N waterfall of compute_target_result. */
  method ComputeTargetResult(families: seq<Family>, prices: seq<int>, logs: seq<real>, horizon: int, purge: int,
                             embargo: int)
    returns (r: Result<TargetCounts>)
    requires Index(prices) && |logs| == |prices|
    ensures if horizon <= 0 then r == Raised(ValueError) else r.Ok?
    ensures r.Ok? ==>
              var raw := SortBy(AnchorOf, Projected(prices, horizon, families));
              && r.value.raw == |raw| && r.value.post2020Raw == |Post2020(raw)|
              && r.value.afterQuality == |QualityFilter(raw, families)|
              && r.value.afterPurgeEmbargo == |r.value.observations|
                  == N(prices, horizon, families, Gap(purge, embargo))
              && Anchors(r.value.observations)
                  == Thinned(Anchors(Usable(prices, horizon, families)), Gap(purge, embargo))
              && forall o :: o in r.value.observations ==>
                  FirstAt(Usable(prices, horizon, families), o.anchor) == Some(o)
  {
    var built := BuildTargetObservations(families, prices, logs, horizon);
    if built.Raised? { return Raised(built.error); }
    var raw := Plain(built.value);
    var filtered := ApplyQualityFilter(raw, families);
    var post := Post2020(filtered);
    var kept := KeptDecisionTs(Anchors(post), purge, embargo);
    var selected := SelectKeptObservations(post, kept);
    SelectedCount(post, Gap(purge, embargo));
    SelectedAreFirst(post, kept);
    r := Ok(TargetCounts(|raw|, |Post2020(raw)|, |filtered|, |selected|, selected));
  }

  lemma {:induction false} SelectedAreFirst(observations: seq<Observation>, kept: seq<int>)
    ensures forall o :: o in Selected(observations, kept) ==> FirstAt(observations, o.anchor) == Some(o)
  {
    if kept != [] {
      SelectedAreFirst(observations, kept[..|kept| - 1]);
      FirstAtExact(observations, kept[|kept| - 1]);
    }
  }
}
