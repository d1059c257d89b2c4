/** When adding a family can lower a count (feasibility/tractability_v1.py:893-1010). */
module AdditiveN {
  import opened Contracts
  import opened Dicts
  import opened Thinning
  import opened Tractability

  // ----- which anchors a set of families contributes

  /** Some release of the family is anchored to x. */
  ghost predicate AnchorsSome(prices: seq<int>, horizon: nat, f: Family, x: int) {
    exists t :: t in f.decisions && Anchor(prices, horizon, t) == Some(x)
  }

  lemma {:induction false} HitsWitness(prices: seq<int>, horizon: nat, decisions: seq<int>, x: int)
    ensures Hits(prices, horizon, decisions, x) > 0 <==>
            exists t :: t in decisions && Anchor(prices, horizon, t) == Some(x)
  {
    if decisions != [] {
      var front, last := decisions[..|decisions| - 1], decisions[|decisions| - 1];
      HitsWitness(prices, horizon, front, x);
      assert decisions == front + [last];
    }
  }

  lemma {:induction false} AllHitsWitness(prices: seq<int>, horizon: nat, families: seq<Family>,
                                         admitted: string -> bool, x: int)
    ensures AllHits(prices, horizon, families, admitted, x) > 0 <==>
            exists f :: f in families && admitted(f.name) && AnchorsSome(prices, horizon, f, x)
  {
    if families != [] {
      var front, last := families[..|families| - 1], families[|families| - 1];
      AllHitsWitness(prices, horizon, front, admitted, x);
      HitsWitness(prices, horizon, last.decisions, x);
      assert families == front + [last];
      assert Hits(prices, horizon, last.decisions, x) > 0 <==> AnchorsSome(prices, horizon, last, x);
    }
  }

  ghost function UsableAt(prices: seq<int>, horizon: nat, families: seq<Family>): seq<int> {
    Anchors(Usable(prices, horizon, families))
  }

  /** The usable anchors are those from 2020 on of some release of an admissible name. */
  lemma UsableMember(prices: seq<int>, horizon: nat, families: seq<Family>, x: int)
    ensures x in UsableAt(prices, horizon, families) <==>
            x >= POST_2020_START
            && exists f :: f in families && NameAdmissible(families, f.name) && AnchorsSome(prices, horizon, f, x)
  {
    var xs := UsableAt(prices, horizon, families);
    UsableAnchors(prices, horizon, families, x);
    AllHitsWitness(prices, horizon, families, AdmittedBy(families), x);
    assert x in xs <==> multiset(xs)[x] > 0;
    if f :| f in families && NameAdmissible(families, f.name) && AnchorsSome(prices, horizon, f, x) {
      assert AdmittedBy(families)(f.name);
    }
    if f :| f in families && AdmittedBy(families)(f.name) && AnchorsSome(prices, horizon, f, x) {
      assert NameAdmissible(families, f.name);
    }
  }

  /** With a non-negative gap only the set of timestamps matters. */
  lemma ThinningBySet(xs: seq<int>, ys: seq<int>, gap: int)
    requires gap >= 0 && forall x :: x in xs ==> x in ys
    ensures |Thinned(xs, gap)| <= |Thinned(ys, gap)|
  {
    var kept := Thinned(xs, gap);
    ThinningIsOptimal(xs, gap);
    ThinningIsOptimal(ys, gap);
    forall x ensures multiset(kept)[x] <= multiset(ys)[x] {
      OnceAtMost(kept, gap, x);
      if x in kept {
        assert x in multiset(kept) && x in multiset(xs);
        assert x in ys && x in multiset(ys);
      }
    }
  }

  lemma {:induction false} OnceAtMost(xs: seq<int>, gap: int, x: int)
    requires gap >= 0 && Separated(xs, gap)
    ensures multiset(xs)[x] <= 1
  {
    if xs != [] {
      FirstAndRest(xs);
      OnceAtMost(xs[1..], gap, x);
      if x == xs[0] {
        forall j | 0 <= j < |xs[1..]| ensures xs[1..][j] != x { assert xs[j + 1] > xs[0] + gap; }
        assert x !in xs[1..] && x !in multiset(xs[1..]);
      }
    }
  }

  // ----- releases that no other family covers

  function Later(t: int): int {
    if t > POST_2020_START then t else POST_2020_START
  }

  /** A family of another, admissible name has a release at o. */
  ghost predicate OtherRelease(families: seq<Family>, name: string, o: int) {
    exists g :: g in families && g.name != name && NameAdmissible(families, g.name) && o in g.decisions
  }

  /** No other admissible release falls in [t, max(t, start of 2020)]. */
  ghost predicate Uncovered(families: seq<Family>, name: string, t: int) {
    forall o :: t <= o <= Later(t) ==> !OtherRelease(families, name, o)
  }

  ghost predicate HasRelease(families: seq<Family>, name: string, t: int) {
    exists f :: f in families && f.name == name && t in f.decisions
  }

  /** The candidate discards a present, so far admissible name of which some release is uncovered. */
  ghost predicate DiscardsUncovered(families: seq<Family>, candidate: Family) {
    && Named(families, candidate.name) && !Admissible(candidate) && NameAdmissible(families, candidate.name)
    && exists t :: HasRelease(families, candidate.name, t) && Uncovered(families, candidate.name, t)
  }

  lemma AfterCandidate(families: seq<Family>, candidate: Family, name: string)
    ensures NameAdmissible(families + [candidate], name) ==
            if name == candidate.name then Admissible(candidate) else NameAdmissible(families, name)
  {
    var more := families + [candidate];
    assert more[..|more| - 1] == families;
  }

  /** A release at o is anchored wherever one at t is, when o lies in [t, max(t, 2020)] and the anchor counts. */
  lemma CoveredAnchor(prices: seq<int>, horizon: nat, t: int, o: int, a: int)
    requires Index(prices) && t <= o <= Later(t)
    requires Anchor(prices, horizon, t) == Some(a) && a >= POST_2020_START
    ensures Anchor(prices, horizon, o) == Some(a)
  {
    SearchSortedSplits(prices, t);
    SearchSortedSplits(prices, o);
    var p, q := SearchSorted(prices, t), SearchSorted(prices, o);
    assert prices[p] == a && a >= o;
    assert !(prices[p] < o) && q <= p;
    assert p > 0 ==> prices[p - 1] < t;
  }

  // ----- if nothing uncovered is discarded, nothing is lowered

  lemma CoveredKeepsAnchors(prices: seq<int>, horizon: nat, families: seq<Family>, candidate: Family, x: int)
    requires Index(prices) && !DiscardsUncovered(families, candidate)
    requires Named(families, candidate.name) && !Admissible(candidate) && x in UsableAt(prices, horizon, families)
    ensures x in UsableAt(prices, horizon, families + [candidate])
  {
    var more := families + [candidate];
    UsableMember(prices, horizon, families, x);
    UsableMember(prices, horizon, more, x);
    var f :| f in families && NameAdmissible(families, f.name) && AnchorsSome(prices, horizon, f, x);
    if f.name != candidate.name {
      AfterCandidate(families, candidate, f.name);
      assert f in more;
    } else {
      var t :| t in f.decisions && Anchor(prices, horizon, t) == Some(x);
      assert HasRelease(families, candidate.name, t);
      var o :| t <= o <= Later(t) && OtherRelease(families, candidate.name, o);
      var g :| g in families && g.name != candidate.name && NameAdmissible(families, g.name) && o in g.decisions;
      CoveredAnchor(prices, horizon, t, o, x);
      AfterCandidate(families, candidate, g.name);
      assert AnchorsSome(prices, horizon, g, x) && g in more;
    }
  }

  lemma CoveredIsKept(prices: seq<int>, horizon: nat, families: seq<Family>, candidate: Family, gap: int)
    requires Index(prices) && gap >= 0 && !DiscardsUncovered(families, candidate)
    ensures N(prices, horizon, families, gap) <= N(prices, horizon, families + [candidate], gap)
  {
    if !Named(families, candidate.name) || Admissible(candidate) {
      AddingNeverLowersN(prices, horizon, families, candidate, gap);
    } else {
      forall x | x in UsableAt(prices, horizon, families)
        ensures x in UsableAt(prices, horizon, families + [candidate]) {
        CoveredKeepsAnchors(prices, horizon, families, candidate, x);
      }
      ThinningBySet(UsableAt(prices, horizon, families), UsableAt(prices, horizon, families + [candidate]), gap);
    }
  }

  // ----- an uncovered release is lost on some target

  /** A price just before t, one at the first counting time from t on, and one more for the horizon. */
  function Witness(t: int): seq<int> {
    [t - 1, Later(t), Later(t) + 1]
  }

  lemma WitnessAnchors(t: int, o: int)
    ensures Index(Witness(t))
    ensures Anchor(Witness(t), 1, o) ==
            if o <= t - 1 then Some(t - 1) else if o <= Later(t) then Some(Later(t)) else None
  {
    SearchSortedSplits(Witness(t), o);
    var p := SearchSorted(Witness(t), o);
    assert Witness(t)[0] < o <==> 0 < p;
    assert Witness(t)[1] < o <==> 1 < p;
  }

  lemma WitnessDropsTo(families: seq<Family>, candidate: Family, t: int, x: int)
    requires !Admissible(candidate) && Uncovered(families, candidate.name, t)
    requires x in UsableAt(Witness(t), 1, families + [candidate])
    ensures x == t - 1
  {
    var more := families + [candidate];
    UsableMember(Witness(t), 1, more, x);
    var g :| g in more && NameAdmissible(more, g.name) && AnchorsSome(Witness(t), 1, g, x);
    var o :| o in g.decisions && Anchor(Witness(t), 1, o) == Some(x);
    AfterCandidate(families, candidate, g.name);
    WitnessAnchors(t, o);
    assert g.name != candidate.name && g in families;
    assert t <= o <= Later(t) ==> OtherRelease(families, candidate.name, o);
  }

  lemma NothingGained(families: seq<Family>, candidate: Family, prices: seq<int>, horizon: nat, x: int)
    requires Named(families, candidate.name) && !Admissible(candidate)
    ensures multiset(UsableAt(prices, horizon, families + [candidate]))[x]
         <= multiset(UsableAt(prices, horizon, families))[x]
  {
    var more := families + [candidate];
    assert more[..|more| - 1] == families;
    UsableAnchors(prices, horizon, families, x);
    UsableAnchors(prices, horizon, more, x);
    AllHitsMonotone(prices, horizon, families, AdmittedBy(more), AdmittedBy(families), x);
  }

  lemma WithLast(xs: seq<int>, more: seq<int>, m: int)
    requires multiset(xs) <= multiset(more) && m in more && m !in xs
    ensures multiset(xs + [m]) <= multiset(more)
  {
    assert m in multiset(more) && m !in multiset(xs);
    assert multiset(xs + [m]) == multiset(xs) + multiset{m};
  }

  lemma LaterThanAll(xs: seq<int>, m: int)
    requires NonDecreasing(xs) && Separated(xs, 0) && forall x :: x in xs ==> x < m
    ensures NonDecreasing(xs + [m]) && Separated(xs + [m], 0)
  {
    var ys := xs + [m];
    forall i, j | 0 <= i < j < |ys| ensures ys[j] > ys[i] {
      if j == |xs| { assert ys[i] == xs[i] && xs[i] in xs; } else { assert xs[j] > xs[i] + 0; }
    }
  }

  lemma KeptIsGiven(xs: seq<int>, gap: int, x: int)
    requires x in Thinned(xs, gap)
    ensures x in xs
  {
    ThinningIsOptimal(xs, gap);
    assert x in multiset(Thinned(xs, gap)) && x in multiset(xs);
  }

  /** A timestamp later than all others adds one to the greedy count. */
  lemma OneMore(fewer: seq<int>, more: seq<int>, m: int)
    requires multiset(fewer) <= multiset(more) && m in more && forall x :: x in fewer ==> x < m
    ensures |Thinned(fewer, 0)| < |Thinned(more, 0)|
  {
    var kept := Thinned(fewer, 0);
    ThinningIsOptimal(fewer, 0);
    forall x | x in kept ensures x < m {
      KeptIsGiven(fewer, 0, x);
    }
    WithLast(kept, more, m);
    LaterThanAll(kept, m);
    AtMostKept(more, 0, kept + [m]);
  }

  lemma AtMostKept(xs: seq<int>, gap: int, other: seq<int>)
    requires multiset(other) <= multiset(xs) && NonDecreasing(other) && Separated(other, gap)
    ensures |other| <= |Thinned(xs, gap)|
  {
    ThinningIsOptimal(xs, gap);
  }

  lemma UncoveredIsLost(families: seq<Family>, candidate: Family, t: int)
    requires Named(families, candidate.name) && !Admissible(candidate) && NameAdmissible(families, candidate.name)
    requires HasRelease(families, candidate.name, t) && Uncovered(families, candidate.name, t)
    ensures Index(Witness(t)) && N(Witness(t), 1, families + [candidate], 0) < N(Witness(t), 1, families, 0)
  {
    var before, after := UsableAt(Witness(t), 1, families), UsableAt(Witness(t), 1, families + [candidate]);
    WitnessAnchors(t, t);
    var f :| f in families && f.name == candidate.name && t in f.decisions;
    assert AnchorsSome(Witness(t), 1, f, Later(t));
    UsableMember(Witness(t), 1, families, Later(t));
    forall x | x in after ensures x < Later(t) {
      WitnessDropsTo(families, candidate, t, x);
    }
    forall x ensures multiset(after)[x] <= multiset(before)[x] {
      NothingGained(families, candidate, Witness(t), 1, x);
    }
    OneMore(after, before, Later(t));
  }

  /**
   * Exactly when a candidate can lower the count: some target loses if and only if the candidate is
   * inadmissible, bears the name of families that were admissible so far, and one of their releases is
   * not covered by another admissible family.
   */
  lemma LowersIff(families: seq<Family>, candidate: Family)
    ensures (exists prices, horizon: nat, gap :: horizon > 0 && gap >= 0 && Index(prices)
               && N(prices, horizon, families + [candidate], gap) < N(prices, horizon, families, gap))
            <==> DiscardsUncovered(families, candidate)
  {
    if DiscardsUncovered(families, candidate) {
      var t :| HasRelease(families, candidate.name, t) && Uncovered(families, candidate.name, t);
      UncoveredIsLost(families, candidate, t);
    } else {
      forall prices, horizon: nat, gap | gap >= 0 && Index(prices)
        ensures N(prices, horizon, families, gap) <= N(prices, horizon, families + [candidate], gap) {
        CoveredIsKept(prices, horizon, families, candidate, gap);
      }
    }
  }

  // ----- a negative gap, which the thinning of a target does not refuse, keeps every observation

  lemma NegativeGapKeepsAll(xs: seq<int>, gap: int)
    requires gap < 0
    ensures |Thinned(xs, gap)| == |xs|
  {
    SortedNonDecreasing(xs);
    assert |Sorted(xs)| == |multiset(Sorted(xs))| == |multiset(xs)| == |xs|;
    AtMostKept(xs, gap, Sorted(xs));
    ThinningIsOptimal(xs, gap);
    NoLarger(multiset(Thinned(xs, gap)), multiset(xs));
    assert |multiset(Thinned(xs, gap))| == |Thinned(xs, gap)| && |multiset(xs)| == |xs|;
  }

  lemma NoLarger(a: multiset<int>, b: multiset<int>)
    requires a <= b
    ensures |a| <= |b|
    ensures a != b ==> |a| < |b|
  {
    assert b == a + (b - a);
  }

  lemma {:induction false} AllHitsStrict(prices: seq<int>, horizon: nat, families: seq<Family>,
                                        fewer: string -> bool, more: string -> bool, f: Family, x: int)
    requires forall g :: g in families && fewer(g.name) ==> more(g.name)
    requires f in families && more(f.name) && !fewer(f.name) && AnchorsSome(prices, horizon, f, x)
    ensures AllHits(prices, horizon, families, fewer, x) < AllHits(prices, horizon, families, more, x)
  {
    var front, last := families[..|families| - 1], families[|families| - 1];
    assert families == front + [last];
    if f == last {
      AllHitsMonotone(prices, horizon, front, fewer, more, x);
      HitsWitness(prices, horizon, f.decisions, x);
    } else {
      assert last in families;
      AllHitsStrict(prices, horizon, front, fewer, more, f, x);
    }
  }

  lemma ReleaseIsLost(families: seq<Family>, candidate: Family, t: int, gap: int)
    requires Named(families, candidate.name) && !Admissible(candidate) && NameAdmissible(families, candidate.name)
    requires HasRelease(families, candidate.name, t) && gap < 0
    ensures Index(Witness(t)) && N(Witness(t), 1, families + [candidate], gap) < N(Witness(t), 1, families, gap)
  {
    var more, m := families + [candidate], Later(t);
    var before, after := UsableAt(Witness(t), 1, families), UsableAt(Witness(t), 1, more);
    WitnessAnchors(t, t);
    var f :| f in families && f.name == candidate.name && t in f.decisions;
    assert AnchorsSome(Witness(t), 1, f, m);
    forall x ensures multiset(after)[x] <= multiset(before)[x] {
      NothingGained(families, candidate, Witness(t), 1, x);
    }
    UsableAnchors(Witness(t), 1, families, m);
    UsableAnchors(Witness(t), 1, more, m);
    assert more[..|more| - 1] == families;
    AllHitsStrict(Witness(t), 1, families, AdmittedBy(more), AdmittedBy(families), f, m);
    assert multiset(after)[m] < multiset(before)[m];
    NoLarger(multiset(after), multiset(before));
    NegativeGapKeepsAll(before, gap);
    NegativeGapKeepsAll(after, gap);
  }

  lemma SilentNameKept(prices: seq<int>, horizon: nat, families: seq<Family>, candidate: Family, x: int)
    requires !NameAdmissible(families, candidate.name) || forall t :: !HasRelease(families, candidate.name, t)
    ensures AllHits(prices, horizon, families, AdmittedBy(families), x)
         <= AllHits(prices, horizon, families + [candidate], AdmittedBy(families + [candidate]), x)
  {
    var more, all, others := families + [candidate], AdmittedBy(families), AdmittedBy(families + [candidate]);
    assert more[..|more| - 1] == families;
    forall f | f in families && f.name == candidate.name ensures all(candidate.name) ==> f.decisions == [] {
      assert f.decisions != [] ==> HasRelease(families, candidate.name, f.decisions[0]);
    }
    forall f | f in families && f.name != candidate.name && all(f.name) ensures others(f.name) {
      AfterCandidate(families, candidate, f.name);
    }
    SilentNameAddsNothing(prices, horizon, families, all, others, candidate.name, x);
  }

  lemma NoReleaseIsKept(prices: seq<int>, horizon: nat, families: seq<Family>, candidate: Family, gap: int)
    requires !NameAdmissible(families, candidate.name) || forall t :: !HasRelease(families, candidate.name, t)
    ensures N(prices, horizon, families, gap) <= N(prices, horizon, families + [candidate], gap)
  {
    var more := families + [candidate];
    assert more[..|more| - 1] == families;
    if !Named(families, candidate.name) || Admissible(candidate) {
      AddingNeverLowersN(prices, horizon, families, candidate, gap);
    } else {
      forall x ensures AllHits(prices, horizon, families, AdmittedBy(families), x)
                    <= AllHits(prices, horizon, more, AdmittedBy(more), x) {
        SilentNameKept(prices, horizon, families, candidate, x);
      }
      NFollowsShares(prices, horizon, families, more, gap);
    }
  }

  lemma {:induction false} SilentNameAddsNothing(prices: seq<int>, horizon: nat, families: seq<Family>,
                                                 all: string -> bool, others: string -> bool, name: string, x: int)
    requires forall f :: f in families && f.name != name && all(f.name) ==> others(f.name)
    requires forall f :: f in families && f.name == name && all(name) ==> f.decisions == []
    ensures AllHits(prices, horizon, families, all, x) <= AllHits(prices, horizon, families, others, x)
  {
    if families != [] {
      assert families[|families| - 1] in families;
      SilentNameAddsNothing(prices, horizon, families[..|families| - 1], all, others, name, x);
    }
  }

  /** Then any release of the discarded name is enough. */
  lemma LowersWithNegativeGapIff(families: seq<Family>, candidate: Family)
    ensures (exists prices, horizon: nat, gap :: horizon > 0 && gap < 0 && Index(prices)
               && N(prices, horizon, families + [candidate], gap) < N(prices, horizon, families, gap))
            <==> Named(families, candidate.name) && !Admissible(candidate) && NameAdmissible(families, candidate.name)
                 && exists t :: HasRelease(families, candidate.name, t)
  {
    if Named(families, candidate.name) && !Admissible(candidate) && NameAdmissible(families, candidate.name)
       && exists t :: HasRelease(families, candidate.name, t) {
      var t :| HasRelease(families, candidate.name, t);
      ReleaseIsLost(families, candidate, t, -1);
    } else {
      forall prices, horizon: nat, gap | Index(prices)
        ensures N(prices, horizon, families, gap) <= N(prices, horizon, families + [candidate], gap) {
        if !Named(families, candidate.name) || Admissible(candidate) {
          AddingNeverLowersN(prices, horizon, families, candidate, gap);
        } else {
          NoReleaseIsKept(prices, horizon, families, candidate, gap);
        }
      }
    }
  }

  // ----- the contribution of a candidate, target by target

  /** A target: its price index, the logarithms of the prices, and the horizon. */
  datatype Target = Target(name: string, prices: seq<int>, logs: seq<real>, horizon: int)

  datatype CountChange = CountChange(base: nat, withCandidate: nat, delta: int)

  ghost predicate Priced(t: Target) {
    Index(t.prices) && |t.logs| == |t.prices|
  }

  ghost predicate Indexed(targets: seq<Target>) {
    forall t :: t in targets ==> Priced(t)
  }

  predicate Horizons(targets: seq<Target>) {
    forall i :: 0 <= i < |targets| ==> targets[i].horizon > 0
  }

  function ContributionOf(families: seq<Family>, candidate: Family, t: Target, gap: int): CountChange
    requires t.horizon > 0
  {
    var n: int, m: int := N(t.prices, t.horizon, families, gap), N(t.prices, t.horizon, families + [candidate], gap);
    CountChange(n, m, m - n)
  }

  /** compute_additive_n_contribution's dictionary by target name. */
  type Report = Dict<string, CountChange>

  /** The entries for the given targets; a later one of the same name overrides. */
  function Contributions(families: seq<Family>, candidate: Family, targets: seq<Target>, gap: int): Report
    requires Horizons(targets)
  {
    if targets == [] then []
    else
      var t := targets[|targets| - 1];
      var earlier := Contributions(families, candidate, targets[..|targets| - 1], gap);
      Put(earlier, t.name, ContributionOf(families, candidate, t, gap))
  }

  /** n_after_purge_embargo of compute_target_result. */
  method AfterPurgeEmbargo(t: Target, families: seq<Family>, purge: int, embargo: int) returns (r: Result<nat>)
    requires Priced(t)
    ensures r == if t.horizon <= 0 then Raised(ValueError)
                 else Ok(N(t.prices, t.horizon, families, Gap(purge, embargo)))
  {
    var counts := ComputeTargetResult(families, t.prices, t.logs, t.horizon, purge, embargo);
    if counts.Raised? { return Raised(counts.error); }
    r := Ok(counts.value.afterPurgeEmbargo);
  }

  method TargetContribution(t: Target, families: seq<Family>, candidate: Family, purge: int, embargo: int)
    returns (r: Result<CountChange>)
    requires Priced(t)
    ensures r == if t.horizon <= 0 then Raised(ValueError)
                 else Ok(ContributionOf(families, candidate, t, Gap(purge, embargo)))
  {
    var base := AfterPurgeEmbargo(t, families, purge, embargo);
    if base.Raised? { return Raised(base.error); }
    var with_ := AfterPurgeEmbargo(t, families + [candidate], purge, embargo);
    var n: int, m: int := base.value, with_.value;
    r := Ok(CountChange(n, m, m - n));
  }

  lemma ContributionsNext(families: seq<Family>, candidate: Family, targets: seq<Target>, i: nat, gap: int)
    requires i < |targets| && Horizons(targets[..i]) && targets[i].horizon > 0
    ensures Horizons(targets[..i + 1])
    ensures Contributions(families, candidate, targets[..i + 1], gap)
         == Put(Contributions(families, candidate, targets[..i], gap), targets[i].name,
                ContributionOf(families, candidate, targets[i], gap))
  {
    assert targets[..i + 1][..i] == targets[..i];
  }

  /** compute_additive_n_contribution; a target without a positive horizon raises. */
  method AdditiveContribution(families: seq<Family>, candidate: Family, targets: seq<Target>, purge: int, embargo: int)
    returns (r: Result<Report>)
    requires Indexed(targets)
    ensures r == if Horizons(targets) then Ok(Contributions(families, candidate, targets, Gap(purge, embargo)))
                 else Raised(ValueError)
  {
    var out: Report := [];
    ghost var gap := Gap(purge, embargo);
    for i := 0 to |targets|
      invariant Horizons(targets[..i]) && out == Contributions(families, candidate, targets[..i], gap)
    {
      assert targets[i] in targets;
      var c := TargetContribution(targets[i], families, candidate, purge, embargo);
      if c.Raised? { return Raised(c.error); }
      ContributionsNext(families, candidate, targets, i, gap);
      out := Put(out, targets[i].name, c.value);
    }
    assert targets[..|targets|] == targets;
    r := Ok(out);
  }

  /** No later target has the same name. */
  ghost predicate LastOfName(targets: seq<Target>, k: nat)
    requires k < |targets|
  {
    forall j :: k < j < |targets| ==> targets[j].name != targets[k].name
  }

  /** The counts of the target without and with the candidate, and by how much they differ. */
  ghost predicate IsChange(c: CountChange, families: seq<Family>, candidate: Family, t: Target, gap: int)
    requires t.horizon > 0
  {
    && c.base == N(t.prices, t.horizon, families, gap)
    && c.withCandidate == N(t.prices, t.horizon, families + [candidate], gap)
    && c.base + c.delta == c.withCandidate
  }

  lemma {:induction false} LastReported(families: seq<Family>, candidate: Family, targets: seq<Target>, gap: int,
                                        name: string, c: CountChange)
    requires Horizons(targets)
    ensures Unique(Contributions(families, candidate, targets, gap))
    ensures (name, c) in Contributions(families, candidate, targets, gap) <==>
            exists k :: 0 <= k < |targets| && LastOfName(targets, k) && targets[k].name == name
                        && c == ContributionOf(families, candidate, targets[k], gap)
  {
    if targets != [] {
      var n := |targets| - 1;
      var front, t := targets[..n], targets[n];
      var earlier := Contributions(families, candidate, front, gap);
      LastReported(families, candidate, front, gap, name, c);
      PutUnique(earlier, t.name, ContributionOf(families, candidate, t, gap));
      InPut(earlier, t.name, ContributionOf(families, candidate, t, gap), name, c);
      LastOfNameSnoc(targets, name);
    }
  }

  lemma ChangeIs(c: CountChange, families: seq<Family>, candidate: Family, t: Target, gap: int)
    requires t.horizon > 0
    ensures IsChange(c, families, candidate, t, gap) <==> c == ContributionOf(families, candidate, t, gap)
  {
  }

  /** Exactly the last target of each name is reported, under that name. */
  lemma ContributionsExact(families: seq<Family>, candidate: Family, targets: seq<Target>, gap: int,
                           name: string, c: CountChange)
    requires Horizons(targets)
    ensures Unique(Contributions(families, candidate, targets, gap))
    ensures (name, c) in Contributions(families, candidate, targets, gap) <==>
            exists k :: 0 <= k < |targets| && LastOfName(targets, k) && targets[k].name == name
                        && IsChange(c, families, candidate, targets[k], gap)
  {
    LastReported(families, candidate, targets, gap, name, c);
    forall k | 0 <= k < |targets| { ChangeIs(c, families, candidate, targets[k], gap); }
  }

  lemma LastOfNameSnoc(targets: seq<Target>, name: string)
    requires targets != []
    ensures var n := |targets| - 1;
            && LastOfName(targets, n)
            && forall k :: 0 <= k < n ==>
                 (LastOfName(targets, k) <==> LastOfName(targets[..n], k) && targets[k].name != targets[n].name)
  {
    var n := |targets| - 1;
    forall k | 0 <= k < n
      ensures LastOfName(targets, k) <==> LastOfName(targets[..n], k) && targets[k].name != targets[n].name {
      if LastOfName(targets, k) {
        assert forall j :: k < j < n ==> targets[..n][j].name != targets[..n][k].name;
      }
    }
  }

  lemma InPut<V>(d: Dict<string, V>, k: string, v: V, name: string, c: V)
    requires Unique(d)
    ensures (name, c) in Put(d, k, v) <==> if name == k then c == v else (name, c) in d
  {
    PutUnique(d, k, v);
    GetPut(d, k, v, name);
    MemberIsGet(d, name, c);
    MemberIsGet(Put(d, k, v), name, c);
  }

  lemma MemberIsGet<V>(d: Dict<string, V>, name: string, c: V)
    requires Unique(d)
    ensures (name, c) in d <==> Get(d, name) == Some(c)
  {
    GetMember(d, name);
    if (name, c) in d {
      var i :| 0 <= i < |d| && d[i] == (name, c);
      GetUnique(d, i);
    }
  }

  // ----- the guard

  function Negative(d: Report): Report
  {
    if d == [] then [] else (if d[0].1.delta < 0 then [d[0]] else []) + Negative(d[1..])
  }

  lemma {:induction false} NegativeMember(d: Report, e: (string, CountChange))
    ensures e in Negative(d) <==> e in d && e.1.delta < 0
  {
    if d != [] {
      NegativeMember(d[1..], e);
      assert e in d <==> e == d[0] || e in d[1..];
    }
  }

  function Deltas(d: Report): Dict<string, int>
  {
    if d == [] then [] else [(d[0].0, d[0].1.delta)] + Deltas(d[1..])
  }

  lemma {:induction false} DeltasExact(d: Report)
    ensures |Deltas(d)| == |d| && forall i :: 0 <= i < |d| ==> Deltas(d)[i] == (d[i].0, d[i].1.delta)
  {
    if d != [] { DeltasExact(d[1..]); }
  }

  /** A family let through in spite of its negative deltas. */
  datatype Forced = Forced(family: string, deltas: Dict<string, int>)

  /** Rejections name the family, by position, and the target reported in the error. */
  datatype Verdict =
    | Passed(forced: seq<Forced>)
    | NonAdditive(family: nat, target: string, info: CountChange)
    | Unjustified(family: nat)
    | BadHorizon

  /** The check of the i-th family against those before it finds a negative delta. */
  function NegativesAt(families: seq<Family>, i: nat, targets: seq<Target>, gap: int): Report
    requires Horizons(targets) && i < |families|
  {
    Negative(Contributions(families[..i], families[i], targets, gap))
  }

  function AllNegatives(families: seq<Family>, targets: seq<Target>, gap: int): (ds: seq<Report>)
    requires Horizons(targets)
    ensures |ds| == |families| && forall i :: 0 <= i < |families| ==> ds[i] == NegativesAt(families, i, targets, gap)
  {
    seq(|families|, i requires 0 <= i < |families| => NegativesAt(families, i, targets, gap))
  }

  /** The guard from the i-th family on, given the negative deltas of each. */
  function GuardFrom(families: seq<Family>, negatives: seq<Report>, force: seq<string>, justified: bool,
                     i: nat, forced: seq<Forced>): Verdict
    requires |negatives| == |families|
    decreases |families| - i
  {
    if i >= |families| then Passed(forced)
    else if negatives[i] == [] then GuardFrom(families, negatives, force, justified, i + 1, forced)
    else if families[i].name !in force then NonAdditive(i, negatives[i][0].0, negatives[i][0].1)
    else if !justified then Unjustified(i)
    else
      var entry := Forced(families[i].name, Deltas(negatives[i]));
      GuardFrom(families, negatives, force, justified, i + 1, forced + [entry])
  }

  /** The guard of run_tractability_v1, from the second family on. */
  function Guarded(families: seq<Family>, targets: seq<Target>, gap: int, force: seq<string>, justified: bool): Verdict
  {
    if |families| <= 1 then Passed([])
    else if !Horizons(targets) then BadHorizon
    else GuardFrom(families, AllNegatives(families, targets, gap), force, justified, 1, [])
  }

  /** The additive-N guard of run_tractability_v1. */
  method AdditiveGuard(families: seq<Family>, targets: seq<Target>, purge: int, embargo: int,
                       force: seq<string>, justified: bool) returns (v: Verdict)
    requires Indexed(targets)
    ensures v == Guarded(families, targets, Gap(purge, embargo), force, justified)
  {
    var forced: seq<Forced> := [];
    var i := 1;
    ghost var gap := Gap(purge, embargo);
    while i < |families|
      invariant 0 < i && (i > 1 ==> Horizons(targets))
      invariant |families| <= 1 ==> forced == []
      invariant |families| > 1 && Horizons(targets) ==>
                  GuardFrom(families, AllNegatives(families, targets, gap), force, justified, i, forced)
                  == Guarded(families, targets, gap, force, justified)
    {
      var contributions := AdditiveContribution(families[..i], families[i], targets, purge, embargo);
      if contributions.Raised? { return BadHorizon; }
      var negatives := Negative(contributions.value);
      assert negatives == AllNegatives(families, targets, gap)[i];
      if negatives != [] {
        if families[i].name !in force { return NonAdditive(i, negatives[0].0, negatives[0].1); }
        if !justified { return Unjustified(i); }
        forced := forced + [Forced(families[i].name, Deltas(negatives))];
      }
      i := i + 1;
    }
    v := Passed(forced);
  }

  // ----- what the guard can observe

  /** The candidate lowers the count of the target. */
  ghost predicate LowersTarget(families: seq<Family>, candidate: Family, t: Target, gap: int)
    requires t.horizon > 0
  {
    N(t.prices, t.horizon, families + [candidate], gap) < N(t.prices, t.horizon, families, gap)
  }

  /** The i-th family lowers, for those before it, the count of some target that is reported. */
  ghost predicate LowersAt(families: seq<Family>, i: nat, targets: seq<Target>, gap: int)
    requires Horizons(targets) && i < |families|
  {
    exists k :: 0 <= k < |targets| && LastOfName(targets, k)
                && LowersTarget(families[..i], families[i], targets[k], gap)
  }

  /** An entry the check reports: some target of that name is lowered, by just that much. */
  ghost predicate Reported(families: seq<Family>, candidate: Family, targets: seq<Target>, gap: int, name: string,
                           c: CountChange)
    requires Horizons(targets)
  {
    exists k :: 0 <= k < |targets| && LastOfName(targets, k) && targets[k].name == name
                && IsChange(c, families, candidate, targets[k], gap)
  }

  lemma NegativesExact(families: seq<Family>, i: nat, targets: seq<Target>, gap: int, name: string, c: CountChange)
    requires Horizons(targets) && i < |families|
    ensures (name, c) in NegativesAt(families, i, targets, gap) <==>
            c.delta < 0 && Reported(families[..i], families[i], targets, gap, name, c)
  {
    NegativeMember(Contributions(families[..i], families[i], targets, gap), (name, c));
    ContributionsExact(families[..i], families[i], targets, gap, name, c);
  }

  lemma FlaggedIffLowers(families: seq<Family>, i: nat, targets: seq<Target>, gap: int)
    requires Horizons(targets) && i < |families|
    ensures NegativesAt(families, i, targets, gap) != [] <==> LowersAt(families, i, targets, gap)
  {
    var negatives := NegativesAt(families, i, targets, gap);
    if negatives != [] {
      NegativesExact(families, i, targets, gap, negatives[0].0, negatives[0].1);
      assert (negatives[0].0, negatives[0].1) in negatives;
      ReportedLowers(families, i, targets, gap, negatives[0].0, negatives[0].1);
    }
    if LowersAt(families, i, targets, gap) {
      var k :| 0 <= k < |targets| && LastOfName(targets, k)
               && LowersTarget(families[..i], families[i], targets[k], gap);
      var c := ContributionOf(families[..i], families[i], targets[k], gap);
      NegativesExact(families, i, targets, gap, targets[k].name, c);
    }
  }

  lemma ReportedLowers(families: seq<Family>, i: nat, targets: seq<Target>, gap: int, name: string, c: CountChange)
    requires Horizons(targets) && i < |families|
    requires c.delta < 0 && Reported(families[..i], families[i], targets, gap, name, c)
    ensures LowersAt(families, i, targets, gap)
  {
  }

  lemma LoweringDiscards(prices: seq<int>, horizon: nat, families: seq<Family>, candidate: Family, gap: int)
    requires Index(prices) && N(prices, horizon, families + [candidate], gap) < N(prices, horizon, families, gap)
    ensures Named(families, candidate.name) && !Admissible(candidate) && NameAdmissible(families, candidate.name)
    ensures gap >= 0 ==> DiscardsUncovered(families, candidate)
  {
    if !Named(families, candidate.name) || Admissible(candidate) {
      AddingNeverLowersN(prices, horizon, families, candidate, gap);
    } else if !NameAdmissible(families, candidate.name) {
      NoReleaseIsKept(prices, horizon, families, candidate, gap);
    } else if gap >= 0 && !DiscardsUncovered(families, candidate) {
      CoveredIsKept(prices, horizon, families, candidate, gap);
    }
  }

  /** A flagged family discards an admissible name, and with a non-negative gap an uncovered release of it. */
  lemma OnlyDiscardersAreFlagged(families: seq<Family>, i: nat, targets: seq<Target>, gap: int)
    requires Indexed(targets) && Horizons(targets) && i < |families| && LowersAt(families, i, targets, gap)
    ensures var earlier, f := families[..i], families[i];
            Named(earlier, f.name) && !Admissible(f) && NameAdmissible(earlier, f.name)
            && (gap >= 0 ==> DiscardsUncovered(earlier, f))
  {
    var k :| 0 <= k < |targets| && LastOfName(targets, k) && LowersTarget(families[..i], families[i], targets[k], gap);
    assert targets[k] in targets;
    LoweringDiscards(targets[k].prices, targets[k].horizon, families[..i], families[i], gap);
  }

  /** Where the guard stops. */
  function StopsAt(v: Verdict, count: nat): nat {
    match v
    case NonAdditive(i, _, _) => i
    case Unjustified(i) => i
    case _ => count
  }

  /** The rejection is the one the named family calls for. */
  ghost predicate StoppedRightly(families: seq<Family>, negatives: seq<Report>, force: seq<string>,
                                 justified: bool, v: Verdict)
    requires |negatives| == |families|
  {
    match v
    case Passed(_) => true
    case NonAdditive(j, name, info) =>
      j < |families| && families[j].name !in force && negatives[j] != [] && negatives[j][0] == (name, info)
    case Unjustified(j) => j < |families| && families[j].name in force && !justified && negatives[j] != []
    case BadHorizon => false
  }

  lemma {:induction false} GuardStops(families: seq<Family>, negatives: seq<Report>, force: seq<string>,
                                      justified: bool, i: nat, forced: seq<Forced>)
    requires |negatives| == |families| && i <= |families|
    ensures var v := GuardFrom(families, negatives, force, justified, i, forced);
            && i <= StopsAt(v, |families|) <= |families|
            && StoppedRightly(families, negatives, force, justified, v)
            && forall h :: i <= h < StopsAt(v, |families|) && negatives[h] != [] ==>
                 families[h].name in force && justified
    decreases |families| - i
  {
    if i < |families| {
      if negatives[i] == [] {
        GuardStops(families, negatives, force, justified, i + 1, forced);
      } else if families[i].name in force && justified {
        var entry := Forced(families[i].name, Deltas(negatives[i]));
        GuardStops(families, negatives, force, justified, i + 1, forced + [entry]);
      } else {
        assert (negatives[i][0].0, negatives[i][0].1) in negatives[i];
      }
    }
  }

  /**
   * What a verdict means: every family before the one it names either lowers no reported target or was
   * forced and justified, and the named one lowers the reported target by the reported amount.
   */
  lemma GuardMeaning(families: seq<Family>, targets: seq<Target>, gap: int, force: seq<string>, justified: bool)
    requires Horizons(targets)
    ensures var v := Guarded(families, targets, gap, force, justified);
            && StopsAt(v, |families|) <= |families|
            && (forall h :: 1 <= h < StopsAt(v, |families|) && LowersAt(families, h, targets, gap) ==>
                  families[h].name in force && justified)
            && match v
               case Passed(_) => true
               case NonAdditive(j, name, info) =>
                 && 1 <= j < |families| && families[j].name !in force
                 && info.delta < 0 && Reported(families[..j], families[j], targets, gap, name, info)
               case Unjustified(j) =>
                 1 <= j < |families| && families[j].name in force && !justified && LowersAt(families, j, targets, gap)
               case BadHorizon => false
  {
    if |families| > 1 {
      GuardStops(families, AllNegatives(families, targets, gap), force, justified, 1, []);
      var v := Guarded(families, targets, gap, force, justified);
      forall h | 1 <= h < StopsAt(v, |families|) && LowersAt(families, h, targets, gap)
        ensures families[h].name in force && justified {
        FlaggedIffLowers(families, h, targets, gap);
      }
      match v {
        case NonAdditive(j, name, info) => NegativesExact(families, j, targets, gap, name, info);
        case Unjustified(j) => FlaggedIffLowers(families, j, targets, gap);
        case _ =>
      }
    }
  }

  /** The flagged families from the i-th on, with the deltas that were let through. */
  function Flagged(families: seq<Family>, negatives: seq<Report>, i: nat): seq<Forced>
    requires |negatives| == |families|
    decreases |families| - i
  {
    if i >= |families| then []
    else (if negatives[i] != [] then [Forced(families[i].name, Deltas(negatives[i]))] else [])
         + Flagged(families, negatives, i + 1)
  }

  lemma {:induction false} PassedLists(families: seq<Family>, negatives: seq<Report>, force: seq<string>,
                                       justified: bool, i: nat, forced: seq<Forced>)
    requires |negatives| == |families| && GuardFrom(families, negatives, force, justified, i, forced).Passed?
    ensures GuardFrom(families, negatives, force, justified, i, forced).forced
         == forced + Flagged(families, negatives, i)
    decreases |families| - i
  {
    if i < |families| {
      if negatives[i] == [] {
        PassedLists(families, negatives, force, justified, i + 1, forced);
        assert Flagged(families, negatives, i) == Flagged(families, negatives, i + 1);
      } else {
        var entry := Forced(families[i].name, Deltas(negatives[i]));
        PassedLists(families, negatives, force, justified, i + 1, forced + [entry]);
        var rest := Flagged(families, negatives, i + 1);
        assert Flagged(families, negatives, i) == [entry] + rest;
        assert forced + [entry] + rest == forced + ([entry] + rest);
      }
    }
  }

  /** A guard that passes lists every family that lowers a reported target, in order, with its negative deltas. */
  lemma PassedListsFlagged(families: seq<Family>, targets: seq<Target>, gap: int, force: seq<string>, justified: bool)
    requires Horizons(targets) && Guarded(families, targets, gap, force, justified).Passed?
    ensures Guarded(families, targets, gap, force, justified).forced
         == Flagged(families, AllNegatives(families, targets, gap), 1)
  {
    if |families| > 1 { PassedLists(families, AllNegatives(families, targets, gap), force, justified, 1, []); }
  }

  /** Without a force list the guard passes exactly when no family lowers a reported target. */
  lemma PassesIff(families: seq<Family>, targets: seq<Target>, gap: int, justified: bool)
    requires Horizons(targets)
    ensures Guarded(families, targets, gap, [], justified) == Passed([]) <==>
            forall h :: 1 <= h < |families| ==> !LowersAt(families, h, targets, gap)
  {
    forall h | 0 <= h < |families|
      ensures AllNegatives(families, targets, gap)[h] != [] <==> LowersAt(families, h, targets, gap) {
      FlaggedIffLowers(families, h, targets, gap);
    }
    UnforcedPasses(families, AllNegatives(families, targets, gap), justified, 1);
  }

  lemma {:induction false} UnforcedPasses(families: seq<Family>, negatives: seq<Report>, justified: bool, i: nat)
    requires |negatives| == |families|
    ensures GuardFrom(families, negatives, [], justified, i, []) == Passed([]) <==>
            forall h :: i <= h < |families| ==> negatives[h] == []
    decreases |families| - i
  {
    if i < |families| && negatives[i] == [] {
      UnforcedPasses(families, negatives, justified, i + 1);
    }
  }

  /** Families with distinct names always pass, with nothing forced. */
  lemma DistinctNamesPass(families: seq<Family>, targets: seq<Target>, gap: int, force: seq<string>, justified: bool)
    requires Indexed(targets) && Horizons(targets)
    requires forall h, j :: 0 <= h < j < |families| ==> families[h].name != families[j].name
    ensures Guarded(families, targets, gap, force, justified) == Passed([])
  {
    if |families| > 1 {
      var negatives := AllNegatives(families, targets, gap);
      forall i | 0 <= i < |families| ensures negatives[i] == [] {
        assert !Named(families[..i], families[i].name);
        FlaggedIffLowers(families, i, targets, gap);
        if LowersAt(families, i, targets, gap) { OnlyDiscardersAreFlagged(families, i, targets, gap); }
      }
      NoNegativesPass(families, negatives, force, justified, 1);
    }
  }

  lemma {:induction false} NoNegativesPass(families: seq<Family>, negatives: seq<Report>,
                                           force: seq<string>, justified: bool, i: nat)
    requires |negatives| == |families| && forall h :: 0 <= h < |families| ==> negatives[h] == []
    ensures GuardFrom(families, negatives, force, justified, i, []) == Passed([])
    decreases |families| - i
  {
    if i < |families| {
      NoNegativesPass(families, negatives, force, justified, i + 1);
    }
  }
}
