/** When the order of the families matters (feasibility/tractability_v1.py:703-780). */
module FamilyOrder {
  import opened Contracts
  import opened Tractability
  import opened AdditiveN

  /** Some family of the name is admissible, and some is not: the last listed decides. */
  ghost predicate Mixed(families: seq<Family>, name: string) {
    && (exists f :: f in families && f.name == name && Admissible(f))
    && exists f :: f in families && f.name == name && !Admissible(f)
  }

  /** Every family of the name is admissible, and there is one. */
  ghost predicate Always(families: seq<Family>, name: string) {
    Named(families, name) && forall f :: f in families && f.name == name ==> Admissible(f)
  }

  ghost predicate OtherAlwaysRelease(families: seq<Family>, name: string, o: int) {
    exists g :: g in families && g.name != name && Always(families, g.name) && o in g.decisions
  }

  /** A mixed name has a release that no other, always admissible name covers. */
  ghost predicate OrderMatters(families: seq<Family>) {
    exists name, t :: Mixed(families, name) && HasRelease(families, name, t)
                      && forall o :: t <= o <= Later(t) ==> !OtherAlwaysRelease(families, name, o)
  }

  ghost predicate SameFamilies(fs: seq<Family>, gs: seq<Family>) {
    forall f :: f in fs <==> f in gs
  }

  lemma PermutedFamilies(fs: seq<Family>, gs: seq<Family>)
    requires multiset(fs) == multiset(gs)
    ensures SameFamilies(fs, gs)
  {
    forall f ensures f in fs <==> f in gs { assert f in multiset(fs) <==> f in multiset(gs); }
  }

  lemma {:induction false} NamedIff(families: seq<Family>, name: string)
    ensures Named(families, name) <==> exists f :: f in families && f.name == name
  {
  }

  /** An admissible name has an admissible family, and a name with admissible families only is admissible. */
  lemma {:induction false} NameAdmissibleFrom(families: seq<Family>, name: string)
    ensures NameAdmissible(families, name) ==> exists f :: f in families && f.name == name && Admissible(f)
    ensures Always(families, name) ==> NameAdmissible(families, name)
  {
    if families != [] {
      var front, last := families[..|families| - 1], families[|families| - 1];
      assert families == front + [last];
      NameAdmissibleFrom(front, name);
      NamedIff(families, name);
      NamedIff(front, name);
      assert last in families;
    }
  }

  // ----- nothing uncovered: every order keeps the same anchors

  lemma AlwaysEither(fs: seq<Family>, gs: seq<Family>, name: string)
    requires SameFamilies(fs, gs)
    ensures Always(fs, name) <==> Always(gs, name)
    ensures Mixed(fs, name) <==> Mixed(gs, name)
  {
    NamedIff(fs, name);
    NamedIff(gs, name);
  }

  lemma OrderKeepsAnchor(prices: seq<int>, horizon: nat, fs: seq<Family>, gs: seq<Family>, x: int)
    requires Index(prices) && SameFamilies(fs, gs) && !OrderMatters(fs) && x in UsableAt(prices, horizon, fs)
    ensures x in UsableAt(prices, horizon, gs)
  {
    UsableMember(prices, horizon, fs, x);
    UsableMember(prices, horizon, gs, x);
    var f :| f in fs && NameAdmissible(fs, f.name) && AnchorsSome(prices, horizon, f, x);
    NameAdmissibleFrom(fs, f.name);
    NameAdmissibleFrom(gs, f.name);
    AlwaysEither(fs, gs, f.name);
    NamedIff(fs, f.name);
    if !Always(fs, f.name) {
      var t :| t in f.decisions && Anchor(prices, horizon, t) == Some(x);
      assert Mixed(fs, f.name) && HasRelease(fs, f.name, t);
      var o :| t <= o <= Later(t) && OtherAlwaysRelease(fs, f.name, o);
      var g :| g in fs && g.name != f.name && Always(fs, g.name) && o in g.decisions;
      CoveredAnchor(prices, horizon, t, o, x);
      AlwaysEither(fs, gs, g.name);
      NameAdmissibleFrom(gs, g.name);
      assert AnchorsSome(prices, horizon, g, x) && g in gs;
    }
  }

  lemma OrderKeepsN(prices: seq<int>, horizon: nat, fs: seq<Family>, gs: seq<Family>, gap: int)
    requires Index(prices) && gap >= 0 && SameFamilies(fs, gs) && !OrderMatters(fs)
    ensures N(prices, horizon, fs, gap) <= N(prices, horizon, gs, gap)
  {
    forall x | x in UsableAt(prices, horizon, fs) ensures x in UsableAt(prices, horizon, gs) {
      OrderKeepsAnchor(prices, horizon, fs, gs, x);
    }
    ThinningBySet(UsableAt(prices, horizon, fs), UsableAt(prices, horizon, gs), gap);
  }

  lemma SameOrderMatters(fs: seq<Family>, gs: seq<Family>)
    requires SameFamilies(fs, gs) && OrderMatters(gs)
    ensures OrderMatters(fs)
  {
    var name, t :| Mixed(gs, name) && HasRelease(gs, name, t)
                   && forall o :: t <= o <= Later(t) ==> !OtherAlwaysRelease(gs, name, o);
    AlwaysEither(fs, gs, name);
    assert HasRelease(fs, name, t);
    forall o | t <= o <= Later(t) ensures !OtherAlwaysRelease(fs, name, o) {
      SameCover(fs, gs, name, o);
    }
  }

  lemma SameCover(fs: seq<Family>, gs: seq<Family>, name: string, o: int)
    requires SameFamilies(fs, gs)
    ensures OtherAlwaysRelease(fs, name, o) ==> OtherAlwaysRelease(gs, name, o)
  {
    if OtherAlwaysRelease(fs, name, o) {
      var g :| g in fs && g.name != name && Always(fs, g.name) && o in g.decisions;
      AlwaysEither(fs, gs, g.name);
    }
  }

  // ----- the best and the worst order

  function Admitted(families: seq<Family>): seq<Family>
  {
    if families == [] then []
    else (if Admissible(families[0]) then [families[0]] else []) + Admitted(families[1..])
  }

  function Refused(families: seq<Family>): seq<Family>
  {
    if families == [] then []
    else (if Admissible(families[0]) then [] else [families[0]]) + Refused(families[1..])
  }

  lemma {:induction false} Separation(families: seq<Family>)
    ensures multiset(Admitted(families)) + multiset(Refused(families)) == multiset(families)
    ensures forall f :: f in Admitted(families) <==> f in families && Admissible(f)
    ensures forall f :: f in Refused(families) <==> f in families && !Admissible(f)
  {
    if families != [] {
      Separation(families[1..]);
      assert families == [families[0]] + families[1..];
    }
  }

  lemma {:induction false} LastDecides(front: seq<Family>, back: seq<Family>, name: string, verdict: bool)
    requires forall f :: f in back ==> Admissible(f) == verdict
    ensures NameAdmissible(front + back, name) ==
            if exists f :: f in back && f.name == name then verdict else NameAdmissible(front, name)
  {
    if back == [] {
      assert front + back == front;
    } else {
      var shorter, last := back[..|back| - 1], back[|back| - 1];
      LastDecides(front, shorter, name, verdict);
      assert (front + back)[..|front + back| - 1] == front + shorter;
      assert forall f :: f in back <==> f in shorter || f == last;
    }
  }

  function Best(families: seq<Family>): seq<Family> { Refused(families) + Admitted(families) }

  function Worst(families: seq<Family>): seq<Family> { Admitted(families) + Refused(families) }

  lemma BestAdmits(families: seq<Family>, name: string)
    ensures multiset(Best(families)) == multiset(families)
    ensures NameAdmissible(Best(families), name) <==> exists f :: f in families && f.name == name && Admissible(f)
  {
    Separation(families);
    LastDecides(Refused(families), Admitted(families), name, true);
    LastDecides([], Refused(families), name, false);
    assert [] + Refused(families) == Refused(families);
  }

  lemma WorstAdmits(families: seq<Family>, name: string)
    ensures multiset(Worst(families)) == multiset(families)
    ensures NameAdmissible(Worst(families), name) <==> Always(families, name)
  {
    Separation(families);
    NamedIff(families, name);
    LastDecides(Admitted(families), Refused(families), name, false);
    LastDecides([], Admitted(families), name, true);
    assert [] + Admitted(families) == Admitted(families);
  }

  lemma WorstHasLess(prices: seq<int>, horizon: nat, families: seq<Family>, x: int)
    ensures multiset(UsableAt(prices, horizon, Worst(families)))[x]
         <= multiset(UsableAt(prices, horizon, Best(families)))[x]
  {
    var best, worst := Best(families), Worst(families);
    BestAdmits(families, "");
    WorstAdmits(families, "");
    UsableAnchors(prices, horizon, best, x);
    UsableAnchors(prices, horizon, worst, x);
    AllHitsPermute(prices, horizon, worst, best, AdmittedBy(worst), x);
    forall f | f in best && AdmittedBy(worst)(f.name) ensures AdmittedBy(best)(f.name) {
      WorstAdmits(families, f.name);
      BestAdmits(families, f.name);
      NamedIff(families, f.name);
    }
    AllHitsMonotone(prices, horizon, best, AdmittedBy(worst), AdmittedBy(best), x);
  }

  lemma WorstLosesAnchor(families: seq<Family>, name: string, t: int, x: int)
    requires Mixed(families, name) && forall o :: t <= o <= Later(t) ==> !OtherAlwaysRelease(families, name, o)
    requires x in UsableAt(Witness(t), 1, Worst(families))
    ensures x < Later(t)
  {
    var worst := Worst(families);
    UsableMember(Witness(t), 1, worst, x);
    var g :| g in worst && NameAdmissible(worst, g.name) && AnchorsSome(Witness(t), 1, g, x);
    var o :| o in g.decisions && Anchor(Witness(t), 1, o) == Some(x);
    WorstAdmits(families, g.name);
    PermutedFamilies(worst, families);
    WitnessAnchors(t, o);
    assert g in families && Always(families, g.name) && g.name != name;
    assert t <= o <= Later(t) ==> OtherAlwaysRelease(families, name, o);
  }

  lemma OrdersDiffer(families: seq<Family>, name: string, t: int)
    requires Mixed(families, name) && HasRelease(families, name, t)
    requires forall o :: t <= o <= Later(t) ==> !OtherAlwaysRelease(families, name, o)
    ensures Index(Witness(t)) && N(Witness(t), 1, Worst(families), 0) < N(Witness(t), 1, Best(families), 0)
  {
    var best, worst := UsableAt(Witness(t), 1, Best(families)), UsableAt(Witness(t), 1, Worst(families));
    WitnessAnchors(t, t);
    BestAdmits(families, name);
    PermutedFamilies(Best(families), families);
    var f :| f in families && f.name == name && t in f.decisions;
    assert AnchorsSome(Witness(t), 1, f, Later(t)) && f in Best(families);
    UsableMember(Witness(t), 1, Best(families), Later(t));
    forall x | x in worst ensures x < Later(t) { WorstLosesAnchor(families, name, t, x); }
    forall x ensures multiset(worst)[x] <= multiset(best)[x] { WorstHasLess(Witness(t), 1, families, x); }
    OneMore(worst, best, Later(t));
  }

  /** The counts of the two orders differ. */
  ghost predicate Differs(fs: seq<Family>, gs: seq<Family>, prices: seq<int>, horizon: nat, gap: int) {
    horizon > 0 && gap >= 0 && Index(prices) && N(prices, horizon, fs, gap) != N(prices, horizon, gs, gap)
  }

  /**
   Some other order of the families changes some target's count, for some non-negative gap, exactly when a
   name that is both admissible and inadmissible has a release that no always admissible name covers.
   */
  lemma OrderMattersIff(families: seq<Family>)
    ensures (exists other, prices, horizon: nat, gap ::
               multiset(other) == multiset(families) && Differs(families, other, prices, horizon, gap))
            <==> OrderMatters(families)
  {
    if OrderMatters(families) {
      var name, t :| Mixed(families, name) && HasRelease(families, name, t)
                     && forall o :: t <= o <= Later(t) ==> !OtherAlwaysRelease(families, name, o);
      OrdersDiffer(families, name, t);
      BestAdmits(families, name);
      WorstAdmits(families, name);
      assert Differs(families, Best(families), Witness(t), 1, 0)
          || Differs(families, Worst(families), Witness(t), 1, 0);
    } else {
      forall other, prices, horizon: nat, gap | multiset(other) == multiset(families)
        ensures !Differs(families, other, prices, horizon, gap) {
        if gap >= 0 && Index(prices) { SameCounts(families, other, prices, horizon, gap); }
      }
    }
  }

  lemma SameCounts(families: seq<Family>, other: seq<Family>, prices: seq<int>, horizon: nat, gap: int)
    requires multiset(other) == multiset(families) && !OrderMatters(families) && gap >= 0 && Index(prices)
    ensures N(prices, horizon, families, gap) == N(prices, horizon, other, gap)
  {
    PermutedFamilies(families, other);
    if OrderMatters(other) { SameOrderMatters(families, other); }
    OrderKeepsN(prices, horizon, families, other, gap);
    OrderKeepsN(prices, horizon, other, families, gap);
  }
}
