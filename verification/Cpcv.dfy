/** Combinatorial purged cross-validation (v2/eval/cpcv.py). */
module Cpcv {
  import opened Contracts
  import opened Combinatorics
  import opened Edges

  datatype Params = Params(nBlocks: int, testBlocks: int, horizon: int, embargo: int)

  datatype Split = Split(id: nat, blocks: seq<nat>, train: seq<nat>, test: seq<nat>)

  // ----- block bounds

  type Bounds = seq<(int, int)>

  /** Consecutive non-empty blocks [start, end], both ends included, that cover [0, n). */
  ghost predicate Partition(bounds: Bounds, n: nat) {
    && bounds != [] && bounds[0].0 == 0 && bounds[|bounds| - 1].1 == n - 1
    && (forall t :: 0 <= t < |bounds| ==> 0 <= bounds[t].0 <= bounds[t].1 < n)
    && forall t :: 0 < t < |bounds| ==> bounds[t].0 == bounds[t - 1].1 + 1
  }

  /** chronological_block_bounds. */
  function ChronologicalBlockBounds(n: int, nBlocks: int): Result<Bounds> {
    if nBlocks <= 0 || nBlocks > n then Raised(ValueError)
    else Ok(seq(nBlocks, t requires 0 <= t < nBlocks => (Edge(n, nBlocks, t), Edge(n, nBlocks, t + 1) - 1)))
  }

  /** The blocks partition [0, n) and their sizes are n/m or n/m + 1. */
  lemma BlocksAreEven(n: nat, m: nat)
    requires 0 < m <= n
    ensures var r := ChronologicalBlockBounds(n, m);
            && r.Ok? && |r.value| == m && Partition(r.value, n)
            && forall t :: 0 <= t < m ==> n / m <= r.value[t].1 - r.value[t].0 + 1 <= n / m + 1
  {
    var bounds := ChronologicalBlockBounds(n, m).value;
    AtLeastOne(n, m);
    EdgeEnds(n, m);
    forall t | 0 <= t < m ensures 0 <= bounds[t].0 <= bounds[t].1 < n
        && n / m <= bounds[t].1 - bounds[t].0 + 1 <= n / m + 1 {
      EdgeStep(n, m, t);
      if t + 1 < m { EdgesAscend(n, m, t + 1, m); }
    }
  }

  predicate InBlock(bounds: Bounds, t: nat, i: int)
    requires t < |bounds|
  {
    bounds[t].0 <= i <= bounds[t].1
  }

  lemma {:induction false} BlocksAscend(bounds: Bounds, n: nat, s: nat, t: nat)
    requires Partition(bounds, n) && s < t < |bounds|
    ensures bounds[s].1 < bounds[t].0
  {
    if s < t - 1 { BlocksAscend(bounds, n, s, t - 1); }
  }

  lemma {:induction false} BlockSearch(bounds: Bounds, n: nat, i: nat, hi: nat) returns (t: nat)
    requires Partition(bounds, n) && hi < |bounds| && i <= bounds[hi].1
    ensures t < |bounds| && InBlock(bounds, t, i)
  {
    if bounds[hi].0 <= i {
      t := hi;
    } else {
      t := BlockSearch(bounds, n, i, hi - 1);
    }
  }

  /** Every observation lies in exactly one block. */
  lemma BlockOf(bounds: Bounds, n: nat, i: nat) returns (t: nat)
    requires Partition(bounds, n) && i < n
    ensures t < |bounds| && forall s: nat :: s < |bounds| ==> (InBlock(bounds, s, i) <==> s == t)
  {
    t := BlockSearch(bounds, n, i, |bounds| - 1);
    forall s: nat | s < |bounds| && s != t ensures !InBlock(bounds, s, i) {
      if s < t { BlocksAscend(bounds, n, s, t); } else { BlocksAscend(bounds, n, t, s); }
    }
  }

  // ----- splits

  ghost predicate BlockIds(bounds: Bounds, blocks: seq<nat>) {
    forall k :: 0 <= k < |blocks| ==> blocks[k] < |bounds|
  }

  /** The block is close enough before or after i to keep it out of the training set. */
  predicate Excludes(bounds: Bounds, p: Params, t: nat, i: int)
    requires t < |bounds|
  {
    i + p.horizon >= bounds[t].0 && i <= bounds[t].1 + p.embargo
  }

  ghost predicate Tested(bounds: Bounds, blocks: seq<nat>, i: int)
    requires BlockIds(bounds, blocks)
  {
    exists k :: 0 <= k < |blocks| && InBlock(bounds, blocks[k], i)
  }

  ghost predicate Purged(bounds: Bounds, p: Params, blocks: seq<nat>, i: int)
    requires BlockIds(bounds, blocks)
  {
    exists k :: 0 <= k < |blocks| && Excludes(bounds, p, blocks[k], i)
  }

  ghost predicate Increasing(xs: seq<nat>) {
    forall i, j :: 0 <= i < j < |xs| ==> xs[i] < xs[j]
  }

  /** Test is the chosen blocks; training is everything they do not exclude. */
  ghost predicate IsSplit(n: nat, bounds: Bounds, p: Params, s: Split) {
    && BlockIds(bounds, s.blocks)
    && (forall i: nat :: i in s.test <==> i < n && Tested(bounds, s.blocks, i))
    && (forall i: nat :: i in s.train <==> i < n && !Purged(bounds, p, s.blocks, i))
    && Increasing(s.test) && Increasing(s.train)
  }

  ghost predicate AcceptedParams(n: int, p: Params) {
    0 <= p.testBlocks < p.nBlocks <= n && p.horizon >= 0 && p.embargo >= 0
  }

  function Range(n: nat): seq<nat> {
    seq(n, i => i)
  }

  /** mask[lo : hi + 1] = True. */
  method MarkRange(mask: array<bool>, lo: nat, hi: int)
    requires lo <= hi + 1 <= mask.Length
    modifies mask
    ensures forall i :: 0 <= i < mask.Length ==> mask[i] == (old(mask[i]) || lo <= i <= hi)
  {
    for i := lo to hi + 1
      invariant forall j :: 0 <= j < mask.Length ==> mask[j] == (old(mask[j]) || lo <= j < i)
    {
      mask[i] := true;
    }
  }

  /** all_indices[mask]. */
  method IndicesWhere(mask: seq<bool>) returns (out: seq<nat>)
    ensures forall i: nat :: i in out <==> i < |mask| && mask[i]
    ensures Increasing(out)
  {
    out := [];
    for k := 0 to |mask|
      invariant forall i: nat :: i in out <==> i < k && mask[i]
      invariant Increasing(out)
    {
      if mask[k] {
        ghost var before := out;
        out := out + [k];
        forall i, j | 0 <= i < j < |out| ensures out[i] < out[j] {
          assert out[i] in before;
        }
      }
    }
  }

  lemma PrefixTested(bounds: Bounds, blocks: seq<nat>, c: nat, i: int)
    requires BlockIds(bounds, blocks) && c < |blocks|
    ensures BlockIds(bounds, blocks[..c]) && BlockIds(bounds, blocks[..c + 1])
    ensures Tested(bounds, blocks[..c + 1], i) <==> Tested(bounds, blocks[..c], i) || InBlock(bounds, blocks[c], i)
  {
    var shorter, longer := blocks[..c], blocks[..c + 1];
    assert longer[c] == blocks[c];
    if Tested(bounds, shorter, i) {
      var k :| 0 <= k < |shorter| && InBlock(bounds, shorter[k], i);
      assert InBlock(bounds, longer[k], i);
    }
    if Tested(bounds, longer, i) {
      var k :| 0 <= k < |longer| && InBlock(bounds, longer[k], i);
      assert k < c ==> InBlock(bounds, shorter[k], i);
    }
  }

  lemma PrefixPurged(bounds: Bounds, p: Params, blocks: seq<nat>, c: nat, i: int)
    requires BlockIds(bounds, blocks) && c < |blocks|
    ensures BlockIds(bounds, blocks[..c]) && BlockIds(bounds, blocks[..c + 1])
    ensures Purged(bounds, p, blocks[..c + 1], i) <==>
              Purged(bounds, p, blocks[..c], i) || Excludes(bounds, p, blocks[c], i)
  {
    var shorter, longer := blocks[..c], blocks[..c + 1];
    assert longer[c] == blocks[c];
    if Purged(bounds, p, shorter, i) {
      var k :| 0 <= k < |shorter| && Excludes(bounds, p, shorter[k], i);
      assert Excludes(bounds, p, longer[k], i);
    }
    if Purged(bounds, p, longer, i) {
      var k :| 0 <= k < |longer| && Excludes(bounds, p, longer[k], i);
      assert k < c ==> Excludes(bounds, p, shorter[k], i);
    }
  }

  ghost predicate MasksMean(test: seq<bool>, purge: seq<bool>, bounds: Bounds, p: Params, blocks: seq<nat>) {
    && BlockIds(bounds, blocks) && |test| == |purge|
    && (forall i :: 0 <= i < |test| ==> (test[i] <==> Tested(bounds, blocks, i)))
    && forall i :: 0 <= i < |purge| ==> (purge[i] <==> Purged(bounds, p, blocks, i))
  }

  lemma MaskBlock(test: seq<bool>, purge: seq<bool>, test': seq<bool>, purge': seq<bool>, bounds: Bounds, p: Params,
                  blocks: seq<nat>, c: nat)
    requires BlockIds(bounds, blocks) && c < |blocks|
    requires MasksMean(test, purge, bounds, p, blocks[..c])
    requires |test'| == |test| && |purge'| == |purge|
    requires forall i :: 0 <= i < |test| ==> test'[i] == (test[i] || InBlock(bounds, blocks[c], i))
    requires forall i :: 0 <= i < |purge| ==> purge'[i] == (purge[i] || Excludes(bounds, p, blocks[c], i))
    ensures MasksMean(test', purge', bounds, p, blocks[..c + 1])
  {
    forall i | 0 <= i < |test| ensures test'[i] <==> Tested(bounds, blocks[..c + 1], i) {
      PrefixTested(bounds, blocks, c, i);
    }
    forall i | 0 <= i < |purge| ensures purge'[i] <==> Purged(bounds, p, blocks[..c + 1], i) {
      PrefixPurged(bounds, p, blocks, c, i);
    }
  }

  lemma TestedIsPurged(bounds: Bounds, p: Params, blocks: seq<nat>, i: int)
    requires BlockIds(bounds, blocks) && p.horizon >= 0 && p.embargo >= 0 && Tested(bounds, blocks, i)
    ensures Purged(bounds, p, blocks, i)
  {
    var k :| 0 <= k < |blocks| && InBlock(bounds, blocks[k], i);
    assert Excludes(bounds, p, blocks[k], i);
  }

  /** The masks of one choice of test blocks. */
  method MakeMasks(n: nat, bounds: Bounds, p: Params, blocks: seq<nat>)
    returns (testMask: array<bool>, purgeMask: array<bool>)
    requires Partition(bounds, n) && BlockIds(bounds, blocks) && p.horizon >= 0 && p.embargo >= 0
    ensures fresh(testMask) && fresh(purgeMask) && testMask.Length == purgeMask.Length == n
    ensures MasksMean(testMask[..], purgeMask[..], bounds, p, blocks)
  {
    testMask := new bool[n](_ => false);
    purgeMask := new bool[n](_ => false);
    for c := 0 to |blocks|
      invariant MasksMean(testMask[..], purgeMask[..], bounds, p, blocks[..c])
    {
      var (a, b) := bounds[blocks[c]];
      ghost var test, purge := testMask[..], purgeMask[..];
      MarkRange(testMask, a, b);
      var lo := if a - p.horizon > 0 then a - p.horizon else 0;
      var hi := if b + p.embargo < n - 1 then b + p.embargo else n - 1;
      MarkRange(purgeMask, lo, hi);
      MaskBlock(test, purge, testMask[..], purgeMask[..], bounds, p, blocks, c);
    }
    assert blocks[..|blocks|] == blocks;
  }

  method MakeSplit(n: nat, bounds: Bounds, p: Params, id: nat, blocks: seq<nat>) returns (s: Split)
    requires Partition(bounds, n) && BlockIds(bounds, blocks) && p.horizon >= 0 && p.embargo >= 0
    ensures s.id == id && s.blocks == blocks && IsSplit(n, bounds, p, s)
  {
    var testMask, purgeMask := MakeMasks(n, bounds, p, blocks);
    var trainMask := seq(n, i requires 0 <= i < n reads testMask, purgeMask => !testMask[i] && !purgeMask[i]);
    forall i | 0 <= i < n ensures trainMask[i] <==> !Purged(bounds, p, blocks, i) {
      if testMask[..][i] { TestedIsPurged(bounds, p, blocks, i); }
      assert purgeMask[..][i] == purgeMask[i];
    }
    var train := IndicesWhere(trainMask);
    var test := IndicesWhere(testMask[..]);
    s := Split(id, blocks, train, test);
  }

  lemma ChoicesAreBlocks(m: nat, k: nat, blocks: seq<nat>)
    requires blocks in Combinations(Range(m), k)
    ensures forall i :: 0 <= i < |blocks| ==> blocks[i] < m
  {
    CombinationsMember(Range(m), k, blocks);
    forall i | 0 <= i < |blocks| ensures blocks[i] < m {
      assert blocks[i] in Elements(blocks);
      assert blocks[i] in Elements(Range(m));
    }
  }

  /** The result lists one split per choice of test blocks, in the order of itertools. */
  ghost predicate AllSplits(n: nat, bounds: Bounds, p: Params, splits: seq<Split>)
    requires p.nBlocks >= 0 && p.testBlocks >= 0
  {
    var choices := Combinations(Range(p.nBlocks), p.testBlocks);
    && |splits| == |choices|
    && forall k :: 0 <= k < |choices| ==>
        splits[k].id == k && splits[k].blocks == choices[k] && IsSplit(n, bounds, p, splits[k])
  }

  // ----- no leakage

  /** Some training index's label window meets the test set. */
  ghost predicate Leaks(s: Split, horizon: int) {
    exists i, j :: i in s.train && j in s.test && i <= j <= i + horizon
  }

  /** assert_no_label_leakage. */
  method AssertNoLabelLeakage(s: Split, horizon: int) returns (r: Result<()>)
    ensures r == if Leaks(s, horizon) then Raised(ValueError) else Ok(())
  {
    if s.test == [] || s.train == [] { return Ok(()); }
    var testSet := set j | j in s.test;
    for k := 0 to |s.train|
      invariant forall c, j :: 0 <= c < k && j in s.test ==> !(s.train[c] <= j <= s.train[c] + horizon)
    {
      var i := s.train[k];
      var at := i;
      while at < i + horizon + 1
        invariant at >= i
        invariant forall j :: j in s.test ==> !(i <= j < at)
        decreases i + horizon + 1 - at
      {
        if at in testSet {
          assert i in s.train;
          return Raised(ValueError);
        }
        at := at + 1;
      }
    }
    r := Ok(());
  }

  lemma WindowIsClear(n: nat, bounds: Bounds, p: Params, s: Split, i: nat, j: nat)
    requires IsSplit(n, bounds, p, s) && p.embargo >= 0 && i in s.train && j in s.test
    ensures !(i <= j <= i + p.horizon)
  {
    var k :| 0 <= k < |s.blocks| && InBlock(bounds, s.blocks[k], j);
    assert !Excludes(bounds, p, s.blocks[k], i);
  }

  /** The checker passes on every generated split, for every horizon up to the one purged for. */
  lemma NeverLeaks(n: nat, bounds: Bounds, p: Params, s: Split, horizon: int)
    requires IsSplit(n, bounds, p, s) && p.embargo >= 0 && horizon <= p.horizon
    ensures !Leaks(s, horizon)
  {
    forall i, j | i in s.train && j in s.test ensures !(i <= j <= i + horizon) {
      WindowIsClear(n, bounds, p, s, i, j);
    }
  }

  /** The embargo after every test block holds too, and train and test are disjoint. */
  lemma EmbargoHolds(n: nat, bounds: Bounds, p: Params, s: Split, i: nat)
    requires Partition(bounds, n) && IsSplit(n, bounds, p, s) && p.horizon >= 0 && p.embargo >= 0 && i in s.train
    ensures forall k :: 0 <= k < |s.blocks| ==> !(bounds[s.blocks[k]].1 < i <= bounds[s.blocks[k]].1 + p.embargo)
    ensures i !in s.test
  {
    forall k | 0 <= k < |s.blocks| ensures !(bounds[s.blocks[k]].1 < i <= bounds[s.blocks[k]].1 + p.embargo) {
      assert !Excludes(bounds, p, s.blocks[k], i);
    }
    assert i in s.test ==> Tested(bounds, s.blocks, i);
    if Tested(bounds, s.blocks, i) { TestedIsPurged(bounds, p, s.blocks, i); }
  }

  /** Nothing is purged without a reason: it would leak a label into the test set or sits in an embargo. */
  lemma PurgeIsTight(n: nat, bounds: Bounds, p: Params, s: Split, i: nat)
    requires Partition(bounds, n) && IsSplit(n, bounds, p, s) && i < n && i !in s.train && i !in s.test
    ensures (exists j :: j in s.test && i <= j <= i + p.horizon)
         || exists k :: 0 <= k < |s.blocks| && bounds[s.blocks[k]].1 < i <= bounds[s.blocks[k]].1 + p.embargo
  {
    var k :| 0 <= k < |s.blocks| && Excludes(bounds, p, s.blocks[k], i);
    var a := bounds[s.blocks[k]].0;
    if i < a {
      assert InBlock(bounds, s.blocks[k], a);
      assert a in s.test;
    } else {
      assert !InBlock(bounds, s.blocks[k], i);
    }
  }

  // ----- how often an observation is tested

  function TestedIn(splits: seq<Split>, i: nat): nat
  {
    if splits == [] then 0 else (if i in splits[0].test then 1 else 0) + TestedIn(splits[1..], i)
  }

  lemma {:induction false} TestedCounts(n: nat, bounds: Bounds, p: Params, splits: seq<Split>, choices: seq<seq<nat>>,
                                        i: nat, t: nat)
    requires |splits| == |choices| && i < n && t < |bounds|
    requires forall s: nat :: s < |bounds| ==> (InBlock(bounds, s, i) <==> s == t)
    requires forall k :: 0 <= k < |choices| ==> splits[k].blocks == choices[k] && IsSplit(n, bounds, p, splits[k])
    ensures TestedIn(splits, i) == Containing(choices, t)
  {
    if splits != [] {
      TestedCounts(n, bounds, p, splits[1..], choices[1..], i, t);
      var s := splits[0];
      assert s.blocks == choices[0];
      if t in choices[0] {
        var k :| 0 <= k < |choices[0]| && choices[0][k] == t;
        assert InBlock(bounds, s.blocks[k], i);
      }
      if i in s.test {
        var k :| 0 <= k < |s.blocks| && InBlock(bounds, s.blocks[k], i);
        assert choices[0][k] == t;
      }
    }
  }

  /** Every observation is tested in exactly C(N - 1, k - 1) of the splits on the generator's blocks. */
  lemma EachTestedEquallyOften(n: nat, p: Params, splits: seq<Split>, i: nat)
    requires AcceptedParams(n, p) && AllSplits(n, ChronologicalBlockBounds(n, p.nBlocks).value, p, splits) && i < n
    ensures TestedIn(splits, i) == ChoicesWith(p.nBlocks, p.testBlocks)
  {
    BlocksAreEven(n, p.nBlocks);
    var bounds := ChronologicalBlockBounds(n, p.nBlocks).value;
    var range := Range(p.nBlocks);
    var t := BlockOf(bounds, n, i);
    TestedCounts(n, bounds, p, splits, Combinations(range, p.testBlocks), i, t);
    assert range[t] == t;
    ContainingCount(range, p.testBlocks, t);
  }

  // ----- the generator

  lemma NoneLeaks(n: nat, bounds: Bounds, p: Params, splits: seq<Split>)
    requires p.nBlocks >= 0 && p.testBlocks >= 0 && p.embargo >= 0 && AllSplits(n, bounds, p, splits)
    ensures forall s :: s in splits ==> !Leaks(s, p.horizon)
  {
    forall s | s in splits ensures !Leaks(s, p.horizon) {
      NeverLeaks(n, bounds, p, s, p.horizon);
    }
  }

  /** generate_cpcv_splits. */
  method GenerateCpcvSplits(n: int, p: Params) returns (r: Result<seq<Split>>)
    ensures if AcceptedParams(n, p) then r.Ok? else r == Raised(ValueError)
    ensures r.Ok? ==>
              && |r.value| == Binomial(p.nBlocks, p.testBlocks)
              && AllSplits(n, ChronologicalBlockBounds(n, p.nBlocks).value, p, r.value)
              && (forall s :: s in r.value ==> !Leaks(s, p.horizon))
              && forall i: nat :: i < n ==> TestedIn(r.value, i) == ChoicesWith(p.nBlocks, p.testBlocks)
  {
    if p.testBlocks >= p.nBlocks { return Raised(ValueError); }
    if p.horizon < 0 || p.embargo < 0 { return Raised(ValueError); }
    var checked := ChronologicalBlockBounds(n, p.nBlocks);
    if checked.Raised? { return Raised(checked.error); }
    if p.testBlocks < 0 { return Raised(ValueError); }
    var bounds := checked.value;
    BlocksAreEven(n, p.nBlocks);
    var choices := Combinations(Range(p.nBlocks), p.testBlocks);
    CombinationsCount(Range(p.nBlocks), p.testBlocks);
    var splits: seq<Split> := [];
    for k := 0 to |choices|
      invariant |splits| == k
      invariant forall j :: 0 <= j < k ==>
                  splits[j].id == j && splits[j].blocks == choices[j] && IsSplit(n, bounds, p, splits[j])
    {
      ChoicesAreBlocks(p.nBlocks, p.testBlocks, choices[k]);
      var s := MakeSplit(n, bounds, p, k, choices[k]);
      splits := splits + [s];
    }
    NoneLeaks(n, bounds, p, splits);
    forall i: nat | i < n ensures TestedIn(splits, i) == ChoicesWith(p.nBlocks, p.testBlocks) {
      EachTestedEquallyOften(n, p, splits, i);
    }
    r := Ok(splits);
  }
}
