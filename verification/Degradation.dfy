/** The degradation ladder of target exposures (v2/execution/degradation.py). */
module Degradation {
  import opened Contracts
  import opened Powers
  import opened Sums

  datatype Level = Healthy | SoftAbstain | Aged | HardFail

  datatype Exposure = Exposure(level: Level, target: real, lastValid: real, ticks: int)

  /** b is None iff the family abstained. */
  datatype Tick = Tick(b: Option<real>, ttlBreached: bool, halting: bool)

  const SNAP := 0.000000000001

  /** What the constructors of ExposureState and TickEvent insist on. */
  predicate ValidExposure(s: Exposure) {
    -1.0 <= s.target <= 1.0 && -1.0 <= s.lastValid <= 1.0 && s.ticks >= 0
  }

  predicate ValidTick(e: Tick) {
    e.b.Some? ==> -1.0 <= e.b.value <= 1.0
  }

  function NewExposure(level: Level, target: real, lastValid: real, ticks: int): Result<Exposure> {
    var s := Exposure(level, target, lastValid, ticks);
    if ValidExposure(s) then Ok(s) else Raised(ValueError)
  }

  function Snapped(x: real): real {
    if Abs(x) < SNAP then 0.0 else x
  }

  /** One decay towards zero, cut off below the threshold. */
  function Decayed(x: real, rate: real): real {
    Snapped(x * (1.0 - rate))
  }

  function Decay(rate: real): real -> real {
    (x: real) => Decayed(x, rate)
  }

  /** step. */
  function Step(s: Exposure, e: Tick, nSoft: int, rate: real): Result<Exposure> {
    if nSoft < 0 then Raised(ValueError)
    else if !(0.0 <= rate <= 1.0) then Raised(ValueError)
    else if e.halting then NewExposure(HardFail, 0.0, s.lastValid, s.ticks + 1)
    else if e.b.Some? then NewExposure(Healthy, e.b.value, e.b.value, 0)
    else if e.ttlBreached then NewExposure(HardFail, 0.0, s.lastValid, s.ticks + 1)
    else if s.ticks + 1 <= nSoft then NewExposure(SoftAbstain, s.lastValid, s.lastValid, s.ticks + 1)
    else NewExposure(Aged, Decay(rate)(s.target), s.lastValid, s.ticks + 1)
  }

  predicate Config(nSoft: int, rate: real) {
    nSoft >= 0 && 0.0 <= rate <= 1.0
  }

  /** The tick leads to HEALTHY. */
  predicate IsFresh(e: Tick) {
    !e.halting && e.b.Some?
  }

  /** The ladder over any decay function: the state reached when nothing raises. */
  function Next(s: Exposure, e: Tick, nSoft: int, decay: real -> real): Exposure {
    if IsFresh(e) then Exposure(Healthy, e.b.value, e.b.value, 0)
    else if e.halting || e.ttlBreached then Exposure(HardFail, 0.0, s.lastValid, s.ticks + 1)
    else if s.ticks < nSoft then Exposure(SoftAbstain, s.lastValid, s.lastValid, s.ticks + 1)
    else Exposure(Aged, decay(s.target), s.lastValid, s.ticks + 1)
  }

  /** A decay multiplies by 1 - rate; what is closer to zero than 1e-12 becomes zero. */
  lemma DecayMeaning(x: real, rate: real, y: real)
    requires y == x * (1.0 - rate)
    ensures Decay(rate)(x) == if -0.000000000001 < y < 0.000000000001 then 0.0 else y
  {
    assert Decay(rate)(x) == Snapped(y);
  }

  lemma DecayShrinks(x: real, rate: real)
    requires 0.0 <= rate <= 1.0
    ensures Abs(Decay(rate)(x)) <= Abs(x) * (1.0 - rate) <= Abs(x)
  {
    AbsProduct(x, 1.0 - rate);
    Monotone(1.0 - rate, 1.0, Abs(x));
    assert Abs(x) * (1.0 - rate) == (1.0 - rate) * Abs(x);
  }

  /** With valid arguments a tick never raises, and the new state is valid again. */
  lemma StepIsNext(s: Exposure, e: Tick, nSoft: int, rate: real)
    requires ValidExposure(s) && ValidTick(e)
    ensures Step(s, e, nSoft, rate) ==
            if Config(nSoft, rate) then Ok(Next(s, e, nSoft, Decay(rate))) else Raised(ValueError)
    ensures Config(nSoft, rate) ==> ValidExposure(Next(s, e, nSoft, Decay(rate)))
  {
    if Config(nSoft, rate) { DecayShrinks(s.target, rate); }
  }

  /** The state after a run of ticks. */
  function Run(s: Exposure, es: seq<Tick>, nSoft: int, decay: real -> real): Exposure {
    if es == [] then s else Next(Run(s, es[..|es| - 1], nSoft, decay), es[|es| - 1], nSoft, decay)
  }

  predicate ValidTicks(es: seq<Tick>) {
    forall i :: 0 <= i < |es| ==> ValidTick(es[i])
  }

  /** Repeated calls of step, stopping at the first exception. */
  function Steps(s: Exposure, es: seq<Tick>, nSoft: int, rate: real): Result<Exposure>
  {
    if es == [] then Ok(s)
    else
      var before := Steps(s, es[..|es| - 1], nSoft, rate);
      if before.Raised? then before else Step(before.value, es[|es| - 1], nSoft, rate)
  }

  /** No run of valid ticks raises: it is the ladder's run, and every state of it is valid. */
  lemma {:induction false} StepsAreRuns(s: Exposure, es: seq<Tick>, nSoft: int, rate: real)
    requires ValidExposure(s) && ValidTicks(es) && Config(nSoft, rate)
    ensures Steps(s, es, nSoft, rate) == Ok(Run(s, es, nSoft, Decay(rate)))
    ensures ValidExposure(Run(s, es, nSoft, Decay(rate)))
  {
    if es != [] {
      StepsAreRuns(s, es[..|es| - 1], nSoft, rate);
      StepIsNext(Run(s, es[..|es| - 1], nSoft, Decay(rate)), es[|es| - 1], nSoft, rate);
    }
  }

  lemma {:induction false} RunAppend(s: Exposure, xs: seq<Tick>, ys: seq<Tick>, nSoft: int, decay: real -> real)
    ensures Run(s, xs + ys, nSoft, decay) == Run(Run(s, xs, nSoft, decay), ys, nSoft, decay)
  {
    if ys == [] {
      assert xs + ys == xs;
    } else {
      RunAppend(s, xs, ys[..|ys| - 1], nSoft, decay);
      assert (xs + ys)[..|xs + ys| - 1] == xs + ys[..|ys| - 1];
    }
  }

  ghost predicate Shrinking(decay: real -> real) {
    forall x :: Abs(decay(x)) <= Abs(x)
  }

  lemma DecayIsShrinking(rate: real)
    requires 0.0 <= rate <= 1.0
    ensures Shrinking(Decay(rate))
  {
    forall x ensures Abs(Decay(rate)(x)) <= Abs(x) { DecayShrinks(x, rate); }
  }

  /** |target| <= |last valid target| is kept over every run, whatever the ticks. */
  lemma {:induction false} BoundIsKept(s: Exposure, es: seq<Tick>, nSoft: int, decay: real -> real)
    requires Abs(s.target) <= Abs(s.lastValid) && Shrinking(decay)
    ensures var r := Run(s, es, nSoft, decay); Abs(r.target) <= Abs(r.lastValid)
  {
    if es != [] {
      BoundIsKept(s, es[..|es| - 1], nSoft, decay);
    }
  }

  // ----- without a fresh decision

  predicate AllStale(es: seq<Tick>) {
    forall i :: 0 <= i < |es| ==> !IsFresh(es[i])
  }

  /** Stale ticks count up and leave the last valid target alone. */
  lemma {:induction false} StaleTicksCount(s: Exposure, es: seq<Tick>, nSoft: int, decay: real -> real)
    requires AllStale(es)
    ensures var r := Run(s, es, nSoft, decay); r.ticks == s.ticks + |es| && r.lastValid == s.lastValid
  {
    if es != [] {
      assert !IsFresh(es[|es| - 1]);
      StaleTicksCount(s, es[..|es| - 1], nSoft, decay);
    }
  }

  /**
   * Once the soft window has passed, and until a fresh decision: SOFT_ABSTAIN is unreachable, and each
   * tick leaves the target alone, zero or decayed, never larger.
   */
  lemma AfterTheWindow(s: Exposure, es: seq<Tick>, nSoft: int, decay: real -> real)
    requires AllStale(es) && s.ticks >= nSoft && es != [] && Shrinking(decay)
    ensures var before, r := Run(s, es[..|es| - 1], nSoft, decay), Run(s, es, nSoft, decay);
            && ((r.level == HardFail && r.target == 0.0) || (r.level == Aged && r.target == decay(before.target)))
            && Abs(r.target) <= Abs(before.target)
  {
    assert !IsFresh(es[|es| - 1]);
    StaleTicksCount(s, es[..|es| - 1], nSoft, decay);
  }

  lemma {:induction false} NeverLarger(s: Exposure, es: seq<Tick>, nSoft: int, decay: real -> real)
    requires AllStale(es) && s.ticks >= nSoft && Shrinking(decay)
    ensures Abs(Run(s, es, nSoft, decay).target) <= Abs(s.target)
  {
    if es != [] {
      NeverLarger(s, es[..|es| - 1], nSoft, decay);
      AfterTheWindow(s, es, nSoft, decay);
    }
  }

  // ----- how fast the target decays

  /** g bounds the target tick by tick. */
  ghost predicate Envelope(decay: real -> real, g: nat -> real) {
    forall m: nat, x :: Abs(x) <= g(m) ==> Abs(decay(x)) <= g(m + 1)
  }

  lemma {:induction false} WithinEnvelope(s: Exposure, es: seq<Tick>, nSoft: int, decay: real -> real, g: nat -> real)
    requires AllStale(es) && s.ticks >= nSoft && Shrinking(decay) && Envelope(decay, g) && Abs(s.target) <= g(0)
    ensures Abs(Run(s, es, nSoft, decay).target) <= g(|es|)
  {
    if es != [] {
      var before := Run(s, es[..|es| - 1], nSoft, decay);
      WithinEnvelope(s, es[..|es| - 1], nSoft, decay, g);
      AfterTheWindow(s, es, nSoft, decay);
      assert Abs(decay(before.target)) <= g(|es| - 1 + 1);
    }
  }

  function Geometric(rate: real): nat -> real {
    (m: nat) => Power(1.0 - rate, m)
  }

  lemma GeometricEnvelope(rate: real)
    requires 0.0 <= rate <= 1.0
    ensures Envelope(Decay(rate), Geometric(rate))
  {
    forall m: nat, x | Abs(x) <= Geometric(rate)(m) ensures Abs(Decay(rate)(x)) <= Geometric(rate)(m + 1) {
      DecayShrinks(x, rate);
      Monotone(Abs(x), Power(1.0 - rate, m), 1.0 - rate);
    }
  }

  lemma FortyHalvings()
    ensures PowerOfHalf(40) < SNAP
  {
    assert PowerOfHalf(10) == 1.0 / 1024.0;
    assert PowerOfHalf(20) == PowerOfHalf(10) / 1024.0;
    assert PowerOfHalf(30) == PowerOfHalf(20) / 1024.0;
    assert PowerOfHalf(40) == PowerOfHalf(30) / 1024.0;
  }

  /** A decayed target is zero or at least the threshold. */
  ghost predicate Dustless(decay: real -> real) {
    forall x :: decay(x) == 0.0 || Abs(decay(x)) >= SNAP
  }

  lemma NoDust(s: Exposure, es: seq<Tick>, nSoft: int, decay: real -> real)
    requires AllStale(es) && s.ticks >= nSoft && es != [] && Shrinking(decay) && Dustless(decay)
    ensures var x := Run(s, es, nSoft, decay).target; x == 0.0 || Abs(x) >= SNAP
  {
    AfterTheWindow(s, es, nSoft, decay);
  }

  lemma DecayIsDustless(rate: real)
    ensures Dustless(Decay(rate))
  {
    forall x ensures Decay(rate)(x) == 0.0 || Abs(Decay(rate)(x)) >= SNAP {
      assert Decay(rate)(x) == Decayed(x, rate);
    }
  }

  lemma FlatAtForty(s: Exposure, es: seq<Tick>, nSoft: int, rate: real, c: nat)
    requires Config(nSoft, rate) && Abs(s.target) <= 1.0 && AllStale(es) && s.ticks >= nSoft
    requires Times(c, rate) >= 1.0 && |es| == 40 * c
    ensures Run(s, es, nSoft, Decay(rate)).target == 0.0
  {
    DecayIsShrinking(rate);
    GeometricEnvelope(rate);
    WithinEnvelope(s, es, nSoft, Decay(rate), Geometric(rate));
    PowerHalvesRepeatedly(rate, c, 40);
    assert c * 40 == |es|;
    FortyHalvings();
    assert c > 0;
    DecayIsDustless(rate);
    NoDust(s, es, nSoft, Decay(rate));
  }

  /**
   * Time to flat: with rate > 0 and c >= 1 / rate, the target is exactly zero after 40 c stale ticks
   * past the window, and stays zero until the next fresh decision.
   */
  lemma FlatInTime(s: Exposure, es: seq<Tick>, nSoft: int, rate: real, c: nat)
    requires Config(nSoft, rate) && Abs(s.target) <= 1.0 && AllStale(es) && s.ticks >= nSoft
    requires c as real * rate >= 1.0 && |es| >= 40 * c
    ensures Run(s, es, nSoft, Decay(rate)).target == 0.0
  {
    var xs, ys := es[..40 * c], es[40 * c..];
    TimesIsProduct(c, rate);
    FlatAtForty(s, xs, nSoft, rate, c);
    DecayIsShrinking(rate);
    StaleTicksCount(s, xs, nSoft, Decay(rate));
    NeverLarger(Run(s, xs, nSoft, Decay(rate)), ys, nSoft, Decay(rate));
    RunAppend(s, xs, ys, nSoft, Decay(rate));
    assert xs + ys == es;
  }

  // ----- the closed form of a stale run

  /** A stale tick that forces the target to zero. */
  predicate Stops(e: Tick) {
    e.halting || e.ttlBreached
  }

  predicate AnyStops(es: seq<Tick>) {
    exists i :: 0 <= i < |es| && Stops(es[i])
  }

  function Iterated(decay: real -> real, x: real, k: nat): real {
    if k == 0 then x else decay(Iterated(decay, x, k - 1))
  }

  lemma AnyStopsSnoc(es: seq<Tick>)
    requires es != []
    ensures AnyStops(es) <==> AnyStops(es[..|es| - 1]) || Stops(es[|es| - 1])
  {
    var front := es[..|es| - 1];
    if AnyStops(front) {
      var i :| 0 <= i < |front| && Stops(front[i]);
      assert Stops(es[i]);
    }
    if AnyStops(es) && !Stops(es[|es| - 1]) {
      var i :| 0 <= i < |es| && Stops(es[i]);
      assert Stops(front[i]);
    }
  }

  lemma {:induction false} PastWindowIterates(s: Exposure, es: seq<Tick>, nSoft: int, decay: real -> real)
    requires AllStale(es) && s.ticks >= nSoft && decay(0.0) == 0.0
    ensures Run(s, es, nSoft, decay).target == if AnyStops(es) then 0.0 else Iterated(decay, s.target, |es|)
  {
    if es != [] {
      var front := es[..|es| - 1];
      PastWindowIterates(s, front, nSoft, decay);
      StaleTicksCount(s, front, nSoft, decay);
      AnyStopsSnoc(es);
      assert !IsFresh(es[|es| - 1]);
    }
  }

  function DiscountedBy(b: real, rate: real, k: nat): real {
    b * Power(1.0 - rate, k)
  }

  function Discounted(b: real, rate: real): nat -> real {
    (k: nat) => DiscountedBy(b, rate, k)
  }

  lemma DiscountStep(b: real, rate: real, p: real, p': real)
    requires 0.0 <= rate <= 1.0 && p' == p * (1.0 - rate)
    ensures b * p' == (b * p) * (1.0 - rate)
    ensures Abs(b * p') <= Abs(b * p)
  {
    var c, x := 1.0 - rate, b * p;
    assert b * p' == x * c;
    AbsProduct(x, c);
    Monotone(c, 1.0, Abs(x));
    assert Abs(x) * c == c * Abs(x);
  }

  lemma DecaySnapped(x: real, rate: real, y: real, before: real)
    requires y == x * (1.0 - rate) && Abs(y) <= Abs(x) && (before == x || before == Snapped(x))
    ensures Decayed(before, rate) == Snapped(y)
  {
    if before != x {
      assert before == 0.0 && 0.0 * (1.0 - rate) == 0.0;
    }
  }

  lemma DecayOfDiscount(b: real, rate: real, k: nat, x: real)
    requires 0.0 <= rate <= 1.0 && (x == DiscountedBy(b, rate, k) || x == Snapped(DiscountedBy(b, rate, k)))
    ensures Decayed(x, rate) == Snapped(DiscountedBy(b, rate, k + 1))
  {
    DiscountStep(b, rate, Power(1.0 - rate, k), Power(1.0 - rate, k + 1));
    DecaySnapped(DiscountedBy(b, rate, k), rate, DiscountedBy(b, rate, k + 1), x);
  }

  /** Whether or not a value of f was snapped, decaying it gives the next one snapped. */
  ghost predicate Follows(decay: real -> real, f: nat -> real) {
    forall k: nat, x :: x == f(k) || x == Snapped(f(k)) ==> decay(x) == Snapped(f(k + 1))
  }

  lemma DecayFollowsDiscount(b: real, rate: real)
    requires 0.0 <= rate <= 1.0
    ensures Follows(Decay(rate), Discounted(b, rate))
  {
    var f := Discounted(b, rate);
    forall k: nat, x | x == f(k) || x == Snapped(f(k)) ensures Decay(rate)(x) == Snapped(f(k + 1)) {
      assert f(k) == DiscountedBy(b, rate, k) && f(k + 1) == DiscountedBy(b, rate, k + 1);
      DecayOfDiscount(b, rate, k, x);
    }
  }

  /** Snapping along the way gives what snapping once at the end does. */
  lemma {:induction false} IteratedSnaps(decay: real -> real, f: nat -> real, k: nat)
    requires Follows(decay, f) && k > 0
    ensures Iterated(decay, f(0), k) == Snapped(f(k))
  {
    if k == 1 {
      assert Iterated(decay, f(0), 0) == f(0);
      assert decay(f(0)) == Snapped(f(0 + 1));
    } else {
      IteratedSnaps(decay, f, k - 1);
      assert decay(Iterated(decay, f(0), k - 1)) == Snapped(f(k - 1 + 1));
    }
  }

  /**
   * Past the soft window, from any state: the last tick decides the level; the target is zero once any
   * tick halted or breached its TTL, and otherwise its value on entry times (1 - rate)^k, cut to zero
   * below the threshold.
   */
  lemma PastWindowClosedForm(s: Exposure, es: seq<Tick>, nSoft: int, rate: real)
    requires 0.0 <= rate <= 1.0 && AllStale(es) && es != [] && s.ticks >= nSoft
    ensures Run(s, es, nSoft, Decay(rate)) ==
            Exposure(if Stops(es[|es| - 1]) then HardFail else Aged,
                     if AnyStops(es) then 0.0 else Snapped(DiscountedBy(s.target, rate, |es|)),
                     s.lastValid, s.ticks + |es|)
  {
    var decay, f := Decay(rate), Discounted(s.target, rate);
    assert !IsFresh(es[|es| - 1]);
    assert decay(0.0) == Decayed(0.0, rate) == 0.0;
    StaleTicksCount(s, es, nSoft, decay);
    StaleTicksCount(s, es[..|es| - 1], nSoft, decay);
    PastWindowIterates(s, es, nSoft, decay);
    DecayFollowsDiscount(s.target, rate);
    IteratedSnaps(decay, f, |es|);
    assert f(0) == DiscountedBy(s.target, rate, 0) == s.target;
    assert f(|es|) == DiscountedBy(s.target, rate, |es|);
  }

  /** Inside the window the last tick alone decides: zero, or the last valid target. */
  lemma InWindowClosedForm(s: Exposure, es: seq<Tick>, nSoft: int, decay: real -> real)
    requires AllStale(es) && es != [] && s.ticks + |es| <= nSoft
    ensures Run(s, es, nSoft, decay) ==
            if Stops(es[|es| - 1]) then Exposure(HardFail, 0.0, s.lastValid, s.ticks + |es|)
            else Exposure(SoftAbstain, s.lastValid, s.lastValid, s.ticks + |es|)
  {
    assert !IsFresh(es[|es| - 1]);
    StaleTicksCount(s, es[..|es| - 1], nSoft, decay);
  }

  /** How many of the coming stale ticks still fall inside the soft window. */
  function WindowLeft(s: Exposure, nSoft: int): nat {
    if s.ticks < nSoft then nSoft - s.ticks else 0
  }

  /** The target with which a stale run leaves the window. */
  function EntryTarget(s: Exposure, es: seq<Tick>, nSoft: int): real
    requires |es| >= WindowLeft(s, nSoft)
  {
    var w := WindowLeft(s, nSoft);
    if w == 0 then s.target else if Stops(es[w - 1]) then 0.0 else s.lastValid
  }

  /** Every stale run from every state, across the end of the window. */
  lemma StaleRunClosedForm(s: Exposure, es: seq<Tick>, nSoft: int, rate: real)
    requires 0.0 <= rate <= 1.0 && AllStale(es) && es != []
    ensures var w, last := WindowLeft(s, nSoft), es[|es| - 1];
            Run(s, es, nSoft, Decay(rate)) ==
            if |es| <= w then
              if Stops(last) then Exposure(HardFail, 0.0, s.lastValid, s.ticks + |es|)
              else Exposure(SoftAbstain, s.lastValid, s.lastValid, s.ticks + |es|)
            else
              Exposure(if Stops(last) then HardFail else Aged,
                       if AnyStops(es[w..]) then 0.0
                       else Snapped(DiscountedBy(EntryTarget(s, es, nSoft), rate, |es| - w)),
                       s.lastValid, s.ticks + |es|)
  {
    var w := WindowLeft(s, nSoft);
    if |es| <= w {
      InWindowClosedForm(s, es, nSoft, Decay(rate));
    } else {
      var xs, ys := es[..w], es[w..];
      var entry := Run(s, xs, nSoft, Decay(rate));
      StaleTicksCount(s, xs, nSoft, Decay(rate));
      if w > 0 { InWindowClosedForm(s, xs, nSoft, Decay(rate)); }
      assert entry.target == EntryTarget(s, es, nSoft);
      PastWindowClosedForm(entry, ys, nSoft, rate);
      RunAppend(s, xs, ys, nSoft, Decay(rate));
      assert xs + ys == es;
    }
  }

  /**
   * A target that a halt has zeroed is non-zero again after a stale run exactly if the last tick inside
   * the window (of the run, or of the window if the run outlasts it) abstains, nothing stops the run
   * after the window, and the last valid target survives the decay.
   */
  lemma HaltedTargetReturnsIff(s: Exposure, es: seq<Tick>, nSoft: int, rate: real)
    requires 0.0 <= rate <= 1.0 && AllStale(es) && es != [] && s.target == 0.0
    ensures var w := WindowLeft(s, nSoft);
            Run(s, es, nSoft, Decay(rate)).target != 0.0 <==>
            && w > 0 && s.lastValid != 0.0
            && if |es| <= w then !Stops(es[|es| - 1])
               else !Stops(es[w - 1]) && !AnyStops(es[w..]) && Snapped(DiscountedBy(s.lastValid, rate, |es| - w)) != 0.0
  {
    StaleRunClosedForm(s, es, nSoft, rate);
    NothingFromZero(rate, |es|);
    if |es| > WindowLeft(s, nSoft) { NothingFromZero(rate, |es| - WindowLeft(s, nSoft)); }
  }

  lemma NothingFromZero(rate: real, k: nat)
    ensures Snapped(DiscountedBy(0.0, rate, k)) == 0.0
  {
  }

  /** So some stale run brings it back if and only if the window is still open and there is a target to restore. */
  lemma HaltedTargetCanReturnIff(s: Exposure, nSoft: int, rate: real)
    requires 0.0 <= rate <= 1.0 && s.target == 0.0
    ensures (exists es :: AllStale(es) && Run(s, es, nSoft, Decay(rate)).target != 0.0) <==>
            s.ticks < nSoft && s.lastValid != 0.0
  {
    if s.ticks < nSoft && s.lastValid != 0.0 {
      var es := [Tick(None, false, false)];
      HaltedTargetReturnsIff(s, es, nSoft, rate);
      assert AllStale(es) && Run(s, es, nSoft, Decay(rate)).target != 0.0;
    }
    forall es | AllStale(es) && Run(s, es, nSoft, Decay(rate)).target != 0.0
      ensures s.ticks < nSoft && s.lastValid != 0.0
    {
      assert es != [];
      HaltedTargetReturnsIff(s, es, nSoft, rate);
    }
  }

  /** Neither halted nor expired: the family just abstains. */
  predicate AllAbstain(es: seq<Tick>) {
    forall i :: 0 <= i < |es| ==> !Stops(es[i]) && es[i].b.None?
  }

  /** An episode that follows a HEALTHY decision b: b is held in the soft window, then decays geometrically. */
  lemma EpisodeClosedForm(b: real, es: seq<Tick>, nSoft: nat, rate: real)
    requires 0.0 <= rate <= 1.0 && AllAbstain(es) && es != []
    ensures Run(Exposure(Healthy, b, b, 0), es, nSoft, Decay(rate)) ==
            if |es| <= nSoft then Exposure(SoftAbstain, b, b, |es|)
            else Exposure(Aged, Snapped(DiscountedBy(b, rate, |es| - nSoft)), b, |es|)
  {
    StaleRunClosedForm(Exposure(Healthy, b, b, 0), es, nSoft, rate);
  }

  // ----- a decision is all that later ticks remember

  /** The exposure after the stale ticks that follow a decision b: the closed form with entry b. */
  function AfterDecision(b: real, ys: seq<Tick>, nSoft: nat, rate: real): Exposure
  {
    if ys == [] then Exposure(Healthy, b, b, 0)
    else if |ys| <= nSoft then
      if Stops(ys[|ys| - 1]) then Exposure(HardFail, 0.0, b, |ys|) else Exposure(SoftAbstain, b, b, |ys|)
    else
      var entry := if nSoft > 0 && Stops(ys[nSoft - 1]) then 0.0 else b;
      Exposure(if Stops(ys[|ys| - 1]) then HardFail else Aged,
               if AnyStops(ys[nSoft..]) then 0.0 else Snapped(DiscountedBy(entry, rate, |ys| - nSoft)), b, |ys|)
  }

  /**
   A fresh decision resets everything: whatever the state and the ticks before it, and with or without a
   breached limit, the run depends on the decision and the stale ticks after it only.
   */
  lemma DecisionForgetsThePast(s: Exposure, xs: seq<Tick>, b: real, ttl: bool, ys: seq<Tick>, nSoft: nat, rate: real)
    requires ValidExposure(s) && ValidTicks(xs) && ValidTicks(ys) && -1.0 <= b <= 1.0 && Config(nSoft, rate)
    requires AllStale(ys)
    ensures Steps(s, xs + [Tick(Some(b), ttl, false)] + ys, nSoft, rate) == Ok(AfterDecision(b, ys, nSoft, rate))
  {
    var tick, decay := Tick(Some(b), ttl, false), Decay(rate);
    StepsAreRuns(s, xs + [tick] + ys, nSoft, rate);
    RunAppend(s, xs + [tick], ys, nSoft, decay);
    DecisionIsTaken(s, xs, b, ttl, nSoft, decay);
    StaleAfterDecision(b, ys, nSoft, rate);
  }

  lemma DecisionIsTaken(s: Exposure, xs: seq<Tick>, b: real, ttl: bool, nSoft: int, decay: real -> real)
    ensures Run(s, xs + [Tick(Some(b), ttl, false)], nSoft, decay) == Exposure(Healthy, b, b, 0)
  {
    var all := xs + [Tick(Some(b), ttl, false)];
    assert all[..|all| - 1] == xs;
  }

  lemma StaleAfterDecision(b: real, ys: seq<Tick>, nSoft: nat, rate: real)
    requires 0.0 <= rate <= 1.0 && AllStale(ys)
    ensures Run(Exposure(Healthy, b, b, 0), ys, nSoft, Decay(rate)) == AfterDecision(b, ys, nSoft, rate)
  {
    if ys != [] { StaleRunClosedForm(Exposure(Healthy, b, b, 0), ys, nSoft, rate); }
  }

  /** The kill switch comes first: a decision on a halting tick is not taken over. */
  lemma HaltOverridesDecision(s: Exposure, xs: seq<Tick>, b: Option<real>, ttl: bool, nSoft: nat, rate: real)
    requires ValidExposure(s) && ValidTicks(xs + [Tick(b, ttl, true)]) && Config(nSoft, rate)
    ensures Steps(s, xs, nSoft, rate).Ok?
    ensures var before := Steps(s, xs, nSoft, rate).value;
            Steps(s, xs + [Tick(b, ttl, true)], nSoft, rate)
              == Ok(Exposure(HardFail, 0.0, before.lastValid, before.ticks + 1))
  {
    var all := xs + [Tick(b, ttl, true)];
    assert all[..|all| - 1] == xs;
    forall i | 0 <= i < |xs| ensures ValidTick(xs[i]) { assert all[i] == xs[i]; }
    StepsAreRuns(s, xs, nSoft, rate);
  }
}
