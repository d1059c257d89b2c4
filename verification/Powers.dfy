/**
 Powers of a real between zero and one, and a bound on them that needs no logarithm: (1 - r)^m stays below
 the hyperbola 1 / (1 + m r), so every 1 / r factors at least halve it.
 */
module Powers {
  import opened Sums

  lemma AbsProduct(x: real, c: real)
    requires c >= 0.0
    ensures Abs(x * c) == Abs(x) * c
  {
    if x >= 0.0 {
      assert x * c >= 0.0;
    } else {
      assert (-x) * c >= 0.0;
      assert (-x) * c == -(x * c);
    }
  }

  lemma Monotone(y: real, z: real, c: real)
    requires y <= z && c >= 0.0
    ensures y * c <= z * c
  {
    assert (z - y) * c >= 0.0;
    assert (z - y) * c == z * c - y * c;
  }

  function Power(x: real, k: nat): real {
    if k == 0 then 1.0 else Power(x, k - 1) * x
  }

  lemma {:induction false} PowerPositive(x: real, k: nat)
    requires 0.0 <= x <= 1.0
    ensures 0.0 <= Power(x, k) <= 1.0
  {
    if k > 0 {
      PowerPositive(x, k - 1);
      var p := Power(x, k - 1);
      Monotone(p, 1.0, x);
      assert 0.0 <= p * x <= 1.0 * x <= 1.0;
    }
  }

  lemma {:induction false} PowerSum(x: real, a: nat, b: nat)
    ensures Power(x, a + b) == Power(x, a) * Power(x, b)
  {
    if b > 0 {
      PowerSum(x, a, b - 1);
      assert Power(x, a) * (Power(x, b - 1) * x) == Power(x, a) * Power(x, b - 1) * x;
    }
  }

  /** One decay step against the hyperbola 1 / (1 + h). */
  lemma HyperbolaStep(y: real, h: real, rate: real, y': real, h': real)
    requires y >= 0.0 && h >= 0.0 && 0.0 <= rate
    requires y' == y * (1.0 - rate) && h' == h + rate
    ensures y' * (1.0 + h') <= y * (1.0 + h)
  {
    var factor := (1.0 - rate) * (1.0 + h + rate);
    assert rate * h >= 0.0 && rate * rate >= 0.0;
    assert factor == 1.0 + h - rate * h - rate * rate;
    Monotone(factor, 1.0 + h, y);
    assert y' * (1.0 + h') == y * (1.0 - rate) * (1.0 + h + rate) == factor * y;
    assert y * (1.0 + h) == (1.0 + h) * y;
  }

  lemma {:induction false} PowerBelowHyperbola(rate: real, m: nat)
    requires 0.0 <= rate <= 1.0
    ensures Times(m, rate) >= 0.0
    ensures Power(1.0 - rate, m) * (1.0 + Times(m, rate)) <= 1.0
  {
    if m > 0 {
      PowerBelowHyperbola(rate, m - 1);
      PowerPositive(1.0 - rate, m - 1);
      HyperbolaStep(Power(1.0 - rate, m - 1), Times(m - 1, rate), rate, Power(1.0 - rate, m), Times(m, rate));
    }
  }

  /** 1 / rate decays at least halve. */
  lemma PowerHalves(rate: real, c: nat)
    requires 0.0 <= rate <= 1.0 && Times(c, rate) >= 1.0
    ensures 0.0 <= Power(1.0 - rate, c) <= 0.5
  {
    var p, h := Power(1.0 - rate, c), Times(c, rate);
    PowerBelowHyperbola(rate, c);
    PowerPositive(1.0 - rate, c);
    Monotone(2.0, 1.0 + h, p);
    assert 2.0 * p <= p * (1.0 + h);
  }

  function PowerOfHalf(k: nat): real {
    if k == 0 then 1.0 else PowerOfHalf(k - 1) / 2.0
  }

  lemma HalfOf(h: real, p: real, bound: real)
    requires 0.0 <= h <= 0.5 && 0.0 <= p <= bound
    ensures 0.0 <= p * h <= bound / 2.0
  {
    Monotone(h, 0.5, p);
    assert p * h == h * p;
  }

  lemma {:induction false} PowerHalvesRepeatedly(rate: real, c: nat, k: nat)
    requires 0.0 <= rate <= 1.0 && Times(c, rate) >= 1.0
    ensures 0.0 <= Power(1.0 - rate, c * k) <= PowerOfHalf(k)
  {
    if k == 0 {
      assert c * k == 0;
    } else {
      PowerHalvesRepeatedly(rate, c, k - 1);
      PowerHalves(rate, c);
      PowerSum(1.0 - rate, c * (k - 1), c);
      assert c * (k - 1) + c == c * k;
      HalfOf(Power(1.0 - rate, c), Power(1.0 - rate, c * (k - 1)), PowerOfHalf(k - 1));
    }
  }
}
