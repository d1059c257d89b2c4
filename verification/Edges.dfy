/**
 Evenly spaced edges 0, n/m, 2n/m, ..., n, rounded down to whole numbers, and how far two of them are apart:
 the integer division behind chronological blocks.
 */
module Edges {
  /** The i-th of the evenly spaced edges 0, n/m, 2n/m, ..., n, rounded down. */
  function Edge(n: nat, m: nat, i: nat): nat
    requires m > 0
  {
    i * n / m
  }

  lemma Cancel(m: nat, u: int, v: int)
    requires m > 0 && m * u < m * v
    ensures u < v
  {
  }

  lemma Quotient(a: nat, m: nat)
    requires m > 0
    ensures m * (a / m) <= a < m * (a / m) + m
  {
  }

  lemma EdgeIsFloor(n: nat, m: nat, i: nat)
    requires m > 0
    ensures m * Edge(n, m, i) <= i * n < m * (Edge(n, m, i) + 1)
  {
    Quotient(i * n, m);
    assert m * (i * n / m + 1) == m * (i * n / m) + m;
  }

  /** Consecutive edges are n/m or n/m + 1 apart. */
  lemma EdgeStep(n: nat, m: nat, i: nat)
    requires m > 0
    ensures n / m <= Edge(n, m, i + 1) - Edge(n, m, i) <= n / m + 1
  {
    var x, y, q := Edge(n, m, i), Edge(n, m, i + 1), n / m;
    assert (i + 1) * n == i * n + n;
    Quotient(i * n, m);
    Quotient((i + 1) * n, m);
    Quotient(n, m);
    assert m * (x + q) < m * (y + 1) by { assert m * (x + q) == m * x + m * q && m * (y + 1) == m * y + m; }
    Cancel(m, x + q, y + 1);
    assert m * y < m * (x + q + 2) by { assert m * (x + q + 2) == m * x + m * q + m + m; }
    Cancel(m, y, x + q + 2);
  }

  lemma EdgeEnds(n: nat, m: nat)
    requires m > 0
    ensures Edge(n, m, 0) == 0 && Edge(n, m, m) == n
  {
    Quotient(m * n, m);
    var x := Edge(n, m, m);
    assert m * x < m * (n + 1) by { assert m * (n + 1) == m * n + m; }
    Cancel(m, x, n + 1);
    assert m * n < m * (x + 1) by { assert m * (x + 1) == m * x + m; }
    Cancel(m, n, x + 1);
  }

  lemma {:induction false} EdgesAscend(n: nat, m: nat, i: nat, j: nat)
    requires 0 < m <= n && i < j
    ensures Edge(n, m, i) < Edge(n, m, j)
  {
    EdgeStep(n, m, j - 1);
    AtLeastOne(n, m);
    if i < j - 1 { EdgesAscend(n, m, i, j - 1); }
  }

  lemma AtLeastOne(n: nat, m: nat)
    requires 0 < m <= n
    ensures n / m >= 1
  {
    var q := n / m;
    Quotient(n, m);
    assert m * 1 < m * (q + 1) by { assert m * (q + 1) == m * q + m; }
    Cancel(m, 1, q + 1);
  }
}
