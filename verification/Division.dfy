/** Quotients of natural numbers, as the bounds they stand for. */
module Division {

  lemma DivBounds(x: nat, d: nat, q: nat)
    requires d > 0
    ensures x / d == q <==> q * d <= x < (q + 1) * d
  {
    var r := x / d;
    assert r * d <= x < (r + 1) * d;
    if r < q {
      assert (r + 1) * d <= q * d;
    } else if r > q {
      assert (q + 1) * d <= r * d;
    }
  }

  lemma DivMod(x: nat, d: nat)
    requires d > 0
    ensures x == x / d * d + x % d && x % d < d
  {
  }

  lemma QuotientOf(x: nat, d: nat, q: nat, rest: nat)
    requires d > 0 && x == q * d + rest && rest < 2 * d
    ensures x / d == if rest < d then q else q + 1
  {
    var p := if rest < d then q else q + 1;
    assert (q + 1) * d == q * d + d;
    assert (p + 1) * d == p * d + d;
    DivBounds(x, d, p);
  }

  lemma Remainder(x: int, m: int, q: int, r: int)
    requires 0 <= r < m && x == q * m + r
    ensures x % m == r
  {
    var p := x / m;
    assert x == p * m + x % m;
    StrictlyMore(p, q, m);
    StrictlyMore(q, p, m);
  }

  lemma StrictlyMore(p: int, q: int, m: int)
    requires m > 0
    ensures p < q ==> p * m + m <= q * m
  {
    if p < q {
      assert (p + 1) * m <= q * m;
    }
  }

  lemma DivMonotone(x: nat, y: nat, d: nat)
    requires x <= y && d > 0
    ensures x / d <= y / d
  {
    DivBounds(x, d, x / d);
    DivBounds(y, d, y / d);
    StrictlyMore(y / d, x / d, d);
  }

  lemma DivBelow(x: nat, d: nat, n: nat)
    requires d > 0 && x < n * d
    ensures x / d < n
  {
    DivBounds(x, d, x / d);
    StrictlyMore(n - 1, x / d, d);
    assert (n - 1) * d + d == n * d;
  }

  lemma DivSum(x: nat, y: nat, d: nat)
    requires d > 0
    ensures x / d + y / d <= (x + y) / d
  {
    var q, r := x / d, y / d;
    DivBounds(x, d, q);
    DivBounds(y, d, r);
    assert (q + r) * d == q * d + r * d;
    DivMonotone((q + r) * d, x + y, d);
    DivBounds((q + r) * d, d, q + r);
  }
}
