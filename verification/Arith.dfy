/** Facts about division and remainder that the modules share. */
module Arith {

  lemma MulMonotone(n: nat, x: int, y: int)
    requires x <= y
    ensures n * x <= n * y
  {
    assert n * (y - x) >= 0;
  }

  lemma DivModUnique(n: nat, q: int, r: int)
    requires 0 <= r < n
    ensures (n * q + r) / n == q && (n * q + r) % n == r
  {
    var a := n * q + r;
    var d := a / n - q;
    assert a == n * (a / n) + a % n;
    assert n * d == r - a % n;
    if d >= 1 { MulMonotone(n, 1, d); }
    if d <= -1 { MulMonotone(n, d, -1); }
    assert d == 0;
    assert n * d == 0;
  }

  /** Two numbers with the same remainder that are closer than n are equal. */
  lemma SameResidue(a: int, b: int, n: nat)
    requires 0 < n && a % n == b % n && a < b + n && b < a + n
    ensures a == b
  {
    var d := a / n - b / n;
    assert a - b == n * d;
    if d >= 1 { MulMonotone(n, 1, d); }
    if d <= -1 { MulMonotone(n, d, -1); }
  }

  lemma AddMultiple(a: int, k: int, n: nat)
    requires 0 < n
    ensures (a + n * k) % n == a % n
  {
    var q, r := a / n, a % n;
    assert a + n * k == n * (q + k) + r;
    DivModUnique(n, q + k, r);
  }

  lemma AddModulus(a: int, n: nat)
    requires 0 < n
    ensures (a + n) % n == a % n
  {
    AddMultiple(a, 1, n);
  }

  /** A sum may be reduced before the last addition. */
  lemma AddMod(a: int, b: int, n: nat)
    requires 0 < n
    ensures (a % n + b) % n == (a + b) % n
  {
    assert a == n * (a / n) + a % n;
    AddMultiple(a % n + b, a / n, n);
  }

  lemma SmallMod(a: nat, n: nat)
    requires a < n
    ensures a % n == a && a / n == 0
  {}

  lemma NextResidue(a: nat, n: nat)
    requires 0 < n
    ensures (a + 1) % n == (a % n + 1) % n
  {
    AddMod(a, 1, n);
  }
}
