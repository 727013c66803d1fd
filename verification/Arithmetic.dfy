/**
  Quotients and remainders by a variable divisor.
*/
module Arithmetic {
  lemma MulOrder(k: int, n: nat)
    ensures k <= 0 ==> k * n <= 0
    ensures k >= 1 ==> k * n >= n
    ensures k >= 2 ==> k * n >= 2 * n
    ensures k <= -1 ==> k * n <= -1 * n
  {}

  lemma RemainderIs(x: nat, n: nat, a: nat, b: nat)
    requires n > 0 && x == a * n + b && b < n
    ensures x % n == b
  {
    var c, d := x / n, x % n;
    assert x == c * n + d;
    assert (a - c) * n == d - b;
    MulOrder(a - c, n);
  }

  lemma SameResidue(t: nat, d: nat, n: nat)
    requires 0 < d <= n
    ensures (t + d) % n == t % n <==> d == n
  {
    var a, b := t / n, t % n;
    assert t == a * n + b;
    if d == n {
      assert t + n == (a + 1) * n + b;
      RemainderIs(t + n, n, a + 1, b);
    } else if b + d < n {
      RemainderIs(t + d, n, a, b + d);
    } else {
      assert t + d == (a + 1) * n + (b + d - n);
      RemainderIs(t + d, n, a + 1, b + d - n);
    }
  }

  lemma AddMultiple(t: nat, d: nat, n: nat)
    requires n > 0 && d % n == 0
    ensures (t + d) % n == t % n
  {
    assert t == t / n * n + t % n && d == d / n * n;
    assert t + d == (t / n + d / n) * n + t % n;
    RemainderIs(t + d, n, t / n + d / n, t % n);
  }

  lemma ComplementDivides(x: nat, n: nat)
    requires n > 0
    ensures var r := (0 - x) % n; (r + x) % n == 0 && (r == 0 ==> (n + x) % n == 0) && (0 < x < n ==> r == n - x)
  {
    var q: int, r: int := (0 - x) / n, (0 - x) % n;
    assert 0 - x == q * n + r;
    assert r + x == (0 - q) * n;
    MulOrder(q, n);
    RemainderIs(r + x, n, 0 - q, 0);
    if r == 0 {
      assert n + x == (1 - q) * n;
      RemainderIs(n + x, n, 1 - q, 0);
    }
    if 0 < x < n {
      MulOrder(q + 1, n);
      assert (q + 1) * n == q * n + n;
    }
  }

  lemma MulMonotone(a: nat, b: nat, c: nat, d: nat)
    requires a <= c && b <= d
    ensures a * b <= c * d
  {
    MulOrder(c - a, b);
    MulOrder(d - b, c);
    if a < c {
      assert c * b == a * b + (c - a) * b;
    }
    assert c * d == c * b + c * (d - b);
  }

  /** Two different multiples of d are at least d apart. */
  lemma MultiplesApart(a: nat, b: nat, d: nat)
    requires d > 0 && a % d == 0 && b % d == 0 && a < b
    ensures a + d <= b
  {
    assert a == (a / d) * d && b == (b / d) * d;
    MulOrder(b / d - a / d, d);
    assert (b / d - a / d) * d == b - a;
  }

  lemma ModSuccessor(x: nat, d: nat)
    requires d > 0
    ensures (x + 1) % d == if x % d == d - 1 then 0 else x % d + 1
  {
    var a, b := x / d, x % d;
    assert x == a * d + b;
    if b + 1 == d {
      assert x + 1 == (a + 1) * d + 0;
      RemainderIs(x + 1, d, a + 1, 0);
    } else {
      RemainderIs(x + 1, d, a, b + 1);
    }
  }

  /** The largest multiple of d up to x grows with x. */
  lemma MultipleBelowMonotone(x: nat, y: nat, d: nat)
    requires d > 0 && x <= y
    ensures x - x % d <= y - y % d
  {
    assert x == x / d * d + x % d && y == y / d * d + y % d;
    MulOrder(x / d - y / d, d);
    assert (x / d - y / d) * d == x / d * d - y / d * d;
  }

  lemma Distribute(k: int, c: int, r: int, d: int)
    ensures (k * c + r) * d == k * (c * d) + r * d
  {
    assert (k * c + r) * d == k * c * d + r * d;
    assert k * c * d == k * (c * d);
  }

  lemma MulStrict(r: nat, c: nat, d: nat)
    requires r < c && d > 0
    ensures r * d < c * d
  {
    MulOrder(c - r, d);
    assert (c - r) * d == c * d - r * d;
  }

  lemma Succ(r: int, n: int)
    ensures (r + 1) * n == r * n + n && (r - 1) * n == r * n - n
  {}

  /** The quotient is the only one with a remainder below the divisor. */
  lemma QuotientIs(x: nat, n: nat, a: nat, b: nat)
    requires n > 0 && x == a * n + b && b < n
    ensures x / n == a && x % n == b
  {
    RemainderIs(x, n, a, b);
    assert x == x / n * n + x % n;
    assert (x / n - a) * n == 0;
    MulOrder(x / n - a, n);
  }

  lemma RemainderByQuotient(x: nat, n: nat)
    requires n > 0
    ensures x - x / n * n == x % n && 0 <= x % n
  {}

  /** Multiplication of naturals, for places where the product must be seen to be one. */
  function Times(a: nat, b: nat): (p: nat)
    ensures p == a * b
  {
    MulOrder(a, b);
    if a == 0 then 0 else a * b
  }
}
