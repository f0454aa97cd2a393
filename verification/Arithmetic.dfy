/** Divisibility, greatest common divisors and the order facts the proofs need. */
module Arithmetic {

  function Times(a: int, b: int): int {
    a * b
  }

  ghost predicate Divides(d: int, n: int) {
    exists k :: n == Times(d, k)
  }

  function Abs(n: int): nat {
    if n < 0 then -n else n
  }

  /** A product by a positive number keeps the order. */
  lemma ProductOrder(g: int, k: int)
    requires g > 0
    ensures k >= 1 ==> g * k >= g
    ensures k <= -1 ==> g * k <= -g
    ensures k == 0 ==> g * k == 0
  {
  }

  lemma CancelLeft(g: int, m: int, n: int)
    requires g > 0 && g * m == g * n
    ensures m == n
  {
    ProductOrder(g, m - n);
    assert g * (m - n) == g * m - g * n;
  }

  lemma Quotient(d: int, k: int, r: int)
    requires 0 <= r < d
    ensures (d * k + r) / d == k && (d * k + r) % d == r
  {
    var n := d * k + r;
    var q, s := n / d, n % d;
    assert n == d * q + s && 0 <= s < d;
    ProductOrder(d, k - q);
    assert d * (k - q) == s - r by { assert d * (k - q) == d * k - d * q; }
  }

  lemma Cofactor(d: int, n: int) returns (k: int)
    requires Divides(d, n)
    ensures n == d * k
  {
    k :| n == Times(d, k);
  }

  lemma DividesIsMod(d: int, n: int)
    requires d > 0
    ensures Divides(d, n) <==> n % d == 0
    ensures n % d == 0 ==> n == d * (n / d)
  {
    if Divides(d, n) {
      var k :| n == Times(d, k);
      Quotient(d, k, 0);
    }
    if n % d == 0 {
      assert n == Times(d, n / d);
    }
  }

  lemma UnitProduct(h: int, k: int)
    requires h > 0 && h * k == 1
    ensures h == 1
  {
    ProductOrder(h, k);
  }

  function Gcd(a: nat, b: nat): (g: nat)
    requires a > 0 || b > 0
    ensures g > 0
    decreases b
  {
    if b == 0 then a else Gcd(b, a % b)
  }

  lemma {:induction false} GcdDivides(a: nat, b: nat) returns (p: int, q: int)
    requires a > 0 || b > 0
    ensures a == Gcd(a, b) * p && b == Gcd(a, b) * q
    decreases b
  {
    if b == 0 {
      p, q := 1, 0;
    } else {
      var u, v := GcdDivides(b, a % b);
      q := u;
      p := DivisionStep(a, b, Gcd(a, b), u, v);
    }
  }

  lemma DivisionStep(a: int, b: int, g: int, u: int, v: int) returns (p: int)
    requires b > 0 && b == g * u && a % b == g * v
    ensures a == g * p
  {
    var t := a / b;
    p := u * t + v;
    assert a == b * t + a % b;
    assert g * p == (g * u) * t + g * v;
  }

  lemma {:induction false} Bezout(a: nat, b: nat) returns (x: int, y: int)
    requires a > 0 || b > 0
    ensures a * x + b * y == Gcd(a, b)
    decreases b
  {
    if b == 0 {
      x, y := 1, 0;
    } else {
      var u, v := Bezout(b, a % b);
      x, y := BezoutStep(a, b, u, v);
    }
  }

  lemma BezoutStep(a: int, b: int, u: int, v: int) returns (x: int, y: int)
    requires b > 0
    ensures a * x + b * y == b * u + (a % b) * v
  {
    var t, r := a / b, a % b;
    x, y := v, u - t * v;
    assert a == b * t + r;
    calc {
      a * x + b * y;
      (b * t + r) * v + b * (u - t * v);
      b * t * v + r * v + b * u - b * (t * v);
      { assert b * t * v == b * (t * v); }
      b * u + r * v;
    }
  }

  /** Euclid's lemma for coprime numbers. */
  lemma Gauss(d: nat, m: int, n: int)
    requires d > 0 && Gcd(Abs(m), d) == 1 && Divides(d, m * n)
    ensures Divides(d, n)
  {
    var x, y := Bezout(Abs(m), d);
    var k :| m * n == Times(d, k);
    var s := if m < 0 then -x else x;
    assert m * s == Abs(m) * x;
    GaussStep(d, m, n, s, y, k);
  }

  lemma GaussStep(d: int, m: int, n: int, s: int, y: int, k: int)
    requires m * s + d * y == 1 && m * n == d * k
    ensures Divides(d, n)
  {
    calc {
      n;
      n * 1;
      n * (m * s + d * y);
      n * (m * s) + n * (d * y);
      { assert n * (m * s) == (m * n) * s; assert n * (d * y) == d * (n * y); }
      (d * k) * s + d * (n * y);
      { assert (d * k) * s == d * (k * s); }
      d * (k * s) + d * (n * y);
      Times(d, k * s + n * y);
    }
  }

  lemma GcdOfQuotients(a: nat, b: nat, p: nat, q: nat)
    requires b > 0 && q > 0 && a == Gcd(a, b) * p && b == Gcd(a, b) * q
    ensures Gcd(p, q) == 1
  {
    var g := Gcd(a, b);
    var x, y := Bezout(a, b);
    Factor(g, p, q, x, y);
    CancelLeft(g, p * x + q * y, 1);
    var u, v := GcdDivides(p, q);
    Factor(Gcd(p, q), u, v, x, y);
    UnitProduct(Gcd(p, q), u * x + v * y);
  }

  lemma Factor(g: int, p: int, q: int, x: int, y: int)
    ensures (g * p) * x + (g * q) * y == g * (p * x + q * y)
  {
    assert (g * p) * x == g * (p * x) && (g * q) * y == g * (q * y);
  }

  lemma MutualDivisors(a: int, b: int)
    requires a > 0 && b > 0 && Divides(a, b) && Divides(b, a)
    ensures a == b
  {
    var p :| b == Times(a, p);
    var q :| a == Times(b, q);
    ProductOrder(a, p);
    assert p > 0;
    assert a * (p * q) == (a * p) * q;
    CancelLeft(a, p * q, 1);
    UnitProduct(p, q);
  }

  /** Fractions compare as their cross products. */
  lemma CrossToReal(a: int, b: int, c: int, d: int)
    requires b > 0 && d > 0
    ensures a * d == c * b <==> a as real / b as real == c as real / d as real
    ensures a * d < c * b <==> (a as real / b as real) < (c as real / d as real)
  {
    var x, y := a as real / b as real, c as real / d as real;
    var p, q := b as real, d as real;
    assert x * p == a as real && y * q == c as real;
    assert (a * d) as real == (x * p) * q == x * (p * q);
    assert (c * b) as real == (y * q) * p == y * (p * q);
    ScaleOrder(x, y, p * q);
  }

  lemma ScaleOrder(x: real, y: real, k: real)
    requires k > 0.0
    ensures x == y <==> x * k == y * k
    ensures x < y <==> x * k < y * k
  {
    PositiveProduct(y - x, k);
    PositiveProduct(x - y, k);
    assert (y - x) * k == y * k - x * k;
  }

  lemma PositiveProduct(x: real, k: real)
    requires k > 0.0
    ensures x > 0.0 ==> x * k > 0.0
  {
  }

  lemma QuotientIs(n: real, v: real, d: real)
    requires d > 0.0 && n == v * d
    ensures n / d == v
  {
  }
}
