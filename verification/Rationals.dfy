/** big.Rat: a fraction in lowest terms with a positive denominator. */
module Rationals {
  import opened Arithmetic
  import opened Numerals
  import opened Decimals

  datatype Rat = Rat(num: int, den: int) {
    ghost predicate Lowest() {
      den > 0 && Gcd(Abs(num), den) == 1
    }

    function Val(): real
      requires den > 0
    {
      num as real / den as real
    }
  }

  /** Reduce n/d to lowest terms. */
  function Reduced(n: int, d: int): (r: Rat)
    requires d > 0
    ensures r.Lowest() && r.Val() == n as real / d as real
  {
    var g := Gcd(Abs(n), d);
    var r := Rat(if n < 0 then -(Abs(n) / g) else Abs(n) / g, d / g);
    ReducedIsLowest(n, d);
    r
  }

  lemma ReducedIsLowest(n: int, d: int)
    requires d > 0
    ensures var g := Gcd(Abs(n), d);
            var r := Rat(if n < 0 then -(Abs(n) / g) else Abs(n) / g, d / g);
            r.Lowest() && r.Val() == n as real / d as real
  {
    var g := Gcd(Abs(n), d);
    var p, q := GcdDivides(Abs(n), d);
    Quotient(g, p, 0);
    Quotient(g, q, 0);
    ProductOrder(g, q);
    ProductOrder(g, p);
    assert p >= 0 && q > 0;
    GcdOfQuotients(Abs(n), d, p, q);
    SignedQuotient(n, d, g, p, q);
  }

  lemma SignedQuotient(n: int, d: int, g: int, p: int, q: int)
    requires d > 0 && q > 0 && Abs(n) == g * p && d == g * q
    ensures var s := if n < 0 then -p else p;
            s as real / q as real == n as real / d as real
  {
    var s := if n < 0 then -p else p;
    assert n == g * s;
    Swapped(s, g, q);
    CrossToReal(s, q, n, d);
  }

  lemma Swapped(s: int, g: int, q: int)
    ensures s * (g * q) == (g * s) * q
  {
  }

  /** A number has one representation in lowest terms. */
  lemma LowestIsUnique(a: Rat, b: Rat)
    requires a.Lowest() && b.Lowest() && a.Val() == b.Val()
    ensures a == b
  {
    CrossToReal(a.num, a.den, b.num, b.den);
    DenominatorDivides(a, b);
    DenominatorDivides(b, a);
    MutualDivisors(a.den, b.den);
    CancelLeft(a.den, a.num, b.num);
  }

  lemma DenominatorDivides(a: Rat, b: Rat)
    requires a.Lowest() && b.Lowest() && a.num * b.den == b.num * a.den
    ensures Divides(a.den, b.den)
  {
    assert a.num * b.den == Times(a.den, b.num);
    Gauss(a.den, a.num, b.den);
  }

  function FromInt(n: int): (r: Rat)
    ensures r.Lowest() && r.Val() == n as real
  {
    Reduced(n, 1)
  }

  /** (*big.Rat).SetString on a plain decimal. */
  function FromDecimal(text: string): (r: Rat)
    requires IsDecimal(text)
    ensures r.Lowest() && r.Val() == Exact(text)
  {
    Reduced(Coefficient(text), Pow10(Scale(text)))
  }

  /** (*big.Rat).Add */
  function Add(a: Rat, b: Rat): (r: Rat)
    requires a.den > 0 && b.den > 0
    ensures r.Lowest() && r.Val() == a.Val() + b.Val()
  {
    SumOfFractions(a, b);
    Reduced(a.num * b.den + b.num * a.den, a.den * b.den)
  }

  lemma SumOfFractions(a: Rat, b: Rat)
    requires a.den > 0 && b.den > 0
    ensures a.den * b.den > 0
    ensures (a.num * b.den + b.num * a.den) as real / (a.den * b.den) as real == a.Val() + b.Val()
  {
    ProductOrder(a.den, b.den);
    var x, y, p, q := a.Val(), b.Val(), a.den as real, b.den as real;
    assert x * p == a.num as real && y * q == b.num as real;
    assert (a.den * b.den) as real == p * q;
    calc {
      (a.num * b.den + b.num * a.den) as real;
      (a.num * b.den) as real + (b.num * a.den) as real;
      (x * p) * q + (y * q) * p;
      (x + y) * (p * q);
    }
    QuotientIs((a.num * b.den + b.num * a.den) as real, x + y, p * q);
  }

  /** (*big.Rat).Quo by a positive integer. */
  function QuoInt(a: Rat, k: int): (r: Rat)
    requires a.den > 0 && k > 0
    ensures r.Lowest() && r.Val() == a.Val() / k as real
  {
    QuotientOfFraction(a, k);
    Reduced(a.num, a.den * k)
  }

  lemma QuotientOfFraction(a: Rat, k: int)
    requires a.den > 0 && k > 0
    ensures a.den * k > 0
    ensures a.num as real / (a.den * k) as real == a.Val() / k as real
  {
    ProductOrder(a.den, k);
    var x, p, q := a.Val() / k as real, a.den as real, k as real;
    assert x * q == a.Val() && a.Val() * p == a.num as real;
    assert a.num as real == (x * q) * p == x * (p * q);
    assert (a.den * k) as real == p * q;
    QuotientIs(a.num as real, x, p * q);
  }

  /** a.Cmp(b) < 0 */
  predicate LessThan(a: Rat, b: Rat)
    requires a.den > 0 && b.den > 0
    ensures LessThan(a, b) <==> a.Val() < b.Val()
  {
    CrossToReal(a.num, a.den, b.num, b.den);
    a.num * b.den < b.num * a.den
  }
}
