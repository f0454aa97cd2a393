/** The scale an analytic value is printed at: terminatingDecimalScale and the
    rounding of (*big.Rat).FloatString. */
module DecimalScales {
  import opened Arithmetic
  import opened Numerals
  import opened Decimals
  import opened Rationals

  /** value * 10^k is an integer, so k digits after the point write the value exactly. */
  ghost predicate IntegralAt(value: Rat, k: nat)
    requires value.den > 0
  {
    exists n: int :: IsScaledBy(value, k, n)
  }

  ghost predicate IsScaledBy(value: Rat, k: nat, n: int)
    requires value.den > 0
  {
    value.Val() * Pow10(k) as real == n as real
  }

  /** The value has a finite decimal expansion. */
  ghost predicate HasFiniteExpansion(value: Rat)
    requires value.den > 0
  {
    exists k: nat :: IntegralAt(value, k)
  }

  ghost predicate IsLeastScale(value: Rat, scale: nat)
    requires value.den > 0
  {
    && IntegralAt(value, scale)
    && forall k: nat :: IntegralAt(value, k) ==> scale <= k
  }

  function Pow(b: nat, k: nat): (p: nat)
    ensures b > 0 ==> p > 0
  {
    if k == 0 then 1 else b * Pow(b, k - 1)
  }

  lemma ScaledByCross(value: Rat, k: nat, n: int)
    requires value.den > 0
    ensures IsScaledBy(value, k, n) <==> value.num * Pow10(k) == n * value.den
  {
    var v, p, d := value.Val(), Pow10(k), value.den;
    assert v * d as real == value.num as real;
    assert (value.num * p) as real == (v * d as real) * p as real == (v * p as real) * d as real;
    ScaleOrder(v * p as real, n as real, d as real);
    assert (n * d) as real == n as real * d as real;
  }

  lemma IntegralIsDivision(value: Rat, k: nat)
    requires value.Lowest()
    ensures IntegralAt(value, k) <==> Divides(value.den, Pow10(k))
  {
    if IntegralAt(value, k) {
      var n :| IsScaledBy(value, k, n);
      ScaledByCross(value, k, n);
      DenominatorOfIntegral(value.num, value.den, Pow10(k), n);
    }
    if Divides(value.den, Pow10(k)) {
      var m :| Pow10(k) == Times(value.den, m);
      ScaledByCross(value, k, value.num * m);
      Reassociate(value.num, value.den, m);
    }
  }

  lemma DenominatorOfIntegral(num: int, den: nat, p: nat, n: int)
    requires den > 0 && Gcd(Abs(num), den) == 1 && num * p == n * den
    ensures Divides(den, p)
  {
    assert num * p == Times(den, n);
    Gauss(den, num, p);
  }

  lemma Reassociate(x: int, y: int, z: int)
    ensures x * Times(y, z) == (x * z) * y
  {
    assert x * (y * z) == (x * z) * y;
  }

  lemma {:induction false} TenthsAreTwosAndFives(k: nat)
    ensures Pow10(k) == Pow(2, k) * Pow(5, k)
  {
    if k == 0 {
    } else {
      TenthsAreTwosAndFives(k - 1);
      var x, y := Pow(2, k - 1), Pow(5, k - 1);
      assert (2 * x) * (5 * y) == 10 * (x * y);
    }
  }

  lemma {:induction false} PowersOfFiveAreOdd(k: nat)
    ensures Pow(5, k) % 2 != 0
  {
    if k == 0 {
    } else {
      PowersOfFiveAreOdd(k - 1);
      RemainderOfProduct(5, Pow(5, k - 1), 2, 1);
    }
  }

  lemma {:induction false} PowersOfTwoAvoidFive(k: nat)
    ensures Pow(2, k) % 5 != 0
  {
    if k == 0 {
    } else {
      PowersOfTwoAvoidFive(k - 1);
      var x := Pow(2, k - 1);
      RemainderOfProduct(2, x, 5, x % 5);
    }
  }

  lemma RemainderOfProduct(b: int, x: int, m: int, r: int)
    requires (b == 5 && m == 2) || (b == 2 && m == 5)
    requires x % m == r && r != 0
    ensures (b * x) % m != 0
  {
  }

  lemma {:induction false} PowAdd(b: nat, m: nat, n: nat)
    ensures Pow(b, m + n) == Pow(b, m) * Pow(b, n)
  {
    if m == 0 {
    } else {
      PowAdd(b, m - 1, n);
      Associate(b, Pow(b, m - 1), Pow(b, n));
    }
  }

  lemma Associate(x: int, y: int, z: int)
    ensures x * (y * z) == (x * y) * z
  {
  }

  /** A number prime to ten that divides a power of ten is one. */
  lemma {:induction false} CoprimeDividesTenth(m: nat, k: nat)
    requires m > 0 && m % 2 != 0 && m % 5 != 0 && Divides(m, Pow10(k))
    ensures m == 1
  {
    if k == 0 {
      var q :| 1 == Times(m, q);
      UnitProduct(m, q);
    } else {
      var p, q := GcdDivides(10, m);
      TenIsTwoTimesFive(Gcd(10, m), p, q, m);
      assert Abs(10) == 10;
      Gauss(m, 10, Pow10(k - 1));
      CoprimeDividesTenth(m, k - 1);
    }
  }

  lemma TenIsTwoTimesFive(g: nat, p: int, q: int, m: nat)
    requires g > 0 && 10 == g * p && m == g * q && m % 2 != 0 && m % 5 != 0
    ensures g == 1
  {
    DivisorOfTen(g, p);
    assert m == Times(g, q);
    DividesIsMod(g, m);
  }

  lemma DivisorOfTen(g: nat, p: int)
    requires 10 == g * p
    ensures g == 1 || g == 2 || g == 5 || g == 10
  {
    ProductOrder(g, p);
    assert 1 <= g <= 10;
  }

  /** A factor p^a of p^k * x, with x prime to p, has a <= k. */
  lemma {:induction false} PowerFactorBound(p: nat, a: nat, k: nat, x: int)
    requires p > 1 && x % p != 0 && Divides(Pow(p, a), Pow(p, k) * x)
    ensures a <= k
  {
    if a == 0 {
    } else {
      var q := Cofactor(Pow(p, a), Pow(p, k) * x);
      if k == 0 {
        BaseDivides(p, Pow(p, a - 1), q, x);
        DividesIsMod(p, x);
        assert false;
      } else {
        CancelBase(p, Pow(p, a - 1), Pow(p, k - 1), q, x);
        PowerFactorBound(p, a - 1, k - 1, x);
      }
    }
  }

  lemma BaseDivides(p: int, r: int, q: int, x: int)
    requires x == (p * r) * q
    ensures Divides(p, x)
  {
    assert (p * r) * q == Times(p, r * q);
  }

  lemma CancelBase(p: int, r: int, s: int, q: int, x: int)
    requires p > 0 && (p * s) * x == (p * r) * q
    ensures Divides(r, s * x)
  {
    assert p * (s * x) == (p * s) * x && p * (r * q) == (p * r) * q;
    CancelLeft(p, s * x, r * q);
    assert s * x == Times(r, q);
  }

  lemma FactorsDivide(a: int, b: int, n: int)
    requires Divides(a * b, n)
    ensures Divides(a, n) && Divides(b, n)
  {
    var q :| n == Times(a * b, q);
    assert n == Times(a, b * q) && n == Times(b, a * q);
  }

  /** 2^a * 5^b * m, with m prime to ten, divides 10^k exactly when m = 1 and a, b <= k. */
  lemma TenthDivisors(a: nat, b: nat, m: nat, k: nat)
    requires m > 0 && m % 2 != 0 && m % 5 != 0
    ensures Divides(Pow(2, a) * Pow(5, b) * m, Pow10(k)) <==> m == 1 && a <= k && b <= k
  {
    if Divides(Pow(2, a) * Pow(5, b) * m, Pow10(k)) {
      TenthDivisorIsSmall(a, b, m, k);
    }
    if m == 1 && a <= k && b <= k {
      SmallDividesTenth(a, b, k);
    }
  }

  lemma TenthDivisorIsSmall(a: nat, b: nat, m: nat, k: nat)
    requires m > 0 && m % 2 != 0 && m % 5 != 0
    requires Divides(Pow(2, a) * Pow(5, b) * m, Pow10(k))
    ensures m == 1 && a <= k && b <= k
  {
    FactorsDivide(Pow(2, a) * Pow(5, b), m, Pow10(k));
    FactorsDivide(Pow(2, a), Pow(5, b), Pow10(k));
    CoprimeDividesTenth(m, k);
    TenthsAreTwosAndFives(k);
    PowersOfFiveAreOdd(k);
    PowersOfTwoAvoidFive(k);
    PowerFactorBound(2, a, k, Pow(5, k));
    assert Pow10(k) == Pow(5, k) * Pow(2, k);
    PowerFactorBound(5, b, k, Pow(2, k));
  }

  lemma SmallDividesTenth(a: nat, b: nat, k: nat)
    requires a <= k && b <= k
    ensures Divides(Pow(2, a) * Pow(5, b) * 1, Pow10(k))
  {
    TenthsAreTwosAndFives(k);
    PowAdd(2, a, k - a);
    PowAdd(5, b, k - b);
    Regroup(Pow(2, a), Pow(2, k - a), Pow(5, b), Pow(5, k - b));
    assert Pow10(k) == Times(Pow(2, a) * Pow(5, b), Pow(2, k - a) * Pow(5, k - b));
  }

  lemma Regroup(x: int, y: int, z: int, w: int)
    ensures (x * y) * (z * w) == (x * z) * (y * w)
  {
    assert (x * y) * (z * w) == x * (y * (z * w));
    assert y * (z * w) == z * (y * w);
    assert x * (z * (y * w)) == (x * z) * (y * w);
  }

  /** terminatingDecimalScale: the two loops strip the twos and fives of the denominator. */
  method TerminatingDecimalScale(value: Rat) returns (scale: nat, exact: bool)
    requires value.Lowest()
    ensures exact <==> HasFiniteExpansion(value)
    ensures exact ==> IsLeastScale(value, scale)
    ensures !exact ==> scale == 0
  {
    var denominator := value.den;
    var twos, fives := 0, 0;
    StripNothing(value.den);
    while denominator % 2 == 0
      invariant denominator > 0 && Stripped(value.den, twos, 0, denominator)
      decreases denominator
    {
      StripTwo(value.den, twos, denominator);
      denominator := denominator / 2;
      twos := twos + 1;
    }
    while denominator % 5 == 0
      invariant denominator > 0 && denominator % 2 != 0
      invariant Stripped(value.den, twos, fives, denominator)
      decreases denominator
    {
      StripFive(value.den, twos, fives, denominator);
      denominator := denominator / 5;
      fives := fives + 1;
    }
    IntegralScales(value, twos, fives, denominator);
    if denominator != 1 {
      return 0, false;
    }
    assert IntegralAt(value, if twos > fives then twos else fives);
    if twos > fives {
      return twos, true;
    }
    return fives, true;
  }

  /** What is left of the denominator decides, and the exponents bound, the scale. */
  lemma IntegralScales(value: Rat, twos: nat, fives: nat, rest: nat)
    requires value.Lowest() && rest > 0 && rest % 2 != 0 && rest % 5 != 0
    requires Stripped(value.den, twos, fives, rest)
    ensures forall k: nat :: IntegralAt(value, k) <==> rest == 1 && twos <= k && fives <= k
  {
    forall k: nat
      ensures IntegralAt(value, k) <==> rest == 1 && twos <= k && fives <= k
    {
      IntegralIsDivision(value, k);
      TenthDivisors(twos, fives, rest, k);
    }
  }

  /** d is what is left of it times the twos and fives taken out. */
  ghost predicate Stripped(d: int, twos: nat, fives: nat, rest: int) {
    d == Pow(2, twos) * Pow(5, fives) * rest
  }

  lemma StripNothing(d: int)
    ensures Stripped(d, 0, 0, d)
  {
  }

  lemma StripTwo(d: int, twos: nat, rest: int)
    requires rest > 0 && rest % 2 == 0 && Stripped(d, twos, 0, rest)
    ensures rest / 2 > 0 && Stripped(d, twos + 1, 0, rest / 2)
  {
    MoveFactor(2, Pow(2, twos), Pow(5, 0), rest / 2);
    assert rest == 2 * (rest / 2);
  }

  lemma StripFive(d: int, twos: nat, fives: nat, rest: int)
    requires rest > 0 && rest % 5 == 0 && rest % 2 != 0 && Stripped(d, twos, fives, rest)
    ensures rest / 5 > 0 && (rest / 5) % 2 != 0 && Stripped(d, twos, fives + 1, rest / 5)
  {
    MoveFactor(5, Pow(5, fives), Pow(2, twos), rest / 5);
    assert rest == 5 * (rest / 5);
  }

  lemma MoveFactor(b: int, x: int, y: int, z: int)
    ensures x * y * (b * z) == (b * x) * y * z
    ensures y * x * (b * z) == y * (b * x) * z
  {
    assert x * y * (b * z) == (x * y * b) * z;
    assert (x * y * b) == (b * x) * y;
    assert y * x * b == y * (b * x);
    assert y * x * (b * z) == (y * x * b) * z;
  }

  /** The nearest integer to n/d, halves away from zero (n >= 0). */
  function RoundedQuotient(n: nat, d: nat): nat
    requires d > 0
  {
    n / d + if 2 * (n % d) >= d then 1 else 0
  }

  /** The digits after the point of n/d, before any carry. */
  function FractionDigits(n: nat, d: nat, p: nat): (digits: nat)
    requires d > 0 && p > 0
    ensures digits <= p
  {
    FractionIsBelow(n % d, d, p);
    RoundedQuotient((n % d) * p, d)
  }

  lemma FractionIsBelow(rest: nat, d: nat, p: nat)
    requires rest < d && p > 0
    ensures RoundedQuotient(rest * p, d) <= p
  {
    assert rest * p < d * p by {
      ProductOrder(p, d - rest);
      assert (d - rest) * p == d * p - rest * p;
    }
    QuotientIsBelow(rest * p, d, p);
  }

  lemma QuotientIsBelow(n: nat, d: nat, p: nat)
    requires d > 0 && n < d * p
    ensures n / d < p
  {
    var q, r := n / d, n % d;
    assert n == d * q + r && 0 <= r < d;
    assert d * (q - p) == d * q - d * p;
    ProductOrder(d, q - p);
  }

  /** (*big.Rat).FloatString: sign, integer part, and scale digits rounded half away from zero. */
  function FloatString(value: Rat, scale: nat): string
    requires value.den > 0
  {
    Rendered(value.num < 0, Abs(value.num) / value.den,
             FractionDigits(Abs(value.num), value.den, Pow10(scale)), scale)
  }

  function Rendered(negative: bool, whole: nat, digits: nat, scale: nat): string
    requires digits <= Pow10(scale)
  {
    if digits == Pow10(scale) then Assemble(negative, Print(whole + 1), Padded(0, scale))
    else Assemble(negative, Print(whole), Padded(digits, scale))
  }

  lemma RenderedDigits(negative: bool, whole: nat, digits: nat, scale: nat)
    requires digits <= Pow10(scale)
    ensures var text := Rendered(negative, whole, digits, scale);
            && IsDecimal(text) && Scale(text) == scale && Negative(text) == negative
            && Coefficient(text) == Signed(negative, whole * Pow10(scale) + digits)
  {
    if digits == Pow10(scale) {
      DigitsOfParts(negative, whole + 1, 0, scale);
      assert (whole + 1) * Pow10(scale) == whole * Pow10(scale) + Pow10(scale);
    } else {
      DigitsOfParts(negative, whole, digits, scale);
    }
  }

  lemma DigitsOfParts(negative: bool, whole: nat, tail: nat, scale: nat)
    requires tail < Pow10(scale)
    ensures var text := Assemble(negative, Print(whole), Padded(tail, scale));
            && IsDecimal(text) && Scale(text) == scale && Negative(text) == negative
            && Coefficient(text) == Signed(negative, whole * Pow10(scale) + tail)
  {
    PrintIsCanonical(whole);
    AssembledNumber(negative, Print(whole), Padded(tail, scale));
    DigitsValue(whole, tail, scale);
  }

  lemma DigitsValue(whole: nat, tail: nat, scale: nat)
    requires tail < Pow10(scale)
    ensures AllDigits(Print(whole) + Padded(tail, scale))
    ensures Value(Print(whole) + Padded(tail, scale)) == whole * Pow10(scale) + tail
  {
    PrintIsCanonical(whole);
    var digits := Padded(tail, scale);
    ValueOfConcat(Print(whole), digits);
  }

  /** The printed digits are those of |value| * 10^scale, rounded. */
  lemma FloatStringDigits(value: Rat, scale: nat)
    requires value.den > 0
    ensures var text := FloatString(value, scale);
            && IsDecimal(text) && Scale(text) == scale && Negative(text) == (value.num < 0)
            && Coefficient(text) == Signed(value.num < 0, RoundedQuotient(Abs(value.num) * Pow10(scale), value.den))
  {
    RenderedDigits(value.num < 0, Abs(value.num) / value.den,
                   FractionDigits(Abs(value.num), value.den, Pow10(scale)), scale);
    SplitRounding(Abs(value.num), value.den, Pow10(scale));
  }

  /** Rounding n*p/d is rounding the part of n below d and carrying the rest. */
  lemma SplitRounding(n: nat, d: nat, p: nat)
    requires d > 0 && p > 0
    ensures RoundedQuotient(n * p, d) == (n / d) * p + FractionDigits(n, d, p)
  {
    var q, rest := n / d, n % d;
    var m := rest * p;
    var a, b := m / d, m % d;
    assert n == d * q + rest && m == d * a + b;
    calc {
      n * p;
      (d * q + rest) * p;
      (d * q) * p + m;
      { assert (d * q) * p == d * (q * p); }
      d * (q * p) + (d * a + b);
      d * (q * p + a) + b;
    }
    Quotient(d, q * p + a, b);
  }

  /** At a scale where the value is integral the text denotes the value itself. */
  lemma FloatStringExact(value: Rat, scale: nat)
    requires value.den > 0 && IntegralAt(value, scale)
    ensures IsDecimal(FloatString(value, scale)) && Exact(FloatString(value, scale)) == value.Val()
  {
    var n :| IsScaledBy(value, scale, n);
    ScaledByCross(value, scale, n);
    FloatStringDigits(value, scale);
    SignedProducts(value.num, Pow10(scale), n, value.den);
    CrossToReal(value.num, value.den, n, Pow10(scale));
  }

  lemma SignedProducts(a: int, p: int, n: int, d: int)
    requires p > 0 && d > 0 && a * p == n * d
    ensures RoundedQuotient(Abs(a) * p, d) == Abs(n)
    ensures a < 0 <==> n < 0
  {
    ProductOrder(p, a);
    ProductOrder(d, n);
    assert a * p == p * a && n * d == d * n;
    assert Abs(a) * p == d * Abs(n) by {
      if a < 0 {
        assert (-a) * p == -(a * p) && d * (-n) == -(n * d);
      }
    }
    Quotient(d, Abs(n), 0);
  }

  /** The printed number is within half a unit of the last of its scale digits. */
  ghost predicate WithinHalfUnit(printed: real, value: real, scale: nat) {
    Near(printed, value, Pow10(scale))
  }

  ghost predicate Near(printed: real, value: real, unit: int) {
    -0.5 <= (printed - value) * unit as real <= 0.5
  }

  /** At any scale the text is at most half a unit of the last digit away. */
  lemma FloatStringNearest(value: Rat, scale: nat)
    requires value.den > 0
    ensures IsDecimal(FloatString(value, scale))
    ensures WithinHalfUnit(Exact(FloatString(value, scale)), value.Val(), scale)
  {
    FloatStringDigits(value, scale);
    NearestFraction(Coefficient(FloatString(value, scale)), value.num, Pow10(scale), value.den);
  }

  lemma NearestFraction(c: int, a: int, p: int, d: int)
    requires d > 0 && p > 0 && c == Signed(a < 0, RoundedQuotient(Abs(a) * p, d))
    ensures Near(c as real / p as real, a as real / d as real, p)
  {
    NearestInteger(c, a, p, d);
    HalfUnit(c, a, p, d);
  }

  predicate Close(c: int, a: int, p: int, d: int) {
    -d <= 2 * (c * d - a * p) <= d
  }

  lemma NearestInteger(c: int, a: int, p: int, d: int)
    requires d > 0 && p > 0 && c == Signed(a < 0, RoundedQuotient(Abs(a) * p, d))
    ensures Close(c, a, p, d)
  {
    RoundedIsNear(Abs(a) * p, d);
    SignedDistance(c, a, p, d);
  }

  lemma RoundedIsNear(m: nat, d: int)
    requires d > 0
    ensures -d <= 2 * (d * RoundedQuotient(m, d) - m) <= d
  {
    var q, r := m / d, m % d;
    assert m == d * q + r && 0 <= r < d;
    assert d * (q + 1) == d * q + d;
  }

  lemma SignedDistance(c: int, a: int, p: int, d: int)
    requires if a < 0 then c <= 0 else c >= 0
    requires -d <= 2 * (d * Abs(c) - Abs(a) * p) <= d
    ensures -d <= 2 * (c * d - a * p) <= d
  {
    if a < 0 {
      assert d * (-c) == -(c * d) && (-a) * p == -(a * p);
    }
  }

  lemma HalfUnit(c: int, a: int, p: int, d: int)
    requires p > 0 && d > 0 && Close(c, a, p, d)
    ensures Near(c as real / p as real, a as real / d as real, p)
  {
    assert (c * d) as real == c as real * d as real;
    assert (a * p) as real == a as real * p as real;
    HalfUnitOfReals(c as real, a as real, p as real, d as real);
  }

  lemma HalfUnitOfReals(c: real, a: real, p: real, d: real)
    requires p > 0.0 && d > 0.0 && -d <= 2.0 * (c * d - a * p) <= d
    ensures -0.5 <= (c / p - a / d) * p <= 0.5
  {
    var y := a / d;
    var off := c - y * p;
    CommonDenominator(c, a, c / p, y, p, d);
    ScaleOrder(off, 0.5, d);
    ScaleOrder(-0.5, off, d);
  }

  lemma CommonDenominator(c: real, a: real, x: real, y: real, p: real, d: real)
    requires x * p == c && y * d == a
    ensures (x - y) * p == c - y * p
    ensures (c - y * p) * d == c * d - a * p
  {
    assert (c - y * p) * d == c * d - (y * d) * p;
  }

  lemma {:induction false} IntegralAboveIntegral(value: Rat, k: nat, scale: nat)
    requires value.den > 0 && k <= scale && IntegralAt(value, k)
    ensures IntegralAt(value, scale)
    decreases scale - k
  {
    if k == scale {
    } else {
      var n :| IsScaledBy(value, k, n);
      assert value.Val() * Pow10(k + 1) as real == (value.Val() * Pow10(k) as real) * 10.0;
      assert IsScaledBy(value, k + 1, 10 * n);
      IntegralAboveIntegral(value, k + 1, scale);
    }
  }
}
