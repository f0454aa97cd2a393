/** Coefficient and scale of exact sums and their canonical text (internal/analyticsource/scalar_sum.go). */
module ScalarDecimals {
  import opened Options
  import opened Arithmetic
  import opened Numerals
  import opened Decimals
  import opened Seqs

  /** scalarSumNumericCoefficient on a text the NUMERIC pattern accepts; a negative zero is refused. */
  function NumericCoefficient(text: string): Option<(int, nat)>
    requires IsDecimal(text)
  {
    var unsigned := Unsigned(text);
    var dot := IndexOf(unsigned, '.');
    var digits := if dot < |unsigned| then unsigned[..dot] + unsigned[dot + 1..] else unsigned;
    DigitsOfText(text);
    var scale := if dot < |unsigned| then |unsigned| - dot - 1 else 0;
    if Negative(text) then
      if Value(digits) == 0 then None else Some((0 - Value(digits), scale))
    else Some((Value(digits), scale))
  }

  lemma DigitsOfText(text: string)
    requires IsDecimal(text)
    ensures var unsigned := Unsigned(text);
            var dot := IndexOf(unsigned, '.');
            var digits := if dot < |unsigned| then unsigned[..dot] + unsigned[dot + 1..] else unsigned;
            digits == Whole(text) + Fraction(text) && AllDigits(digits)
  {
    var unsigned := Unsigned(text);
    if IndexOf(unsigned, '.') == |unsigned| {
      assert Whole(text) + Fraction(text) == unsigned;
    }
  }

  /** The coefficient and scale denote the text's number; only a negative zero has none. */
  lemma NumericCoefficientIsExact(text: string)
    requires IsDecimal(text)
    ensures NumericCoefficient(text).None? <==> Negative(text) && Coefficient(text) == 0
    ensures NumericCoefficient(text).Some? ==>
              var (c, s) := NumericCoefficient(text).value;
              s == Scale(text) && Exact(text) == c as real / Pow10(s) as real
  {
    DigitsOfText(text);
  }

  function TrimZeros(s: string): string {
    if s != "" && s[|s| - 1] == '0' then TrimZeros(s[..|s| - 1]) else s
  }

  /** The digits, with zeros in front until one stands before the point. */
  function PaddedDigits(digits: string, scale: nat): (padded: string)
    ensures |padded| > scale
  {
    if |digits| <= scale then Zeros(scale - |digits| + 1) + digits else digits
  }

  /** scalarSumDecimal */
  function ScalarSumDecimal(coefficient: int, scale: nat): string {
    if coefficient == 0 then "0"
    else
      var negative := coefficient < 0;
      var digits := Print(Abs(coefficient));
      var text :=
        if scale > 0 then
          var padded := PaddedDigits(digits, scale);
          var integerPart := padded[..|padded| - scale];
          var fraction := TrimZeros(padded[|padded| - scale..]);
          if fraction == "" then integerPart else integerPart + "." + fraction
        else digits;
      if negative then "-" + text else text
  }

  /** One form for every value: no leading zeros, no trailing fractional zeros, no negative zero. */
  predicate CanonicalDecimal(text: string) {
    && IsDecimal(text)
    && (Fraction(text) != "" ==> Fraction(text)[|Fraction(text)| - 1] != '0')
    && (Negative(text) ==> Coefficient(text) != 0)
  }

  // ----- uniqueness of the form -----

  lemma LastDigit(whole: string, fraction: string)
    requires AllDigits(whole) && AllDigits(fraction) && fraction != ""
    ensures AllDigits(whole + fraction) && Value(whole + fraction) % 10 == DigitOf(fraction[|fraction| - 1])
  {
    var s := whole + fraction;
    assert s[|s| - 1] == fraction[|fraction| - 1];
  }

  lemma CanonicalEndsNonzero(text: string)
    requires CanonicalDecimal(text) && Scale(text) > 0
    ensures Abs(Coefficient(text)) % 10 != 0
  {
    LastDigit(Whole(text), Fraction(text));
  }

  /** A multiple of ten cannot be the coefficient of a canonical fraction. */
  lemma ScaledUpIsNotCanonical(text: string, n: int, k: nat)
    requires CanonicalDecimal(text) && k < Scale(text)
    ensures Coefficient(text) != n * Pow10(Scale(text) - k)
  {
    CanonicalEndsNonzero(text);
    MultipleOfTen(n, Scale(text) - k);
  }

  lemma MultipleOfTen(n: int, k: nat)
    requires k > 0
    ensures Abs(n * Pow10(k)) % 10 == 0
  {
    var p, q := Pow10(k - 1), n * Pow10(k - 1);
    assert n * Pow10(k) == 10 * q by {
      assert n * (10 * p) == 10 * (n * p);
    }
  }

  lemma CrossMultiply(a: int, m: nat, b: int, n: nat)
    requires a as real / Pow10(m) as real == b as real / Pow10(n) as real
    ensures a * Pow10(n) == b * Pow10(m)
  {
    CrossToReal(a, Pow10(m), b, Pow10(n));
  }

  lemma SwapFactors(a: int, p: int, q: int)
    ensures a * (p * q) == p * (a * q)
  {
  }

  lemma CancelPowers(a: int, m: nat, b: int, n: nat)
    requires m <= n && a * Pow10(n) == b * Pow10(m)
    ensures b == a * Pow10(n - m)
  {
    Pow10Add(m, n - m);
    var p, q := Pow10(m), Pow10(n - m);
    SwapFactors(a, p, q);
    CancelLeft(p, a * q, b);
  }

  lemma SplitDigits(w: nat, f: nat, v: nat, g: nat, p: nat)
    requires p > 0 && f < p && g < p && w * p + f == v * p + g
    ensures w == v && f == g
  {
    Quotient(p, w, f);
    Quotient(p, v, g);
    assert p * w == w * p && p * v == v * p;
  }

  lemma SameDigits(w: string, f: string, v: string, g: string)
    requires Canonical(w) && Canonical(v) && AllDigits(f) && AllDigits(g) && |f| == |g|
    requires AllDigits(w + f) && AllDigits(v + g) && Value(w + f) == Value(v + g)
    ensures w == v && f == g
  {
    ValueOfConcat(w, f);
    ValueOfConcat(v, g);
    ValueBelow(f);
    ValueBelow(g);
    SplitDigits(Value(w), Value(f), Value(v), Value(g), Pow10(|f|));
    CanonicalIsPrint(w);
    CanonicalIsPrint(v);
    ValueIsInjective(f, g);
  }

  lemma CoefficientScaled(a: string, b: string)
    requires IsDecimal(a) && IsDecimal(b) && Exact(a) == Exact(b) && Scale(a) <= Scale(b)
    ensures Coefficient(b) == Coefficient(a) * Pow10(Scale(b) - Scale(a))
  {
    CrossMultiply(Coefficient(a), Scale(a), Coefficient(b), Scale(b));
    CancelPowers(Coefficient(a), Scale(a), Coefficient(b), Scale(b));
  }

  lemma SameScale(a: string, b: string)
    requires CanonicalDecimal(a) && CanonicalDecimal(b) && Exact(a) == Exact(b)
    ensures Scale(b) <= Scale(a)
  {
    if Scale(a) < Scale(b) {
      CoefficientScaled(a, b);
      ScaledUpIsNotCanonical(b, Coefficient(a), Scale(a));
      assert false;
    }
  }

  lemma SameCoefficient(a: string, b: string)
    requires CanonicalDecimal(a) && CanonicalDecimal(b) && Exact(a) == Exact(b)
    ensures Scale(a) == Scale(b) && Coefficient(a) == Coefficient(b)
  {
    SameScale(a, b);
    SameScale(b, a);
    CoefficientScaled(a, b);
    assert Pow10(0) == 1;
  }

  lemma SameText(a: string, b: string)
    requires CanonicalDecimal(a) && CanonicalDecimal(b) && Scale(a) == Scale(b) && Coefficient(a) == Coefficient(b)
    ensures a == b
  {
    SameDigits(Whole(a), Fraction(a), Whole(b), Fraction(b));
    PartsAssemble(a);
    PartsAssemble(b);
  }

  /** Two canonical decimals of one value are one text. */
  lemma CanonicalIsUnique(a: string, b: string)
    requires CanonicalDecimal(a) && CanonicalDecimal(b) && Exact(a) == Exact(b)
    ensures a == b
  {
    SameCoefficient(a, b);
    SameText(a, b);
  }

  /** A canonical decimal has the least scale at which its value is an integer. */
  lemma CanonicalIsLeastScale(text: string, n: int, k: nat)
    requires CanonicalDecimal(text) && Exact(text) == n as real / Pow10(k) as real
    ensures Scale(text) <= k
  {
    CrossMultiply(n, k, Coefficient(text), Scale(text));
    if k < Scale(text) {
      CancelPowers(n, k, Coefficient(text), Scale(text));
      ScaledUpIsNotCanonical(text, n, k);
      assert false;
    }
  }

  // ----- the printed form -----

  lemma {:induction false} Trimmed(s: string)
    requires AllDigits(s)
    ensures AllDigits(TrimZeros(s)) && |TrimZeros(s)| <= |s|
    ensures s == TrimZeros(s) + Zeros(|s| - |TrimZeros(s)|)
    ensures TrimZeros(s) != "" ==> TrimZeros(s)[|TrimZeros(s)| - 1] != '0'
  {
    if s == "" || s[|s| - 1] != '0' {
    } else {
      var front := s[..|s| - 1];
      Trimmed(front);
      var k := |front| - |TrimZeros(front)|;
      assert Zeros(k + 1) == Zeros(k) + "0";
      assert s == front + "0";
    }
  }

  lemma LeadingPart(digits: string, k: nat)
    requires Canonical(digits) && digits[0] != '0' && 0 < k <= |digits|
    ensures Canonical(digits[..k])
  {
  }

  /** The digits split at the scale: a canonical whole part and the raw fraction. */
  lemma PaddedParts(n: nat, scale: nat) returns (whole: string, raw: string)
    requires n > 0 && scale > 0
    ensures var padded := PaddedDigits(Print(n), scale);
            whole == padded[..|padded| - scale] && raw == padded[|padded| - scale..]
    ensures Canonical(whole) && AllDigits(raw) && |raw| == scale && AllDigits(whole + raw) && Value(whole + raw) == n
  {
    var digits := Print(n);
    PrintIsCanonical(n);
    var padded := PaddedDigits(digits, scale);
    PaddedValue(n, scale);
    whole, raw := padded[..|padded| - scale], padded[|padded| - scale..];
    SplitAt(padded, |padded| - scale);
    if |digits| > scale {
      LeadingPart(digits, |digits| - scale);
    } else {
      assert whole == "0";
    }
  }

  lemma PaddedValue(n: nat, scale: nat)
    requires n > 0
    ensures var padded := PaddedDigits(Print(n), scale);
            AllDigits(padded) && Value(padded) == n && (|Print(n)| <= scale ==> |padded| == scale + 1 && padded[0] == '0')
  {
    var digits := Print(n);
    PrintIsCanonical(n);
    if |digits| <= scale {
      ValueOfZeros(scale - |digits| + 1);
      ValueOfConcat(Zeros(scale - |digits| + 1), digits);
    }
  }

  /** Dropping the trailing zeros of the fraction divides by a power of ten. */
  lemma TrimmedValue(whole: string, raw: string)
    requires AllDigits(whole) && AllDigits(raw)
    ensures var fraction := TrimZeros(raw);
            && AllDigits(whole + fraction) && AllDigits(whole + raw) && |fraction| <= |raw|
            && Value(whole + raw) == Value(whole + fraction) * Pow10(|raw| - |fraction|)
  {
    var fraction := TrimZeros(raw);
    Trimmed(raw);
    var zeros := Zeros(|raw| - |fraction|);
    ValueOfZeros(|raw| - |fraction|);
    ValueOfConcat(whole, fraction);
    ValueOfConcat(whole + fraction, zeros);
    assert whole + raw == (whole + fraction) + zeros;
  }

  lemma Rearranged(m: int, p: int, q: int)
    ensures m * (p * q) == (m * q) * p
  {
  }

  lemma QuotientByFactor(n: int, m: int, p: int, q: int, r: int)
    requires p > 0 && q > 0 && r == p * q && n == m * q && r > 0
    ensures m as real / p as real == n as real / r as real
  {
    Rearranged(m, p, q);
    CrossToReal(m, p, n, r);
  }

  lemma SameQuotient(n: int, m: int, j: nat, scale: nat)
    requires j <= scale && n == m * Pow10(j)
    ensures m as real / Pow10(scale - j) as real == n as real / Pow10(scale) as real
  {
    Pow10Add(scale - j, j);
    QuotientByFactor(n, m, Pow10(scale - j), Pow10(j), Pow10(scale));
  }

  lemma NegatedProduct(a: int, b: int)
    ensures -(a * b) == (-a) * b
  {
  }

  /** The text of a sum: canonical, and its value is coefficient / 10^scale. */
  lemma ScalarSumDecimalIsCanonical(coefficient: int, scale: nat)
    ensures CanonicalDecimal(ScalarSumDecimal(coefficient, scale))
    ensures Exact(ScalarSumDecimal(coefficient, scale)) == coefficient as real / Pow10(scale) as real
  {
    if coefficient == 0 {
      AssembledNumber(false, "0", "");
      assert Assemble(false, "0", "") == "0";
      assert "0" + "" == "0" && Value("0") == 0;
    } else if scale == 0 {
      WholeText(coefficient);
    } else {
      FractionText(coefficient, scale);
    }
  }

  lemma WholeText(coefficient: int)
    requires coefficient != 0
    ensures CanonicalDecimal(ScalarSumDecimal(coefficient, 0))
    ensures Exact(ScalarSumDecimal(coefficient, 0)) == coefficient as real / Pow10(0) as real
  {
    var digits := Print(Abs(coefficient));
    PrintIsCanonical(Abs(coefficient));
    AssembledNumber(coefficient < 0, digits, "");
    AssembleParts(coefficient < 0, digits, "");
    assert digits + "" == digits;
    assert Assemble(coefficient < 0, digits, "") == ScalarSumDecimal(coefficient, 0);
  }

  lemma FractionText(coefficient: int, scale: nat)
    requires coefficient != 0 && scale > 0
    ensures CanonicalDecimal(ScalarSumDecimal(coefficient, scale))
    ensures Exact(ScalarSumDecimal(coefficient, scale)) == coefficient as real / Pow10(scale) as real
  {
    var negative := coefficient < 0;
    var whole, raw := PaddedParts(Abs(coefficient), scale);
    var fraction := TrimZeros(raw);
    Trimmed(raw);
    TrimmedValue(whole, raw);
    AssembledIs(coefficient, scale, whole, raw);
    var m := Value(whole + fraction);
    var j := scale - |fraction|;
    SignedCoefficient(coefficient, m, Pow10(j));
    AssembledIsCanonical(negative, whole, fraction);
    SameQuotient(coefficient, Signed(negative, m), j, scale);
    assert scale - j == |fraction|;
  }

  lemma AssembledIsCanonical(negative: bool, whole: string, fraction: string)
    requires Canonical(whole) && AllDigits(fraction) && AllDigits(whole + fraction) && Value(whole + fraction) != 0
    requires fraction != "" ==> fraction[|fraction| - 1] != '0'
    ensures var text := Assemble(negative, whole, fraction);
            && CanonicalDecimal(text) && Scale(text) == |fraction|
            && Coefficient(text) == Signed(negative, Value(whole + fraction))
  {
    AssembledNumber(negative, whole, fraction);
    AssembleParts(negative, whole, fraction);
  }

  lemma SignedCoefficient(coefficient: int, m: nat, p: nat)
    requires coefficient != 0 && Abs(coefficient) == m * p
    ensures coefficient == Signed(coefficient < 0, m) * p && m != 0
  {
    NegatedProduct(m, p);
  }

  lemma AssembledIs(coefficient: int, scale: nat, whole: string, raw: string)
    requires coefficient != 0 && scale > 0
    requires var padded := PaddedDigits(Print(Abs(coefficient)), scale);
             whole == padded[..|padded| - scale] && raw == padded[|padded| - scale..]
    ensures ScalarSumDecimal(coefficient, scale) == Assemble(coefficient < 0, whole, TrimZeros(raw))
  {
    var fraction := TrimZeros(raw);
    AssembleGroups(whole, fraction);
  }

  lemma AssembleGroups(whole: string, fraction: string)
    ensures Assemble(true, whole, fraction) == "-" + (if fraction == "" then whole else whole + "." + fraction)
    ensures Assemble(false, whole, fraction) == (if fraction == "" then whole else whole + "." + fraction)
  {
  }

  /** Two sums print alike if and only if they are the same number. */
  lemma PrintsAlikeIffEqual(c: int, s: nat, d: int, t: nat)
    ensures ScalarSumDecimal(c, s) == ScalarSumDecimal(d, t) <==> c * Pow10(t) == d * Pow10(s)
  {
    ScalarSumDecimalIsCanonical(c, s);
    ScalarSumDecimalIsCanonical(d, t);
    CrossToReal(c, Pow10(s), d, Pow10(t));
    if c * Pow10(t) == d * Pow10(s) {
      CanonicalIsUnique(ScalarSumDecimal(c, s), ScalarSumDecimal(d, t));
    }
  }

  /** n / 10^k is the number c / 10^s. */
  predicate WritesAt(n: int, k: nat, c: int, s: nat) {
    n * Pow10(s) == c * Pow10(k)
  }

  /** Re-parsing a printed sum gives the same number at the least scale that can write it. */
  lemma PrintedReparses(c: int, s: nat)
    ensures var text := ScalarSumDecimal(c, s);
            && IsDecimal(text) && NumericCoefficient(text).Some?
            && var (d, t) := NumericCoefficient(text).value;
            WritesAt(d, t, c, s) && forall n: int, k: nat :: WritesAt(n, k, c, s) ==> t <= k
  {
    var text := ScalarSumDecimal(c, s);
    ScalarSumDecimalIsCanonical(c, s);
    NumericCoefficientIsExact(text);
    var (d, t) := NumericCoefficient(text).value;
    CrossMultiply(d, t, c, s);
    forall n: int, k: nat | WritesAt(n, k, c, s) ensures t <= k {
      CrossToReal(n, Pow10(k), c, Pow10(s));
      CanonicalIsLeastScale(text, n, k);
    }
  }
}
