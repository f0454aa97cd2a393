/** Plain decimal texts: the language of
      ^-?(?:0|[1-9][0-9]*)(?:\.[0-9]+)?$
    (decimalPattern, scalarSumNumericPattern) and the number each text denotes. */
module Decimals {
  import opened Numerals

  /** strings.IndexByte, with the length of the text standing for "absent". */
  function IndexOf(s: string, c: char): (i: nat)
    ensures i <= |s|
    ensures i < |s| ==> s[i] == c
    ensures forall j :: 0 <= j < i ==> s[j] != c
  {
    if s == "" then 0 else if s[0] == c then 0 else 1 + IndexOf(s[1..], c)
  }

  function Unsigned(text: string): string {
    if text != "" && text[0] == '-' then text[1..] else text
  }

  predicate Negative(text: string) {
    text != "" && text[0] == '-'
  }

  function Whole(text: string): string {
    Unsigned(text)[..IndexOf(Unsigned(text), '.')]
  }

  function Fraction(text: string): string {
    var body := Unsigned(text);
    var dot := IndexOf(body, '.');
    if dot < |body| then body[dot + 1..] else ""
  }

  predicate HasPoint(text: string) {
    IndexOf(text, '.') < |text|
  }

  /** decimalPattern.MatchString */
  predicate IsDecimal(text: string) {
    && Canonical(Whole(text))
    && AllDigits(Fraction(text))
    && (HasPoint(Unsigned(text)) ==> Fraction(text) != "")
  }

  /** The integer obtained by deleting the point. */
  function Coefficient(text: string): int
    requires IsDecimal(text)
  {
    Signed(Negative(text), Value(Whole(text) + Fraction(text)))
  }

  function Signed(negative: bool, magnitude: int): int {
    if negative then -magnitude else magnitude
  }

  /** The number of digits after the point. */
  function Scale(text: string): nat {
    |Fraction(text)|
  }

  /** The rational number the text denotes. */
  function Exact(text: string): real
    requires IsDecimal(text)
  {
    Coefficient(text) as real / Pow10(Scale(text)) as real
  }

  function Assemble(negative: bool, whole: string, fraction: string): string {
    (if negative then "-" else "") + whole + (if fraction == "" then "" else "." + fraction)
  }

  lemma IndexOfAt(s: string, c: char, k: nat)
    requires k <= |s| && (k < |s| ==> s[k] == c) && forall j :: 0 <= j < k ==> s[j] != c
    ensures IndexOf(s, c) == k
  {
  }

  /** Assembling and taking apart are inverse. */
  lemma AssembleParts(negative: bool, whole: string, fraction: string)
    requires Canonical(whole) && AllDigits(fraction)
    ensures var text := Assemble(negative, whole, fraction);
            && Negative(text) == negative && Whole(text) == whole && Fraction(text) == fraction
            && IsDecimal(text)
  {
    var text := Assemble(negative, whole, fraction);
    var body := whole + (if fraction == "" then "" else "." + fraction);
    assert Unsigned(text) == body;
    IndexOfAt(body, '.', |whole|);
    assert body[..|whole|] == whole;
    if fraction != "" {
      assert body[|whole| + 1..] == fraction;
    }
  }

  /** The number an assembled text denotes. */
  lemma AssembledNumber(negative: bool, whole: string, fraction: string)
    requires Canonical(whole) && AllDigits(fraction)
    ensures var text := Assemble(negative, whole, fraction);
            && IsDecimal(text) && Negative(text) == negative && Scale(text) == |fraction|
            && Coefficient(text) == Signed(negative, Value(whole + fraction))
  {
    AssembleParts(negative, whole, fraction);
  }

  lemma PartsAssemble(text: string)
    requires IsDecimal(text)
    ensures Assemble(Negative(text), Whole(text), Fraction(text)) == text
  {
    var body := Unsigned(text);
    var dot := IndexOf(body, '.');
    if dot < |body| {
      assert body == body[..dot] + "." + body[dot + 1..];
    }
  }

  /** decimalScale reads the scale from the position of the point in the signed text. */
  function DecimalScale(text: string): (scale: nat)
    ensures scale == Scale(text)
  {
    var index := IndexOf(text, '.');
    assert index < |text| ==> IndexOf(Unsigned(text), '.') + (|text| - |Unsigned(text)|) == index by {
      if Negative(text) && index < |text| { IndexOfAt(text[1..], '.', index - 1); }
    }
    assert index == |text| ==> IndexOf(Unsigned(text), '.') == |Unsigned(text)| by {
      if Negative(text) && index == |text| { IndexOfAt(text[1..], '.', index - 1); }
    }
    if index < |text| then |text| - index - 1 else 0
  }
}
