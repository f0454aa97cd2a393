/** UTF-8: the encoding of section 3 and the well-formed octet sequences of section 4 of RFC 3629,
    and Go's utf8.DecodeRune on them. */
module Utf8 {
  import opened Octets
  import opened Seqs

  /** A Unicode scalar value. */
  predicate IsScalar(c: int) {
    0 <= c < 0xd800 || 0xe000 <= c < 0x11_0000
  }

  predicate IsTail(b: byte) {
    0x80 <= b < 0xc0
  }

  /** utf8.RuneStart */
  predicate RuneStart(b: byte) {
    !IsTail(b)
  }

  /** The first byte of the octets of one scalar value. */
  function EncodeRune(c: int): (s: seq<byte>)
    requires IsScalar(c)
    ensures 1 <= |s| <= 4
  {
    if c < 0x80 then [c as byte]
    else if c < 0x800 then [(0xc0 + c / 64) as byte, (0x80 + c % 64) as byte]
    else if c < 0x1_0000 then [(0xe0 + c / 4096) as byte, (0x80 + c / 64 % 64) as byte, (0x80 + c % 64) as byte]
    else [(0xf0 + c / 262144) as byte, (0x80 + c / 4096 % 64) as byte, (0x80 + c / 64 % 64) as byte, (0x80 + c % 64) as byte]
  }

  predicate SecondOfThree(a: byte, b: byte) {
    if a == 0xe0 then 0xa0 <= b < 0xc0 else if a == 0xed then 0x80 <= b < 0xa0 else IsTail(b)
  }

  predicate SecondOfFour(a: byte, b: byte) {
    if a == 0xf0 then 0x90 <= b < 0xc0 else if a == 0xf4 then 0x80 <= b < 0x90 else IsTail(b)
  }

  /** The length of the well-formed sequence at the front, or 0 if there is none. */
  function RuneSize(s: seq<byte>): (n: nat)
    ensures n <= 4 && n <= |s|
  {
    if s == [] then 0
    else if s[0] < 0x80 then 1
    else if |s| >= 2 && 0xc2 <= s[0] < 0xe0 && IsTail(s[1]) then 2
    else if |s| >= 3 && 0xe0 <= s[0] < 0xf0 && SecondOfThree(s[0], s[1]) && IsTail(s[2]) then 3
    else if |s| >= 4 && 0xf0 <= s[0] < 0xf5 && SecondOfFour(s[0], s[1]) && IsTail(s[2]) && IsTail(s[3]) then 4
    else 0
  }

  const RUNE_ERROR := 0xfffd

  /** The scalar value a well-formed sequence of the given length stands for. */
  function RuneValue(s: seq<byte>, n: nat): int
    requires 1 <= n <= 4 && n <= |s|
  {
    if n == 1 then s[0] as int
    else if n == 2 then (s[0] as int - 0xc0) * 64 + (s[1] as int - 0x80)
    else if n == 3 then (s[0] as int - 0xe0) * 4096 + (s[1] as int - 0x80) * 64 + (s[2] as int - 0x80)
    else (s[0] as int - 0xf0) * 262144 + (s[1] as int - 0x80) * 4096 + (s[2] as int - 0x80) * 64 + (s[3] as int - 0x80)
  }

  /** utf8.DecodeRune: a malformed front decodes to RuneError of width one, an empty one to width zero. */
  function DecodeRune(s: seq<byte>): (r: (int, nat))
    ensures r.1 <= |s| && (s != [] ==> r.1 >= 1)
  {
    if s == [] then (RUNE_ERROR, 0)
    else if RuneSize(s) == 0 then (RUNE_ERROR, 1)
    else (RuneValue(s, RuneSize(s)), RuneSize(s))
  }

  predicate Valid(s: seq<byte>)
    decreases |s|
  {
    s == [] || (RuneSize(s) > 0 && Valid(s[RuneSize(s)..]))
  }

  // ----- one rune -----

  lemma Bits2(c: int)
    requires 0x80 <= c < 0x800
    ensures 2 <= c / 64 < 32 && 0 <= c % 64 < 64 && c == c / 64 * 64 + c % 64
  {
  }

  lemma Bits3(c: int)
    requires 0x800 <= c < 0x1_0000 && IsScalar(c)
    ensures var x, y, z := c / 4096, c / 64 % 64, c % 64;
            && 0 <= x < 16 && 0 <= y < 64 && 0 <= z < 64 && c == x * 4096 + y * 64 + z
            && (x == 0 ==> y >= 32) && (x == 13 ==> y < 32)
  {
  }

  lemma Bits4(c: int)
    requires 0x1_0000 <= c < 0x11_0000
    ensures var w, x, y, z := c / 262144, c / 4096 % 64, c / 64 % 64, c % 64;
            && 0 <= w < 5 && 0 <= x < 64 && 0 <= y < 64 && 0 <= z < 64
            && c == w * 262144 + x * 4096 + y * 64 + z && (w == 0 ==> x >= 16) && (w == 4 ==> x < 16)
  {
  }

  /** The octets of a scalar value are well-formed and stand for it. */
  lemma EncodedIsWellFormed(c: int)
    requires IsScalar(c)
    ensures RuneSize(EncodeRune(c)) == |EncodeRune(c)| && RuneValue(EncodeRune(c), |EncodeRune(c)|) == c
  {
    if c < 0x80 {
    } else if c < 0x800 {
      Bits2(c);
    } else if c < 0x1_0000 {
      Bits3(c);
    } else {
      Bits4(c);
    }
  }

  /** So they are whatever follows them. */
  lemma EncodedDecodes(c: int, rest: seq<byte>)
    requires IsScalar(c)
    ensures RuneSize(EncodeRune(c) + rest) == |EncodeRune(c)|
    ensures DecodeRune(EncodeRune(c) + rest) == (c, |EncodeRune(c)|)
  {
    var head := EncodeRune(c);
    EncodedIsWellFormed(c);
    assert (head + rest)[..|head|] == head;
    SizeOfPrefix(head + rest, |head|);
    ValueOfPrefix(head + rest, |head|);
  }

  lemma ValueOfPrefix(s: seq<byte>, n: nat)
    requires 1 <= n <= 4 && n <= |s|
    ensures RuneValue(s[..n], n) == RuneValue(s, n)
  {
  }

  /** A well-formed front is the encoding of the scalar value it stands for. */
  lemma DecodedEncodes(s: seq<byte>)
    requires RuneSize(s) > 0
    ensures var (c, n) := DecodeRune(s); IsScalar(c) && EncodeRune(c) == s[..n]
  {
    var (c, n) := DecodeRune(s);
    if n == 3 {
      Digits3(s[0] as int - 0xe0, s[1] as int - 0x80, s[2] as int - 0x80);
    } else if n == 4 {
      Digits4(s[0] as int - 0xf0, s[1] as int - 0x80, s[2] as int - 0x80, s[3] as int - 0x80);
    }
  }

  lemma Digits3(x: int, y: int, z: int)
    requires 0 <= x < 16 && 0 <= y < 64 && 0 <= z < 64
    ensures var c := x * 4096 + y * 64 + z; c / 4096 == x && c / 64 % 64 == y && c % 64 == z
  {
  }

  lemma Digits4(w: int, x: int, y: int, z: int)
    requires 0 <= w < 5 && 0 <= x < 64 && 0 <= y < 64 && 0 <= z < 64
    ensures var c := w * 262144 + x * 4096 + y * 64 + z;
            c / 262144 == w && c / 4096 % 64 == x && c / 64 % 64 == y && c % 64 == z
  {
  }

  /** The size of the front depends only on its own octets. */
  lemma SizeOfPrefix(s: seq<byte>, k: nat)
    requires k <= |s|
    ensures RuneSize(s) > 0 && RuneSize(s) <= k ==> RuneSize(s[..k]) == RuneSize(s)
    ensures RuneSize(s[..k]) > 0 ==> RuneSize(s) == RuneSize(s[..k])
  {
  }

  /** Within a rune only its first octet is a rune start. */
  lemma InsideRune(s: seq<byte>, k: nat)
    requires k < RuneSize(s)
    ensures RuneStart(s[k]) <==> k == 0
  {
  }

  // ----- texts -----

  ghost predicate AllScalars(text: seq<int>) {
    forall i :: 0 <= i < |text| ==> IsScalar(text[i])
  }

  function Encode(text: seq<int>): seq<byte>
    requires AllScalars(text)
  {
    if text == [] then [] else EncodeRune(text[0]) + Encode(text[1..])
  }

  function Decode(s: seq<byte>): seq<int>
    decreases |s|
  {
    if s == [] then [] else [DecodeRune(s).0] + Decode(s[DecodeRune(s).1..])
  }

  /** Decoding undoes encoding. */
  lemma {:induction false} DecodeOfEncode(text: seq<int>)
    requires AllScalars(text)
    ensures Valid(Encode(text)) && Decode(Encode(text)) == text
  {
    if text == [] {
    } else {
      DecodeOfEncode(text[1..]);
      var head, rest := EncodeRune(text[0]), Encode(text[1..]);
      EncodedDecodes(text[0], rest);
      assert (head + rest)[|head|..] == rest;
      assert text == [text[0]] + text[1..];
    }
  }

  /** Encoding undoes decoding on valid UTF-8. */
  lemma {:induction false} EncodeOfDecode(s: seq<byte>)
    requires Valid(s)
    ensures AllScalars(Decode(s)) && Encode(Decode(s)) == s
    decreases |s|
  {
    if s == [] {
    } else {
      var n := RuneSize(s);
      EncodeOfDecode(s[n..]);
      DecodedEncodes(s);
      EncodeCons(DecodeRune(s).0, Decode(s[n..]));
      SplitAt(s, n);
    }
  }

  lemma EncodeCons(c: int, rest: seq<int>)
    requires IsScalar(c) && AllScalars(rest)
    ensures AllScalars([c] + rest) && Encode([c] + rest) == EncodeRune(c) + Encode(rest)
  {
    assert ([c] + rest)[1..] == rest;
  }

  // ----- boundaries -----

  /** Position k splits s between two of its runes. */
  predicate Boundary(s: seq<byte>, k: nat)
    requires k <= |s|
  {
    Valid(s[..k]) && Valid(s[k..])
  }

  lemma {:induction false} ValidSplits(s: seq<byte>, k: nat)
    requires Valid(s) && RuneSize(s) <= k <= |s|
    ensures Valid(s[..k]) <==> Valid(s[RuneSize(s)..][..k - RuneSize(s)])
  {
    if s == [] {
    } else {
      var n := RuneSize(s);
      SizeOfPrefix(s, k);
      assert s[..k][n..] == s[n..][..k - n];
    }
  }

  /** In valid UTF-8 the boundaries are the rune starts and the end. */
  lemma {:induction false} BoundaryIsStart(s: seq<byte>, k: nat)
    requires Valid(s) && k <= |s|
    ensures Boundary(s, k) <==> k == |s| || RuneStart(s[k])
    decreases |s|
  {
    var n := RuneSize(s);
    if k == 0 {
      assert s[..0] == [] && s[0..] == s;
      if s != [] {
        InsideRune(s, 0);
      }
    } else if k < n {
      InsideRune(s, k);
      assert s[k..] != [] && RuneSize(s[k..]) == 0;
    } else {
      BoundaryIsStart(s[n..], k - n);
      ValidSplits(s, k);
      assert s[n..][k - n..] == s[k..];
    }
  }

  /** Between two boundaries lies valid UTF-8, and boundaries of a part are boundaries of the whole. */
  lemma {:induction false} BetweenBoundaries(s: seq<byte>, i: nat, j: nat)
    requires Valid(s) && i <= j <= |s| && Boundary(s, i) && Boundary(s, j)
    ensures Valid(s[i..j])
  {
    var t := s[i..];
    assert t[j - i..] == s[j..] && t[..j - i] == s[i..j];
    if i < |s| && j < |s| {
      BoundaryIsStart(s, j);
      BoundaryIsStart(t, j - i);
      assert t[j - i] == s[j];
    } else if j == |s| {
      assert t[..j - i] == t;
    }
  }
}
