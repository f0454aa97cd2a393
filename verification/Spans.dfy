/** Character spans of an original (internal/address/address.go). */
module Spans {
  import opened Octets
  import opened Seqs
  import opened Utf8

  datatype Result = Text(bytes: seq<byte>) | SpanOutOfRange

  /** The byte offset of each segment, and the length. */
  function Offsets(o: seq<byte>, from: nat): (offsets: seq<nat>)
    requires from <= |o|
    ensures offsets != []
    decreases |o| - from
  {
    if from == |o| then [from] else [from] + Offsets(o, from + DecodeRune(o[from..]).1)
  }

  /** runeByteOffsets */
  method RuneByteOffsets(original: seq<byte>) returns (offsets: seq<nat>)
    ensures offsets == Offsets(original, 0)
  {
    offsets := [];
    var i := 0;
    while i < |original|
      invariant i <= |original| && offsets + Offsets(original, i) == Offsets(original, 0)
    {
      Concat(offsets, [i], Offsets(original, i + DecodeRune(original[i..]).1));
      offsets := offsets + [i];
      var size := DecodeRune(original[i..]).1;
      i := i + size;
    }
    offsets := offsets + [|original|];
  }

  function TextSpanOf(o: seq<byte>, start: int, end: int): Result {
    var offsets := Offsets(o, 0);
    if start < 0 || end < start || end >= |offsets| then SpanOutOfRange
    else
      OffsetsIncrease(o, 0, start, end);
      Text(o[offsets[start]..offsets[end]])
  }

  /** textSpan */
  method TextSpan(original: seq<byte>, start: int, end: int) returns (span: Result)
    ensures span == TextSpanOf(original, start, end)
  {
    if start < 0 || end < start {
      return SpanOutOfRange;
    }
    var offsets := RuneByteOffsets(original);
    if end >= |offsets| {
      return SpanOutOfRange;
    }
    OffsetsIncrease(original, 0, start, end);
    return Text(original[offsets[start]..offsets[end]]);
  }

  /** For any bytes the table is strictly increasing from its start to the length. */
  lemma {:induction false} OffsetsIncrease(o: seq<byte>, from: nat, i: nat, j: nat)
    requires from <= |o| && i <= j < |Offsets(o, from)|
    ensures Offsets(o, from)[0] == from && Offsets(o, from)[|Offsets(o, from)| - 1] == |o|
    ensures Offsets(o, from)[i] <= Offsets(o, from)[j] <= |o| && (i < j ==> Offsets(o, from)[i] < Offsets(o, from)[j])
    decreases |o| - from
  {
    if from == |o| {
    } else {
      var next := from + DecodeRune(o[from..]).1;
      if i > 0 {
        OffsetsIncrease(o, next, i - 1, j - 1);
      } else {
        OffsetsIncrease(o, next, 0, if j > 0 then j - 1 else 0);
      }
    }
  }

  /** The table tiles the buffer: from one entry to the next is one rune or malformed byte. */
  lemma {:induction false} OffsetsTile(o: seq<byte>, from: nat, i: nat)
    requires from <= |o| && i + 1 < |Offsets(o, from)|
    ensures var offsets := Offsets(o, from);
            offsets[i] < |o| && offsets[i + 1] == offsets[i] + DecodeRune(o[offsets[i]..]).1
    decreases |o| - from
  {
    var next := from + DecodeRune(o[from..]).1;
    if i > 0 {
      OffsetsTile(o, next, i - 1);
    } else {
      FirstOffset(o, next);
    }
  }

  lemma FirstOffset(o: seq<byte>, from: nat)
    requires from <= |o|
    ensures Offsets(o, from)[0] == from
  {
  }

  lemma OneMoreRune(o: seq<byte>, from: nat)
    requires from < |o|
    ensures |Decode(o[from..])| == 1 + |Decode(o[from + DecodeRune(o[from..]).1..])|
  {
    DropMore(o, from, DecodeRune(o[from..]).1);
  }

  lemma {:induction false} OffsetsCountSegments(o: seq<byte>, from: nat)
    requires from <= |o|
    ensures |Offsets(o, from)| == |Decode(o[from..])| + 1
    decreases |o| - from
  {
    if from == |o| {
      assert o[from..] == [];
    } else {
      OneMoreRune(o, from);
      OffsetsCountSegments(o, from + DecodeRune(o[from..]).1);
    }
  }

  ghost predicate EncodesTo(t: seq<byte>, m: int, k: nat) {
    && AllScalars(Decode(t)) && k <= |Decode(t)| && 0 <= m <= |t|
    && t[..m] == Encode(Decode(t)[..k])
  }

  lemma OffsetsStep(o: seq<byte>, from: nat, k: nat)
    requires from < |o| && 0 < k < |Offsets(o, from)|
    ensures var next := from + DecodeRune(o[from..]).1;
            && k - 1 < |Offsets(o, next)| && Offsets(o, from)[k] == Offsets(o, next)[k - 1]
            && next <= Offsets(o, from)[k] <= |o|
  {
    OffsetsIncrease(o, from + DecodeRune(o[from..]).1, 0, k - 1);
  }

  lemma ValidTail(t: seq<byte>)
    requires Valid(t) && t != []
    ensures RuneSize(t) > 0 && DecodeRune(t).1 == RuneSize(t) && Valid(t[RuneSize(t)..])
  {
  }

  lemma ZeroEncodes(t: seq<byte>)
    requires Valid(t)
    ensures EncodesTo(t, 0, 0) && AllScalars(Decode(t))
  {
    EncodeOfDecode(t);
  }

  /** The k-th entry of the table from a position on, with the bytes there. */
  ghost predicate EntryAt(o: seq<byte>, from: nat, t: seq<byte>, k: nat, entry: nat) {
    && from <= |o| && t == o[from..] && Valid(t)
    && k < |Offsets(o, from)| && entry == Offsets(o, from)[k]
  }

  /** One segment further: the rest of the original and the rest of the table. */
  lemma OneFurther(o: seq<byte>, from: nat, t: seq<byte>, k: nat, entry: nat) returns (n: nat, rest: seq<byte>)
    requires EntryAt(o, from, t, k, entry) && k > 0
    ensures n == RuneSize(t) > 0 && n <= |t| && rest == t[n..] && EntryAt(o, from + n, rest, k - 1, entry)
  {
    ValidTail(t);
    n, rest := RuneSize(t), t[RuneSize(t)..];
    DropMore(o, from, n);
    OffsetsStep(o, from, k);
  }

  lemma FirstEntry(o: seq<byte>, from: nat, t: seq<byte>, entry: nat)
    requires EntryAt(o, from, t, 0, entry)
    ensures entry == from && Valid(t)
  {
  }

  /** The bytes up to the k-th entry encode the first k code points. */
  lemma {:induction false} OffsetsEncode(o: seq<byte>, from: nat, t: seq<byte>, k: nat, entry: nat)
    requires EntryAt(o, from, t, k, entry)
    ensures EncodesTo(t, entry - from, k)
    decreases k
  {
    if k == 0 {
      FirstEntry(o, from, t, entry);
      ZeroEncodes(t);
    } else {
      var n, rest := OneFurther(o, from, t, k, entry);
      OffsetsEncode(o, from + n, rest, k - 1, entry);
      FirstRuneEncodes(t, n, rest, entry - (from + n), k);
    }
  }

  lemma FirstRuneEncodes(t: seq<byte>, n: nat, rest: seq<byte>, m: int, k: nat)
    requires RuneSize(t) == n > 0 && rest == t[n..] && k > 0 && EncodesTo(rest, m, k - 1)
    ensures EncodesTo(t, n + m, k)
  {
    var c := DecodeRune(t).0;
    DecodedEncodes(t);
    PrefixOfCons(c, Decode(rest), k);
    EncodeCons(c, Decode(rest)[..k - 1]);
    PrefixInTwo(t, n, n + m);
  }

  lemma {:induction false} EncodeAppend(a: seq<int>, b: seq<int>)
    requires AllScalars(a) && AllScalars(b)
    ensures AllScalars(a + b) && Encode(a + b) == Encode(a) + Encode(b)
  {
    if a == [] {
      assert a + b == b;
    } else {
      EncodeAppend(a[1..], b);
      assert a + b == [a[0]] + (a[1..] + b);
      EncodeCons(a[0], a[1..] + b);
      Concat(EncodeRune(a[0]), Encode(a[1..]), Encode(b));
    }
  }

  lemma CancelPrefix(o: seq<byte>, i: nat, j: nat, a: seq<byte>, b: seq<byte>)
    requires i <= j <= |o| && o[..i] == a && o[..j] == a + b
    ensures o[i..j] == b
  {
    assert o[i..j] == o[..j][i..];
  }

  /** The bytes between two entries encode the code points between them. */
  lemma SliceEncodes(o: seq<byte>, start: nat, end: nat)
    requires Valid(o) && start <= end < |Offsets(o, 0)| && |Offsets(o, 0)| == |Decode(o)| + 1
    ensures AllScalars(Decode(o)) && Offsets(o, 0)[start] <= Offsets(o, 0)[end] <= |o|
    ensures o[Offsets(o, 0)[start]..Offsets(o, 0)[end]] == Encode(Decode(o)[start..end])
  {
    var i, j := Offsets(o, 0)[start], Offsets(o, 0)[end];
    DropNothing(o);
    OffsetsIncrease(o, 0, start, end);
    OffsetsEncode(o, 0, o, start, i);
    OffsetsEncode(o, 0, o, end, j);
    PrefixThenSlice(Decode(o), start, end);
    EncodeAppend(Decode(o)[..start], Decode(o)[start..end]);
    CancelPrefix(o, i, j, Encode(Decode(o)[..start]), Encode(Decode(o)[start..end]));
  }

  /** On valid UTF-8 a span succeeds exactly for ordered bounds within the text, and is then the encoding of
      the code points between them. */
  lemma SpanIsEncodedSlice(o: seq<byte>, start: int, end: int)
    requires Valid(o)
    ensures TextSpanOf(o, start, end).Text? <==> 0 <= start <= end <= |Decode(o)|
    ensures TextSpanOf(o, start, end).Text? ==>
              AllScalars(Decode(o)) && TextSpanOf(o, start, end).bytes == Encode(Decode(o)[start..end])
  {
    DropNothing(o);
    OffsetsCountSegments(o, 0);
    if 0 <= start <= end <= |Decode(o)| {
      SliceEncodes(o, start, end);
    }
  }

  /** Adjacent spans of any bytes concatenate. */
  lemma SpansConcatenate(o: seq<byte>, i: nat, j: nat, k: nat)
    requires i <= j <= k < |Offsets(o, 0)|
    ensures TextSpanOf(o, i, j).Text? && TextSpanOf(o, j, k).Text? && TextSpanOf(o, i, k).Text?
    ensures TextSpanOf(o, i, j).bytes + TextSpanOf(o, j, k).bytes == TextSpanOf(o, i, k).bytes
  {
    OffsetsIncrease(o, 0, i, j);
    OffsetsIncrease(o, 0, j, k);
    AdjacentSlices(o, Offsets(o, 0)[i], Offsets(o, 0)[j], Offsets(o, 0)[k]);
  }
}
