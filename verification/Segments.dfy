/** The runes and malformed bytes that utf8.DecodeRune steps through, front to back. */
module Segments {
  import opened Octets
  import opened Seqs
  import opened Utf8

  /** Position k is where DecodeRune starts a rune or a malformed byte when it walks the whole original. */
  predicate SegmentStart(o: seq<byte>, k: nat)
    requires k <= |o|
    decreases |o|
  {
    k == 0 || (k >= DecodeRune(o).1 && SegmentStart(o[DecodeRune(o).1..], k - DecodeRune(o).1))
  }

  /** No continuation byte stands outside a well-formed rune. */
  predicate NoStrayTail(o: seq<byte>)
    decreases |o|
  {
    o == [] || (RuneStart(o[0]) && NoStrayTail(o[DecodeRune(o).1..]))
  }

  lemma {:induction false} ValidHasNoStrayTail(o: seq<byte>)
    requires Valid(o)
    ensures NoStrayTail(o)
    decreases |o|
  {
    if o == [] {
    } else {
      InsideRune(o, 0);
      ValidHasNoStrayTail(o[RuneSize(o)..]);
    }
  }

  /** Without stray tails the segment starts are the rune starts. */
  lemma {:induction false} StartsAreSegmentStarts(o: seq<byte>, k: nat)
    requires NoStrayTail(o) && k < |o|
    ensures RuneStart(o[k]) <==> SegmentStart(o, k)
    decreases |o|
  {
    var n := DecodeRune(o).1;
    if 0 < k < n {
      InsideRune(o, k);
    } else if k >= n {
      StartsAreSegmentStarts(o[n..], k - n);
      assert o[n..][k - n] == o[k];
    }
  }

  /** The segment after a segment start begins at a segment start. */
  lemma {:induction false} NextSegment(o: seq<byte>, k: nat)
    requires k <= |o| && SegmentStart(o, k)
    ensures SegmentStart(o, k + DecodeRune(o[k..]).1)
    decreases |o|
  {
    var n := DecodeRune(o).1;
    if k == 0 {
      DropNothing(o);
      assert SegmentStart(o[n..], 0);
    } else {
      DropTwice(o, n, k);
      NextSegment(o[n..], k - n);
    }
  }

  /** In valid UTF-8 the segment starts are the boundaries. */
  lemma {:induction false} SegmentsAreBoundaries(o: seq<byte>, k: nat)
    requires Valid(o) && k <= |o|
    ensures SegmentStart(o, k) <==> Boundary(o, k)
    decreases |o|
  {
    BoundaryIsStart(o, k);
    ValidHasNoStrayTail(o);
    if k < |o| {
      StartsAreSegmentStarts(o, k);
    } else {
      EndIsSegmentStart(o);
    }
  }

  lemma {:induction false} EndIsSegmentStart(o: seq<byte>)
    ensures SegmentStart(o, |o|)
    decreases |o|
  {
    if o == [] {
    } else {
      EndIsSegmentStart(o[DecodeRune(o).1..]);
    }
  }

  /** The segments that start before k start at rune starts. */
  predicate NoStrayTailBefore(o: seq<byte>, k: nat)
    requires k <= |o|
    decreases |o|
  {
    k == 0 || (RuneStart(o[0]) && (k <= DecodeRune(o).1 || NoStrayTailBefore(o[DecodeRune(o).1..], k - DecodeRune(o).1)))
  }

  lemma {:induction false} SegmentsUpTo(o: seq<byte>, k: nat)
    requires k < |o| && SegmentStart(o, k) && NoStrayTailBefore(o, k) && RuneStart(o[k])
    ensures NoStrayTailBefore(o, k + DecodeRune(o[k..]).1)
    decreases |o|
  {
    var n := DecodeRune(o).1;
    if k == 0 {
      DropNothing(o);
    } else {
      DropTwice(o, n, k);
      assert o[n..][k - n] == o[k];
      SegmentsUpTo(o[n..], k - n);
    }
  }

  lemma {:induction false} NoStrayTailToEnd(o: seq<byte>)
    requires NoStrayTailBefore(o, |o|)
    ensures NoStrayTail(o)
    decreases |o|
  {
    if o == [] || DecodeRune(o).1 == |o| {
    } else {
      NoStrayTailToEnd(o[DecodeRune(o).1..]);
    }
  }

  lemma SecondIsTail(s: seq<byte>)
    ensures RuneSize(s) > 1 ==> IsTail(s[1])
  {
  }
}
