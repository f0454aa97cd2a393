/** Which originals paged reads give back: those without a continuation byte outside a rune
    (internal/address/address.go). */
module LosslessPages {
  import opened Octets
  import opened Utf8
  import opened Segments
  import opened Paging

  ghost predicate AllOnes(limits: seq<int>) {
    forall i :: 0 <= i < |limits| ==> limits[i] == 1
  }

  function Total(pages: seq<Page>): nat {
    if pages == [] then 0 else Total(pages[..|pages| - 1]) + |pages[|pages| - 1].data|
  }

  lemma {:induction false} DataLength(pages: seq<Page>)
    ensures |Data(pages)| == Total(pages)
  {
    if pages == [] {
    } else {
      DataLength(pages[..|pages| - 1]);
    }
  }

  /** Pages never overlap: their bytes are no more than the bytes passed. */
  lemma {:induction false} TotalIsBounded(o: seq<byte>, limits: seq<int>, hash: seq<byte> -> string, pages: seq<Page>)
    requires IsWalk(o, limits, hash, pages)
    ensures Total(pages) <= EndOf(pages[|pages| - 1]) <= |o|
    ensures Total(pages) == EndOf(pages[|pages| - 1]) ==>
              Total(pages[..|pages| - 1]) == pages[|pages| - 1].offset == AskedAt(pages, |pages| - 1)
    decreases |pages|
  {
    var n := |pages| - 1;
    PageFollows(o, limits, hash, pages, n);
    if n == 0 {
    } else {
      FrontOfWalk(o, limits, hash, pages, n);
      TotalIsBounded(o, limits[..n], hash, pages[..n]);
      assert pages[..n][n - 1] == pages[n - 1];
    }
  }

  /** With limit one a page is one segment. */
  lemma OneSegment(o: seq<byte>, start: nat)
    requires start < |o|
    ensures EndOfPage(o, start, 1) == start + DecodeRune(o[start..]).1
  {
    SecondIsTail(o[start..]);
    if start + 1 < |o| {
      assert o[start..][1] == o[start + 1];
    }
  }

  /** If a one-byte walk has lost nothing so far, no stray tail was passed. */
  lemma {:induction false} NothingLostSoFar(o: seq<byte>, limits: seq<int>, hash: seq<byte> -> string, pages: seq<Page>)
    requires IsWalk(o, limits, hash, pages) && AllOnes(limits) && Total(pages) == EndOf(pages[|pages| - 1])
    ensures EndOf(pages[|pages| - 1]) <= |o|
    ensures NoStrayTailBefore(o, EndOf(pages[|pages| - 1])) && SegmentStart(o, EndOf(pages[|pages| - 1]))
    decreases |pages|
  {
    var n := |pages| - 1;
    PageFollows(o, limits, hash, pages, n);
    TotalIsBounded(o, limits, hash, pages);
    var start := pages[n].offset;
    if n > 0 {
      FrontOfWalk(o, limits, hash, pages, n);
      assert pages[..n][n - 1] == pages[n - 1];
      NothingLostSoFar(o, limits[..n], hash, pages[..n]);
    }
    if start < |o| {
      OneSegment(o, start);
      SegmentsUpTo(o, start);
      NextSegment(o, start);
    }
  }

  /** A finished walk in pages of limit one that loses nothing has met no stray tail. */
  lemma LosslessHasNoStrayTail(o: seq<byte>, limits: seq<int>, hash: seq<byte> -> string, pages: seq<Page>)
    requires FinishedWalk(o, limits, hash, pages) && AllOnes(limits) && Data(pages) == o
    ensures NoStrayTail(o)
  {
    PageFollows(o, limits, hash, pages, |pages| - 1);
    DataLength(pages);
    TotalIsBounded(o, limits, hash, pages);
    NothingLostSoFar(o, limits, hash, pages);
    NoStrayTailToEnd(o);
  }

  /** A walk in pages of limit one can be read on to the end. */
  lemma {:induction false} OneByteWalkEnds(o: seq<byte>, limits: seq<int>, hash: seq<byte> -> string, pages: seq<Page>)
    returns (allLimits: seq<int>, all: seq<Page>)
    requires IsWalk(o, limits, hash, pages) && AllOnes(limits) && |o| + 1 <= Address.MAX_INT
    ensures FinishedWalk(o, allLimits, hash, all) && AllOnes(allLimits)
    decreases |o| + 1 - |pages|
  {
    if !pages[|pages| - 1].hasMore {
      allLimits, all := limits, pages;
    } else {
      var page := WalkContinues(o, limits, hash, pages, 1);
      WalkTerminates(o, limits + [1], hash, pages + [page], |pages|);
      allLimits, all := OneByteWalkEnds(o, limits + [1], hash, pages + [page]);
    }
  }

  lemma FirstPage(o: seq<byte>, hash: seq<byte> -> string) returns (page: Page)
    requires |o| + 1 <= Address.MAX_INT
    ensures IsWalk(o, [1], hash, [page])
  {
    page := PageOf(o, "", 1, hash).value;
    assert PageAt(o, [1], hash, [page], 0);
  }

  /** Whatever the limits, reading to the end gives back the original. */
  ghost predicate AlwaysLossless(o: seq<byte>, hash: seq<byte> -> string) {
    forall limits, pages :: FinishedWalk(o, limits, hash, pages) ==> Data(pages) == o
  }

  /** Every finished walk gives back the original if and only if every continuation byte of it belongs to a
      well-formed rune. */
  lemma LosslessExactly(o: seq<byte>, hash: seq<byte> -> string)
    requires |o| + 1 <= Address.MAX_INT
    ensures AlwaysLossless(o, hash) <==> NoStrayTail(o)
  {
    if NoStrayTail(o) {
      forall limits, pages | FinishedWalk(o, limits, hash, pages) ensures Data(pages) == o {
        WalkReproduces(o, limits, hash, pages);
      }
    }
    if AlwaysLossless(o, hash) {
      var page := FirstPage(o, hash);
      var limits, pages := OneByteWalkEnds(o, [1], hash, [page]);
      LosslessHasNoStrayTail(o, limits, hash, pages);
    }
  }

  /** FF 80 80 read in pages of limit one comes back as FF. */
  lemma StrayTailsAreLost(hash: seq<byte> -> string) returns (pages: seq<Page>)
    ensures IsWalk([0xff, 0x80, 0x80], [1, 1], hash, pages) && !pages[1].hasMore && Data(pages) == [0xff]
  {
    var o: seq<byte> := [0xff, 0x80, 0x80];
    var limits := [1, 1];
    var first := PageOf(o, "", 1, hash).value;
    assert o[0..] == o && EndOfPage(o, 0, 1) == 1 && first.data == [0xff];
    CursorParses(1);
    assert SkipTails(o, 1) == 3;
    var second := PageOf(o, first.nextCursor, 1, hash).value;
    assert second.data == [];
    pages := [first, second];
    assert PageAt(o, limits, hash, pages, 0) && PageAt(o, limits, hash, pages, 1);
    assert Data(pages) == Data(pages[..1]) + [] && Data(pages[..1]) == Data(pages[..1][..0]) + [0xff];
  }
}
