/** Paged reads of an original (internal/address/address.go). */
module Paging {
  import opened Octets
  import opened Seqs
  import opened GoText
  import opened Utf8
  import opened Segments
  import Address

  datatype Error = InvalidLimit | InvalidCursor

  datatype Result<T> = Ok(value: T) | Err(error: Error)

  datatype Page = Page(data: seq<byte>, offset: nat, totalBytes: nat, wholeHash: string,
                       nextCursor: string, hasMore: bool, complete: bool)

  // ----- one page -----

  function ParseCursor(cursor: string): Result<nat> {
    if cursor == "" then Ok(0)
    else if !HasPrefix(cursor, "v1:") then Err(InvalidCursor)
    else
      match Address.Atoi(cursor[3..])
      case None => Err(InvalidCursor)
      case Some(offset) => if offset < 0 then Err(InvalidCursor) else Ok(offset)
  }

  /** The next rune start at or after k. */
  function SkipTails(o: seq<byte>, k: nat): (r: nat)
    requires k <= |o|
    ensures k <= r <= |o| && (r < |o| ==> RuneStart(o[r])) && forall i :: k <= i < r ==> IsTail(o[i])
    decreases |o| - k
  {
    if k < |o| && !RuneStart(o[k]) then SkipTails(o, k + 1) else k
  }

  /** The last rune start at or before end, but not before start. */
  function SnapBack(o: seq<byte>, start: nat, end: nat): (r: nat)
    requires start <= end <= |o|
    ensures start <= r <= end && (r == start || r == |o| || RuneStart(o[r]))
    ensures forall i :: r < i <= end && i < |o| ==> IsTail(o[i])
  {
    if end > start && end < |o| && !RuneStart(o[end]) then SnapBack(o, start, end - 1) else end
  }

  function EndOfPage(o: seq<byte>, start: nat, limit: int): (end: nat)
    requires start <= |o| && limit >= 1
    ensures start <= end <= |o| && (start < |o| ==> start < end)
  {
    var end := SnapBack(o, start, if start + limit > |o| then |o| else start + limit);
    if end == start && start < |o| then start + DecodeRune(o[start..]).1 else end
  }

  function PageOf(o: seq<byte>, cursor: string, limit: int, hash: seq<byte> -> string): Result<Page> {
    if limit < 1 then Err(InvalidLimit)
    else
      match ParseCursor(cursor)
      case Err(e) => Err(e)
      case Ok(offset) =>
        if offset > |o| then Err(InvalidCursor)
        else
          var start := SkipTails(o, offset);
          var end := EndOfPage(o, start, limit);
          Ok(Page(o[start..end], start, |o|, hash(o), if end < |o| then "v1:" + Address.Itoa(end) else "", end < |o|, end >= |o|))
  }

  /** pageEnd */
  method PageEnd(original: seq<byte>, start: nat, limit: int) returns (end: nat)
    requires start <= |original| && limit >= 1
    ensures end == EndOfPage(original, start, limit)
  {
    var total := |original|;
    end := start + limit;
    if end > total {
      end := total;
    }
    ghost var clamped := end;
    while end > start && end < total && !RuneStart(original[end])
      invariant start <= end <= clamped
      invariant SnapBack(original, start, end) == SnapBack(original, start, clamped)
    {
      end := end - 1;
    }
    if end == start && start < total {
      var size := DecodeRune(original[start..]).1;
      end := start + size;
    }
  }

  /** Read */
  method Read(original: seq<byte>, cursor: string, limit: int, hash: seq<byte> -> string) returns (result: Result<Page>)
    ensures result == PageOf(original, cursor, limit, hash)
  {
    if limit < 1 {
      return Err(InvalidLimit);
    }
    var parsed := ParseCursor(cursor);
    if parsed.Err? {
      return Err(parsed.error);
    }
    var offset, total := parsed.value, |original|;
    if offset > total {
      return Err(InvalidCursor);
    }
    while offset < total && !RuneStart(original[offset])
      invariant offset <= total && SkipTails(original, offset) == SkipTails(original, parsed.value)
    {
      offset := offset + 1;
    }
    var end := PageEnd(original, offset, limit);
    var more := end < total;
    return Ok(Page(original[offset..end], offset, total, hash(original),
                   if more then "v1:" + Address.Itoa(end) else "", more, !more));
  }

  // ----- walks -----

  /** A page ends where a segment starts. */
  lemma PageEndsAtSegment(o: seq<byte>, start: nat, limit: int)
    requires NoStrayTail(o) && start <= |o| && SegmentStart(o, start) && limit >= 1
    ensures SegmentStart(o, EndOfPage(o, start, limit))
    ensures SkipTails(o, EndOfPage(o, start, limit)) == EndOfPage(o, start, limit)
  {
    var end := EndOfPage(o, start, limit);
    NextSegment(o, start);
    EndIsSegmentStart(o);
    if end < |o| {
      StartsAreSegmentStarts(o, end);
    }
  }

  function CursorAt(pages: seq<Page>, k: nat): string
    requires k <= |pages|
  {
    if k == 0 then "" else pages[k - 1].nextCursor
  }

  ghost predicate PageAt(o: seq<byte>, limits: seq<int>, hash: seq<byte> -> string, pages: seq<Page>, k: int)
    requires 0 <= k < |pages| == |limits|
  {
    && 0 < limits[k] && |o| + limits[k] <= Address.MAX_INT
    && PageOf(o, CursorAt(pages, k), limits[k], hash) == Ok(pages[k])
    && (k + 1 < |pages| ==> pages[k].hasMore)
  }

  /** Pages read one after the other from the empty cursor, each following the one before. */
  ghost predicate IsWalk(o: seq<byte>, limits: seq<int>, hash: seq<byte> -> string, pages: seq<Page>) {
    |pages| == |limits| > 0 && forall k {:trigger PageAt(o, limits, hash, pages, k)} :: 0 <= k < |pages| ==> PageAt(o, limits, hash, pages, k)
  }

  function Data(pages: seq<Page>): seq<byte> {
    if pages == [] then [] else Data(pages[..|pages| - 1]) + pages[|pages| - 1].data
  }

  function EndOf(page: Page): nat {
    page.offset + |page.data|
  }

  /** The position the k-th page is asked to start at. */
  function AskedAt(pages: seq<Page>, k: nat): nat
    requires k <= |pages|
  {
    if k == 0 then 0 else EndOf(pages[k - 1])
  }

  lemma CursorParses(end: nat)
    requires end <= Address.MAX_INT
    ensures ParseCursor("v1:" + Address.Itoa(end)) == Ok(end)
  {
    Address.CanonicalInt(end);
    assert ("v1:" + Address.Itoa(end))[3..] == Address.Itoa(end);
    assert HasPrefix("v1:" + Address.Itoa(end), "v1:");
  }

  /** The page read from a position: it starts at the first rune start there. */
  ghost predicate ReadFrom(o: seq<byte>, asked: nat, limit: int, hash: seq<byte> -> string, page: Page) {
    && asked <= |o| && limit >= 1
    && var start, end := SkipTails(o, asked), EndOf(page);
    && end == EndOfPage(o, start, limit) && page.offset == start && page.data == o[start..end]
    && page.hasMore == (end < |o|) && page.complete == (end == |o|)
    && page.nextCursor == (if end < |o| then "v1:" + Address.Itoa(end) else "")
    && page.wholeHash == hash(o) && page.totalBytes == |o|
  }

  lemma PageFromCursor(o: seq<byte>, cursor: string, asked: nat, limit: int, hash: seq<byte> -> string, page: Page)
    requires ParseCursor(cursor) == Ok(asked) && PageOf(o, cursor, limit, hash) == Ok(page)
    ensures ReadFrom(o, asked, limit, hash, page)
  {
  }

  lemma NextCursorParses(o: seq<byte>, asked: nat, limit: int, hash: seq<byte> -> string, page: Page)
    requires ReadFrom(o, asked, limit, hash, page) && page.hasMore && |o| <= Address.MAX_INT
    ensures asked < EndOf(page) < |o| && ParseCursor(page.nextCursor) == Ok(EndOf(page))
  {
    CursorParses(EndOf(page));
  }

  /** A page that has more leaves a cursor from which the next page can be read with any limit that
      fits the machine integer when added to the length. */
  lemma CursorContinues(o: seq<byte>, asked: nat, limit: int, hash: seq<byte> -> string, page: Page)
    requires ReadFrom(o, asked, limit, hash, page) && page.hasMore && |o| <= Address.MAX_INT
    ensures asked < EndOf(page) < |o| && ParseCursor(page.nextCursor) == Ok(EndOf(page))
    ensures forall next :: 0 < next && |o| + next <= Address.MAX_INT ==> PageOf(o, page.nextCursor, next, hash).Ok?
  {
    NextCursorParses(o, asked, limit, hash, page);
  }

  /** Where the k-th page is asked to start, its cursor says. */
  ghost predicate AsksAt(pages: seq<Page>, k: nat)
    requires k <= |pages|
  {
    ParseCursor(CursorAt(pages, k)) == Ok(AskedAt(pages, k))
  }

  lemma NextAsksAt(o: seq<byte>, asked: nat, limit: int, hash: seq<byte> -> string, pages: seq<Page>, k: nat)
    requires 0 < k <= |pages| && ReadFrom(o, asked, limit, hash, pages[k - 1]) && pages[k - 1].hasMore && |o| <= Address.MAX_INT
    ensures AsksAt(pages, k)
  {
    NextCursorParses(o, asked, limit, hash, pages[k - 1]);
  }

  lemma FirstAsksAt(pages: seq<Page>)
    ensures AsksAt(pages, 0)
  {
  }

  /** The k-th page is read from where the page before ended, and moves on unless it is the last. */
  ghost predicate FollowsAt(o: seq<byte>, limits: seq<int>, hash: seq<byte> -> string, pages: seq<Page>, k: nat)
    requires k < |pages| == |limits|
  {
    && ReadFrom(o, AskedAt(pages, k), limits[k], hash, pages[k])
    && (k + 1 < |pages| ==> pages[k].hasMore && AskedAt(pages, k) < EndOf(pages[k]) < |o|)
  }

  lemma FollowsFromCursor(o: seq<byte>, limits: seq<int>, hash: seq<byte> -> string, pages: seq<Page>, k: nat)
    requires IsWalk(o, limits, hash, pages) && k < |pages| && AsksAt(pages, k)
    ensures FollowsAt(o, limits, hash, pages, k)
  {
    assert PageAt(o, limits, hash, pages, k);
    PageAtReads(o, limits, hash, pages, k, AskedAt(pages, k));
  }

  lemma CursorFromFollows(o: seq<byte>, limits: seq<int>, hash: seq<byte> -> string, pages: seq<Page>, k: nat)
    requires IsWalk(o, limits, hash, pages) && 0 < k < |pages| && FollowsAt(o, limits, hash, pages, k - 1)
    ensures AsksAt(pages, k)
  {
    assert PageAt(o, limits, hash, pages, k);
    NextAsksAt(o, AskedAt(pages, k - 1), limits[k - 1], hash, pages, k);
  }

  lemma {:induction false} EveryPageFollows(o: seq<byte>, limits: seq<int>, hash: seq<byte> -> string, pages: seq<Page>, k: nat)
    requires IsWalk(o, limits, hash, pages) && k < |pages|
    ensures FollowsAt(o, limits, hash, pages, k)
  {
    if k == 0 {
      FirstAsksAt(pages);
    } else {
      EveryPageFollows(o, limits, hash, pages, k - 1);
      CursorFromFollows(o, limits, hash, pages, k);
    }
    FollowsFromCursor(o, limits, hash, pages, k);
  }

  /** The k-th page of a walk is read from where the page before ended. */
  lemma PageFollows(o: seq<byte>, limits: seq<int>, hash: seq<byte> -> string, pages: seq<Page>, k: nat)
    requires IsWalk(o, limits, hash, pages) && k < |pages|
    ensures ReadFrom(o, AskedAt(pages, k), limits[k], hash, pages[k])
    ensures k + 1 < |pages| ==> pages[k].hasMore && AskedAt(pages, k) < EndOf(pages[k]) < |o|
  {
    EveryPageFollows(o, limits, hash, pages, k);
  }

  lemma PageAtReads(o: seq<byte>, limits: seq<int>, hash: seq<byte> -> string, pages: seq<Page>, k: nat, asked: nat)
    requires k < |pages| == |limits| && PageAt(o, limits, hash, pages, k) && ParseCursor(CursorAt(pages, k)) == Ok(asked)
    ensures ReadFrom(o, asked, limits[k], hash, pages[k])
    ensures k + 1 < |pages| ==> pages[k].hasMore && asked < EndOf(pages[k]) < |o|
  {
    PageFromCursor(o, CursorAt(pages, k), asked, limits[k], hash, pages[k]);
  }

  /** Every page moves on, so a walk has at most as many pages as the original has bytes, or one. */
  lemma {:induction false} WalkTerminates(o: seq<byte>, limits: seq<int>, hash: seq<byte> -> string, pages: seq<Page>, k: nat)
    requires IsWalk(o, limits, hash, pages) && k < |pages|
    ensures k <= AskedAt(pages, k) && k < if o == [] then 1 else |o|
  {
    if k == 0 {
    } else {
      WalkTerminates(o, limits, hash, pages, k - 1);
      PageFollows(o, limits, hash, pages, k - 1);
    }
  }

  /** An unfinished walk can be continued with any limit. */
  lemma WalkContinues(o: seq<byte>, limits: seq<int>, hash: seq<byte> -> string, pages: seq<Page>, limit: int) returns (page: Page)
    requires IsWalk(o, limits, hash, pages) && pages[|pages| - 1].hasMore && 0 < limit && |o| + limit <= Address.MAX_INT
    ensures IsWalk(o, limits + [limit], hash, pages + [page])
  {
    var n := |pages|;
    PageFollows(o, limits, hash, pages, n - 1);
    CursorContinues(o, AskedAt(pages, n - 1), limits[n - 1], hash, pages[n - 1]);
    page := PageOf(o, pages[n - 1].nextCursor, limit, hash).value;
    forall k | 0 <= k < n + 1 ensures PageAt(o, limits + [limit], hash, pages + [page], k) {
      PageAtSnoc(o, limits, hash, pages, limit, page, k);
    }
  }

  lemma PageAtSnoc(o: seq<byte>, limits: seq<int>, hash: seq<byte> -> string, pages: seq<Page>, limit: int, page: Page, k: nat)
    requires IsWalk(o, limits, hash, pages) && pages[|pages| - 1].hasMore && 0 < limit && |o| + limit <= Address.MAX_INT
    requires PageOf(o, pages[|pages| - 1].nextCursor, limit, hash) == Ok(page) && k <= |pages|
    ensures PageAt(o, limits + [limit], hash, pages + [page], k)
  {
    var more := pages + [page];
    if k < |pages| {
      assert PageAt(o, limits, hash, pages, k);
      assert CursorAt(more, k) == CursorAt(pages, k) && more[k] == pages[k];
    } else {
      assert CursorAt(more, k) == pages[k - 1].nextCursor && more[k] == page;
    }
  }

  lemma FrontOfWalk(o: seq<byte>, limits: seq<int>, hash: seq<byte> -> string, pages: seq<Page>, n: nat)
    requires IsWalk(o, limits, hash, pages) && 0 < n <= |pages|
    ensures IsWalk(o, limits[..n], hash, pages[..n])
  {
    forall k | 0 <= k < n ensures PageAt(o, limits[..n], hash, pages[..n], k) {
      assert PageAt(o, limits, hash, pages, k);
    }
  }

  /** Without stray tails the pages so far are the original so far, and the walk stands at a segment. */
  lemma {:induction false} PagesConcatenate(o: seq<byte>, limits: seq<int>, hash: seq<byte> -> string, pages: seq<Page>)
    requires NoStrayTail(o) && IsWalk(o, limits, hash, pages)
    ensures EndOf(pages[|pages| - 1]) <= |o| && Data(pages) == o[..EndOf(pages[|pages| - 1])]
    ensures SegmentStart(o, EndOf(pages[|pages| - 1]))
    ensures SkipTails(o, EndOf(pages[|pages| - 1])) == EndOf(pages[|pages| - 1])
    ensures pages[|pages| - 1].offset == AskedAt(pages, |pages| - 1) && SegmentStart(o, pages[|pages| - 1].offset)
    decreases |pages|
  {
    var n := |pages| - 1;
    var asked := AskedAt(pages, n);
    PageFollows(o, limits, hash, pages, n);
    if n == 0 {
      assert Data(pages) == Data([]) + pages[0].data;
      StartOfClean(o);
    } else {
      FrontOfWalk(o, limits, hash, pages, n);
      PagesConcatenate(o, limits[..n], hash, pages[..n]);
      assert pages[..n][n - 1] == pages[n - 1];
      PrefixThenSlice(o, asked, EndOf(pages[n]));
    }
    PageEndsAtSegment(o, asked, limits[n]);
  }

  lemma StartOfClean(o: seq<byte>)
    requires NoStrayTail(o)
    ensures SkipTails(o, 0) == 0 && SegmentStart(o, 0)
  {
  }

  /** A page says whether it is complete, carries the hash of the whole, is valid UTF-8, and exceeds its
      limit only by being a single rune. */
  ghost predicate PageIsText(o: seq<byte>, limit: int, hash: seq<byte> -> string, page: Page, last: bool) {
    && Valid(page.data) && page.wholeHash == hash(o) && page.complete == !page.hasMore == last
    && (|page.data| <= limit || RuneSize(page.data) == |page.data|)
  }

  /** A walk that was read to the end. */
  ghost predicate FinishedWalk(o: seq<byte>, limits: seq<int>, hash: seq<byte> -> string, pages: seq<Page>) {
    IsWalk(o, limits, hash, pages) && !pages[|pages| - 1].hasMore
  }

  /** Reading an original without stray tails to the end gives back its bytes; if it is valid UTF-8, every page
      is, and only the last page is complete. */
  lemma WalkReproduces(o: seq<byte>, limits: seq<int>, hash: seq<byte> -> string, pages: seq<Page>)
    requires NoStrayTail(o) && FinishedWalk(o, limits, hash, pages)
    ensures Data(pages) == o
    ensures Valid(o) ==> forall k :: 0 <= k < |pages| ==> PageIsText(o, limits[k], hash, pages[k], k == |pages| - 1)
  {
    PagesConcatenate(o, limits, hash, pages);
    PageFollows(o, limits, hash, pages, |pages| - 1);
    WholePrefix(o);
    if Valid(o) {
      forall k | 0 <= k < |pages| ensures PageIsText(o, limits[k], hash, pages[k], k == |pages| - 1) {
        EveryPageIsText(o, limits, hash, pages, k);
      }
    }
  }

  lemma EveryPageIsText(o: seq<byte>, limits: seq<int>, hash: seq<byte> -> string, pages: seq<Page>, k: nat)
    requires Valid(o) && IsWalk(o, limits, hash, pages) && k < |pages|
    requires k == |pages| - 1 ==> !pages[k].hasMore
    ensures PageIsText(o, limits[k], hash, pages[k], k == |pages| - 1)
  {
    PageStartsAtAsked(o, limits, hash, pages, k);
    PageFollows(o, limits, hash, pages, k);
    PageFromBoundary(o, pages[k].offset, limits[k]);
  }

  lemma PageStartsAtAsked(o: seq<byte>, limits: seq<int>, hash: seq<byte> -> string, pages: seq<Page>, k: nat)
    requires Valid(o) && IsWalk(o, limits, hash, pages) && k < |pages|
    ensures pages[k].offset == AskedAt(pages, k) <= |o| && Boundary(o, pages[k].offset)
  {
    ValidHasNoStrayTail(o);
    FrontOfWalk(o, limits, hash, pages, k + 1);
    PagesConcatenate(o, limits[..k + 1], hash, pages[..k + 1]);
    assert pages[..k + 1][k] == pages[k];
    SegmentsAreBoundaries(o, pages[k].offset);
  }

  /** A page of a valid original that starts at a boundary is valid, and over its limit only as a single rune. */
  lemma PageFromBoundary(o: seq<byte>, start: nat, limit: int)
    requires Valid(o) && start <= |o| && Boundary(o, start) && limit >= 1
    ensures var end := EndOfPage(o, start, limit);
            Valid(o[start..end]) && (end - start <= limit || RuneSize(o[start..end]) == end - start)
  {
    var end := EndOfPage(o, start, limit);
    ValidHasNoStrayTail(o);
    SegmentsAreBoundaries(o, start);
    PageEndsAtSegment(o, start, limit);
    SegmentsAreBoundaries(o, end);
    BetweenBoundaries(o, start, end);
    PageSize(o, start, limit);
  }

  /** A page over its limit is a single rune. */
  lemma PageSize(o: seq<byte>, start: nat, limit: int)
    requires start <= |o| && Valid(o[start..]) && limit >= 1
    ensures var end := EndOfPage(o, start, limit);
            end - start <= limit || RuneSize(o[start..end]) == end - start
  {
    var end := EndOfPage(o, start, limit);
    if end - start > limit {
      var n := RuneSize(o[start..]);
      assert end == start + n && o[start..][..n] == o[start..end];
      SizeOfPrefix(o[start..], n);
    }
  }
}
