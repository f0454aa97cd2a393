/** ListPage (internal/conversation/service.go): keyset pages over a changing table of conversations. */
module ConversationPages {
  import opened Sets
  import opened Options
  import opened Seqs
  import opened GoText
  import opened Sorting

  const MAX_PAGE := 50

  datatype ErrorCode = Invalid | Denied

  datatype Result<T> = Ok(value: T) | Err(code: ErrorCode)

  /** A conversation of the workspace by what orders it: the id is unique and the creation time never changes. */
  datatype Row = Row(id: string, createdAt: int)

  datatype Page = Page(conversations: seq<Row>, nextCursor: string)

  predicate ValidOpaque(value: string) {
    && 3 <= |value| <= 128
    && forall i :: 0 <= i < |value| ==>
                     'a' <= value[i] <= 'z' || 'A' <= value[i] <= 'Z' || '0' <= value[i] <= '9' || value[i] in "_-.:"
  }

  /** 3 to 128 letters, digits or one of - . : _, by code. */
  lemma ValidOpaqueExactly(value: string)
    ensures ValidOpaque(value) <==>
            && 3 <= |value| <= 128
            && forall c :: c in value ==> (var n := c as int; 48 <= n <= 58 || 65 <= n <= 90 || 97 <= n <= 122 || n == 45 || n == 46 || n == 95)
  {
    forall i | 0 <= i < |value|
      ensures 'a' <= value[i] <= 'z' || 'A' <= value[i] <= 'Z' || '0' <= value[i] <= '9' || value[i] in "_-.:"
         <==> (var n := value[i] as int; 48 <= n <= 58 || 65 <= n <= 90 || 97 <= n <= 122 || n == 45 || n == 46 || n == 95)
    {
      OpaqueCode(value[i]);
    }
    assert forall i :: 0 <= i < |value| ==> value[i] in value;
  }

  lemma OpaqueCode(c: char)
    ensures 'a' <= c <= 'z' || 'A' <= c <= 'Z' || '0' <= c <= '9' || c in "_-.:"
       <==> (var n := c as int; 48 <= n <= 58 || 65 <= n <= 90 || 97 <= n <= 122 || n == 45 || n == 46 || n == 95)
  {
    assert c in "_-.:" <==> c == '_' || c == '-' || c == '.' || c == ':';
  }

  /** ORDER BY created_at DESC, id DESC */
  predicate Newer(a: Row, b: Row) {
    a.createdAt > b.createdAt || (a.createdAt == b.createdAt && Less(b.id, a.id))
  }

  lemma NewerIsStrictOrder()
    ensures StrictOrder(Newer)
    ensures forall a: Row, b: Row :: a.id != b.id ==> Newer(a, b) || Newer(b, a)
  {
    LessIsStrictOrder();
  }

  ghost predicate UniqueIds(rows: seq<Row>) {
    forall i, j :: 0 <= i < j < |rows| ==> rows[i].id != rows[j].id
  }

  /** The rows a page may draw on: all, or those after the cursor row. */
  function After(rows: seq<Row>, bound: Option<Row>): seq<Row> {
    if rows == [] then []
    else
      var last := rows[|rows| - 1];
      After(rows[..|rows| - 1], bound) + if bound.None? || Newer(bound.value, last) then [last] else []
  }

  /** The query: the first n of them in order. */
  function Query(rows: seq<Row>, bound: Option<Row>, n: nat): seq<Row> {
    var sorted := Sort(After(rows, bound), Newer);
    if |sorted| <= n then sorted else sorted[..n]
  }

  function Find(rows: seq<Row>, id: string): Option<Row> {
    if rows == [] then None
    else if rows[|rows| - 1].id == id then Some(rows[|rows| - 1])
    else Find(rows[..|rows| - 1], id)
  }

  function Clamped(limit: int): nat {
    if limit <= 0 || limit > MAX_PAGE then MAX_PAGE else limit
  }

  function PageFrom(views: seq<Row>, limit: nat): Page
    requires limit > 0
  {
    if |views| > limit then Page(views[..limit], views[limit - 1].id) else Page(views, "")
  }

  function PageOf(rows: seq<Row>, visible: bool, limit: int, cursor: string): Result<Page> {
    if cursor == "" then Ok(PageFrom(Query(rows, None, Clamped(limit) + 1), Clamped(limit)))
    else if !ValidOpaque(cursor) then Err(Invalid)
    else if !visible then Err(Denied)
    else if Find(rows, cursor).None? then Err(Invalid)
    else Ok(PageFrom(Query(rows, Find(rows, cursor), Clamped(limit) + 1), Clamped(limit)))
  }

  /** ListPage on the table its transaction sees. */
  method ListPage(rows: seq<Row>, visible: bool, limit: int, cursor: string) returns (result: Result<Page>)
    ensures result == PageOf(rows, visible, limit, cursor)
  {
    var size := limit;
    if size <= 0 || size > MAX_PAGE {
      size := MAX_PAGE;
    }
    var hasCursor := cursor != "";
    if hasCursor && !ValidOpaque(cursor) {
      return Err(Invalid);
    }
    var bound: Option<Row> := None;
    if hasCursor {
      if !visible {
        return Err(Denied);
      }
      bound := Find(rows, cursor);
      if bound.None? {
        return Err(Invalid);
      }
    }
    var found := Query(rows, bound, size + 1);
    var views: seq<Row> := [];
    for i := 0 to |found|
      invariant views == found[..i]
    {
      PrefixSnoc(found, i);
      views := views + [found[i]];
    }
    WholePrefix(found);
    var nextCursor := "";
    if |views| > size {
      nextCursor := views[size - 1].id;
      views := views[..size];
    }
    return Ok(Page(views, nextCursor));
  }

  // ----- one page -----

  lemma {:induction false} AfterElements(rows: seq<Row>, bound: Option<Row>)
    ensures forall r :: r in After(rows, bound) <==> r in rows && (bound.None? || Newer(bound.value, r))
  {
    if rows == [] {
    } else {
      AfterElements(rows[..|rows| - 1], bound);
      SplitAt(rows, |rows| - 1);
      assert rows == rows[..|rows| - 1] + [rows[|rows| - 1]];
    }
  }

  lemma {:induction false} AfterIsUnique(rows: seq<Row>, bound: Option<Row>)
    requires UniqueIds(rows)
    ensures UniqueIds(After(rows, bound))
  {
    if rows == [] {
    } else {
      var front, last := rows[..|rows| - 1], rows[|rows| - 1];
      AfterIsUnique(front, bound);
      AfterElements(front, bound);
      forall r | r in After(front, bound) ensures r.id != last.id {
        var i :| 0 <= i < |front| && front[i] == r;
        assert rows[i].id == r.id;
      }
    }
  }

  /** The whole sorted result of a query without its LIMIT. */
  function SortedAfter(rows: seq<Row>, bound: Option<Row>): seq<Row> {
    Sort(After(rows, bound), Newer)
  }

  lemma SortedAfterIsSorted(rows: seq<Row>, bound: Option<Row>)
    requires UniqueIds(rows)
    ensures SortedBy(SortedAfter(rows, bound), Newer)
    ensures forall r :: r in SortedAfter(rows, bound) <==> r in rows && (bound.None? || Newer(bound.value, r))
  {
    NewerIsStrictOrder();
    AfterElements(rows, bound);
    AfterIsUnique(rows, bound);
    var after := After(rows, bound);
    assert Distinct(after) && TotalOn(after, Newer) by {
      forall a, b | a in after && b in after && a != b ensures Newer(a, b) || Newer(b, a) {
        var i :| 0 <= i < |after| && after[i] == a;
        var j :| 0 <= j < |after| && after[j] == b;
      }
    }
    SortSorts(after, Newer);
  }

  /** A page: strictly ordered rows of the table after the bound; it omits only rows after its last one,
      and then says so. */
  ghost predicate IsPage(rows: seq<Row>, bound: Option<Row>, page: Page) {
    && SortedBy(page.conversations, Newer) && |page.conversations| <= MAX_PAGE
    && (forall r :: r in page.conversations ==> r in rows && (bound.None? || Newer(bound.value, r)))
    && (page.nextCursor == "" ==> forall r :: r in rows && (bound.None? || Newer(bound.value, r)) ==> r in page.conversations)
    && (page.nextCursor != "" ==>
          && page.conversations != [] && page.nextCursor == page.conversations[|page.conversations| - 1].id
          && forall r :: r in rows && (bound.None? || Newer(bound.value, r)) ==>
                           r in page.conversations || Newer(page.conversations[|page.conversations| - 1], r))
  }

  lemma PageFromQuery(rows: seq<Row>, bound: Option<Row>, limit: nat)
    requires UniqueIds(rows) && 0 < limit <= MAX_PAGE && forall r :: r in rows ==> r.id != ""
    ensures IsPage(rows, bound, PageFrom(Query(rows, bound, limit + 1), limit))
  {
    var sorted := SortedAfter(rows, bound);
    SortedAfterIsSorted(rows, bound);
    var page := PageFrom(Query(rows, bound, limit + 1), limit);
    if |sorted| > limit {
      assert page.conversations == sorted[..limit];
      assert sorted[limit - 1] in sorted;
      forall r | r in sorted ensures r in page.conversations || Newer(sorted[limit - 1], r) {
        var i :| 0 <= i < |sorted| && sorted[i] == r;
        if i < limit {
          assert page.conversations[i] == r;
        }
      }
    } else {
      assert page.conversations == sorted;
    }
  }

  lemma {:induction false} Found(rows: seq<Row>, r: Row)
    requires UniqueIds(rows) && r in rows
    ensures Find(rows, r.id) == Some(r)
  {
    var n := |rows| - 1;
    assert rows == rows[..n] + [rows[n]];
    if rows[n] == r {
    } else {
      var i :| 0 <= i < n && rows[i] == r;
      Found(rows[..n], r);
    }
  }

  // ----- walks over a changing table -----

  /** A table as a page read sees it. */
  ghost predicate IsTable(rows: seq<Row>) {
    UniqueIds(rows) && forall r :: r in rows ==> ValidOpaque(r.id)
  }

  function CursorAt(pages: seq<Page>, k: nat): string
    requires k <= |pages|
  {
    if k == 0 then "" else pages[k - 1].nextCursor
  }

  function LastRow(page: Page): Row
    requires page.conversations != []
  {
    page.conversations[|page.conversations| - 1]
  }

  /** The k-th page is read from the k-th table, which still holds the row the cursor names. */
  ghost predicate PageAt(tables: seq<seq<Row>>, limits: seq<int>, pages: seq<Page>, k: int)
    requires 0 <= k < |pages| == |tables| == |limits|
  {
    && IsTable(tables[k]) && PageOf(tables[k], true, limits[k], CursorAt(pages, k)) == Ok(pages[k])
    && (k > 0 ==> pages[k - 1].nextCursor != "" && pages[k - 1].conversations != [] && LastRow(pages[k - 1]) in tables[k])
  }

  ghost predicate IsWalk(tables: seq<seq<Row>>, limits: seq<int>, pages: seq<Page>) {
    && |pages| == |tables| == |limits| > 0
    && forall k {:trigger PageAt(tables, limits, pages, k)} :: 0 <= k < |pages| ==> PageAt(tables, limits, pages, k)
  }

  function BoundAt(pages: seq<Page>, k: nat): Option<Row>
    requires k <= |pages|
  {
    if k == 0 || pages[k - 1].conversations == [] then None else Some(LastRow(pages[k - 1]))
  }

  lemma FirstIsPage(tables: seq<seq<Row>>, limits: seq<int>, pages: seq<Page>)
    requires IsWalk(tables, limits, pages)
    ensures IsPage(tables[0], BoundAt(pages, 0), pages[0])
  {
    assert PageAt(tables, limits, pages, 0);
    PageFromQuery(tables[0], None, Clamped(limits[0]));
  }

  lemma NextIsPage(tables: seq<seq<Row>>, limits: seq<int>, pages: seq<Page>, k: nat)
    requires IsWalk(tables, limits, pages) && 0 < k < |pages|
    ensures BoundAt(pages, k).Some? && pages[k - 1].nextCursor != ""
    ensures IsPage(tables[k - 1], BoundAt(pages, k - 1), pages[k - 1]) ==> IsPage(tables[k], BoundAt(pages, k), pages[k])
  {
    assert PageAt(tables, limits, pages, k);
    if IsPage(tables[k - 1], BoundAt(pages, k - 1), pages[k - 1]) {
      CursorPage(tables[k], limits[k], LastRow(pages[k - 1]), pages[k]);
    }
  }

  lemma {:induction false} PagesArePages(tables: seq<seq<Row>>, limits: seq<int>, pages: seq<Page>, k: nat)
    requires IsWalk(tables, limits, pages) && k < |pages|
    ensures IsPage(tables[k], BoundAt(pages, k), pages[k]) && (k > 0 ==> BoundAt(pages, k).Some?)
    ensures k > 0 ==> pages[k - 1].nextCursor != ""
  {
    if k == 0 {
      FirstIsPage(tables, limits, pages);
    } else {
      PagesArePages(tables, limits, pages, k - 1);
      NextIsPage(tables, limits, pages, k);
    }
  }

  /** The page read with the cursor of a row still in the table. */
  lemma CursorPage(rows: seq<Row>, limit: int, last: Row, page: Page)
    requires IsTable(rows) && last in rows && PageOf(rows, true, limit, last.id) == Ok(page)
    ensures IsPage(rows, Some(last), page)
  {
    Found(rows, last);
    PageFromQuery(rows, Some(last), Clamped(limit));
  }

  function Returned(pages: seq<Page>): seq<Row> {
    if pages == [] then [] else Returned(pages[..|pages| - 1]) + pages[|pages| - 1].conversations
  }

  lemma FrontOfWalk(tables: seq<seq<Row>>, limits: seq<int>, pages: seq<Page>, n: nat)
    requires IsWalk(tables, limits, pages) && 0 < n <= |pages|
    ensures IsWalk(tables[..n], limits[..n], pages[..n])
  {
    forall k | 0 <= k < n ensures PageAt(tables[..n], limits[..n], pages[..n], k) {
      assert PageAt(tables, limits, pages, k);
    }
  }

  lemma SortedConcat(a: seq<Row>, b: seq<Row>)
    requires SortedBy(a, Newer) && SortedBy(b, Newer)
    requires a != [] ==> forall r :: r in b ==> Newer(a[|a| - 1], r)
    ensures SortedBy(a + b, Newer)
  {
    NewerIsStrictOrder();
    forall i, j | 0 <= i < j < |a + b| ensures Newer((a + b)[i], (a + b)[j]) {
      if i < |a| <= j {
        assert b[j - |a|] in b;
        assert i < |a| - 1 ==> Newer(a[i], a[|a| - 1]);
      }
    }
  }

  /** The rows of a walk come in strictly decreasing order, so none comes twice. */
  lemma {:induction false} WalkDecreases(tables: seq<seq<Row>>, limits: seq<int>, pages: seq<Page>)
    requires IsWalk(tables, limits, pages)
    ensures SortedBy(Returned(pages), Newer) && Distinct(Returned(pages))
    ensures pages[|pages| - 1].nextCursor != "" ==>
              pages[|pages| - 1].conversations != [] && Returned(pages) != [] && Returned(pages)[|Returned(pages)| - 1] == LastRow(pages[|pages| - 1])
    decreases |pages|
  {
    var n := |pages| - 1;
    PagesArePages(tables, limits, pages, n);
    if n > 0 {
      FrontOfWalk(tables, limits, pages, n);
      WalkDecreases(tables[..n], limits[..n], pages[..n]);
      assert pages[..n][n - 1] == pages[n - 1];
    } else {
      assert Returned(pages) == [] + pages[0].conversations;
    }
    SortedConcat(Returned(pages[..n]), pages[n].conversations);
    NewerIsStrictOrder();
    SortedIsDistinct(Returned(pages), Newer);
  }

  ghost predicate Throughout(tables: seq<seq<Row>>, r: Row) {
    forall k :: 0 <= k < |tables| ==> r in tables[k]
  }

  /** A row that lay in the table throughout has been returned, or lies after the last row returned. */
  lemma {:induction false} WalkMissesNothing(tables: seq<seq<Row>>, limits: seq<int>, pages: seq<Page>, r: Row)
    requires IsWalk(tables, limits, pages) && Throughout(tables, r)
    ensures r in Returned(pages) || (pages[|pages| - 1].nextCursor != "" && pages[|pages| - 1].conversations != [] && Newer(LastRow(pages[|pages| - 1]), r))
    decreases |pages|
  {
    var n := |pages| - 1;
    PagesArePages(tables, limits, pages, n);
    assert r in tables[n];
    if n == 0 {
    } else {
      FrontOfWalk(tables, limits, pages, n);
      assert forall k :: 0 <= k < n ==> tables[..n][k] == tables[k];
      WalkMissesNothing(tables[..n], limits[..n], pages[..n], r);
      assert pages[..n][n - 1] == pages[n - 1];
    }
  }

  /** A finished walk returns every conversation that stayed in the table throughout exactly once. */
  lemma FinishedWalkReturnsOnce(tables: seq<seq<Row>>, limits: seq<int>, pages: seq<Page>, r: Row) returns (i: int)
    requires IsWalk(tables, limits, pages) && Throughout(tables, r) && pages[|pages| - 1].nextCursor == ""
    ensures 0 <= i < |Returned(pages)| && forall j :: 0 <= j < |Returned(pages)| ==> (Returned(pages)[j] == r <==> j == i)
  {
    WalkMissesNothing(tables, limits, pages, r);
    WalkDecreases(tables, limits, pages);
    i :| 0 <= i < |Returned(pages)| && Returned(pages)[i] == r;
  }

  // ----- a fixed table -----

  ghost predicate Fixed(tables: seq<seq<Row>>, rows: seq<Row>) {
    forall k :: 0 <= k < |tables| ==> tables[k] == rows
  }

  lemma {:induction false} ReturnedFromTable(tables: seq<seq<Row>>, limits: seq<int>, pages: seq<Page>, rows: seq<Row>)
    requires IsWalk(tables, limits, pages) && Fixed(tables, rows)
    ensures forall r :: r in Returned(pages) ==> r in rows
    decreases |pages|
  {
    var n := |pages| - 1;
    PagesArePages(tables, limits, pages, n);
    if n == 0 {
    } else {
      FrontOfWalk(tables, limits, pages, n);
      assert forall k :: 0 <= k < n ==> tables[..n][k] == tables[k];
      ReturnedFromTable(tables[..n], limits[..n], pages[..n], rows);
    }
  }

  /** On a fixed table a finished walk is the full ordered list. */
  lemma FixedWalkIsTheList(tables: seq<seq<Row>>, limits: seq<int>, pages: seq<Page>, rows: seq<Row>)
    requires IsWalk(tables, limits, pages) && Fixed(tables, rows) && pages[|pages| - 1].nextCursor == ""
    ensures Returned(pages) == Sort(rows, Newer)
  {
    assert PageAt(tables, limits, pages, 0) && tables[0] == rows;
    WalkDecreases(tables, limits, pages);
    ReturnedFromTable(tables, limits, pages, rows);
    forall r | r in rows ensures r in Returned(pages) {
      WalkMissesNothing(tables, limits, pages, r);
    }
    NewerIsStrictOrder();
    WholeTable(rows);
    SortedAfterIsSorted(rows, None);
    SortedIsUnique(Returned(pages), Sort(rows, Newer), Newer);
  }

  lemma {:induction false} WholeTable(rows: seq<Row>)
    ensures After(rows, None) == rows
  {
    if rows == [] {
    } else {
      WholeTable(rows[..|rows| - 1]);
      SplitAt(rows, |rows| - 1);
    }
  }

  lemma {:induction false} PagesCount(tables: seq<seq<Row>>, limits: seq<int>, pages: seq<Page>)
    requires IsWalk(tables, limits, pages)
    ensures |pages| <= |Returned(pages)| + 1
    ensures pages[|pages| - 1].nextCursor != "" ==> |pages| <= |Returned(pages)|
    decreases |pages|
  {
    var n := |pages| - 1;
    PagesArePages(tables, limits, pages, n);
    if n == 0 {
    } else {
      FrontOfWalk(tables, limits, pages, n);
      assert pages[..n][n - 1] == pages[n - 1];
      PagesCount(tables[..n], limits[..n], pages[..n]);
    }
  }

  /** A walk on a fixed table ends: it has at most one page more than the table has rows. */
  lemma FixedWalkTerminates(tables: seq<seq<Row>>, limits: seq<int>, pages: seq<Page>, rows: seq<Row>)
    requires IsWalk(tables, limits, pages) && Fixed(tables, rows)
    ensures |pages| <= |rows| + 1
  {
    PagesCount(tables, limits, pages);
    WalkDecreases(tables, limits, pages);
    ReturnedFromTable(tables, limits, pages, rows);
    var all := set r | r in rows;
    DistinctFits(Returned(pages), all);
    SetOfSeq(rows);
  }

  lemma {:induction false} SetOfSeq(rows: seq<Row>)
    ensures |set r | r in rows| <= |rows|
  {
    if rows == [] {
    } else {
      var front, last := rows[..|rows| - 1], rows[|rows| - 1];
      SetOfSeq(front);
      SplitAt(rows, |rows| - 1);
      assert rows == front + [last];
      assert (set r | r in rows) == (set r | r in front) + {last};
    }
  }

  /** An unfinished walk on a fixed table can be read on with any limit, so it reaches the full list. */
  lemma FixedWalkContinues(tables: seq<seq<Row>>, limits: seq<int>, pages: seq<Page>, rows: seq<Row>, limit: int) returns (page: Page)
    requires IsWalk(tables, limits, pages) && Fixed(tables, rows) && pages[|pages| - 1].nextCursor != ""
    ensures IsWalk(tables + [rows], limits + [limit], pages + [page]) && Fixed(tables + [rows], rows)
  {
    var n := |pages| - 1;
    PagesArePages(tables, limits, pages, n);
    assert PageAt(tables, limits, pages, n) && tables[n] == rows;
    var last := LastRow(pages[n]);
    Found(rows, last);
    assert ValidOpaque(last.id);
    page := PageOf(rows, true, limit, last.id).value;
    forall k | 0 <= k < |pages| + 1 ensures PageAt(tables + [rows], limits + [limit], pages + [page], k) {
      PageAtSnoc(tables, limits, pages, rows, limit, page, k);
    }
  }

  lemma PageAtSnoc(tables: seq<seq<Row>>, limits: seq<int>, pages: seq<Page>, rows: seq<Row>, limit: int, page: Page, k: nat)
    requires IsWalk(tables, limits, pages) && IsTable(rows) && pages[|pages| - 1].nextCursor != "" && k <= |pages|
    requires pages[|pages| - 1].conversations != [] && LastRow(pages[|pages| - 1]) in rows
    requires PageOf(rows, true, limit, pages[|pages| - 1].nextCursor) == Ok(page)
    ensures PageAt(tables + [rows], limits + [limit], pages + [page], k)
  {
    var more := pages + [page];
    if k < |pages| {
      assert PageAt(tables, limits, pages, k);
      assert CursorAt(more, k) == CursorAt(pages, k) && more[k] == pages[k];
      assert k > 0 ==> more[k - 1] == pages[k - 1];
    } else {
      assert CursorAt(more, k) == pages[k - 1].nextCursor && more[k - 1] == pages[k - 1];
    }
  }

  lemma FirstPage(rows: seq<Row>, limit: int) returns (page: Page)
    requires IsTable(rows)
    ensures IsWalk([rows], [limit], [page])
  {
    page := PageOf(rows, true, limit, "").value;
    assert PageAt([rows], [limit], [page], 0);
  }

  /** Reading on with one limit, any walk on a fixed table is finished within one page more than it has rows. */
  lemma {:induction false} FixedWalkFinishes(tables: seq<seq<Row>>, limits: seq<int>, pages: seq<Page>, rows: seq<Row>, limit: int)
    returns (allTables: seq<seq<Row>>, allLimits: seq<int>, all: seq<Page>)
    requires IsWalk(tables, limits, pages) && Fixed(tables, rows)
    ensures IsWalk(allTables, allLimits, all) && Fixed(allTables, rows) && all[|all| - 1].nextCursor == "" && pages <= all
    ensures Returned(all) == Sort(rows, Newer)
    decreases |rows| + 1 - |pages|
  {
    if pages[|pages| - 1].nextCursor == "" {
      allTables, allLimits, all := tables, limits, pages;
      FixedWalkIsTheList(tables, limits, pages, rows);
    } else {
      var page := FixedWalkContinues(tables, limits, pages, rows, limit);
      FixedWalkTerminates(tables + [rows], limits + [limit], pages + [page], rows);
      allTables, allLimits, all := FixedWalkFinishes(tables + [rows], limits + [limit], pages + [page], rows, limit);
    }
  }

  // ----- newest first -----

  /** Created earlier, or at the same time under a smaller id, byte by byte. */
  predicate Older(a: Row, b: Row) {
    a.createdAt < b.createdAt || (a.createdAt == b.createdAt && Precedes(a.id, b.id))
  }

  lemma NewerIsOlder(a: Row, b: Row)
    ensures Newer(a, b) <==> Older(b, a)
  {
    LessExactly(b.id, a.id);
  }

  /** Along a walk every later row was created earlier, or at the same time under a smaller id. */
  lemma WalkIsNewestFirst(tables: seq<seq<Row>>, limits: seq<int>, pages: seq<Page>, i: int, j: int)
    requires IsWalk(tables, limits, pages) && 0 <= i < j < |Returned(pages)|
    ensures var a, b := Returned(pages)[i], Returned(pages)[j];
            b.createdAt < a.createdAt || (b.createdAt == a.createdAt && Precedes(b.id, a.id))
  {
    WalkDecreases(tables, limits, pages);
    NewerIsOlder(Returned(pages)[i], Returned(pages)[j]);
  }

  /** Reading a fixed table to the end lists exactly its rows, newest first. */
  lemma FixedListIsNewestFirst(tables: seq<seq<Row>>, limits: seq<int>, pages: seq<Page>, rows: seq<Row>)
    requires IsWalk(tables, limits, pages) && Fixed(tables, rows) && pages[|pages| - 1].nextCursor == ""
    ensures forall r :: r in Returned(pages) <==> r in rows
    ensures forall i, j :: 0 <= i < j < |Returned(pages)| ==> Older(Returned(pages)[j], Returned(pages)[i])
  {
    ReturnedFromTable(tables, limits, pages, rows);
    forall r | r in rows ensures r in Returned(pages) {
      WalkMissesNothing(tables, limits, pages, r);
    }
    forall i, j | 0 <= i < j < |Returned(pages)| ensures Older(Returned(pages)[j], Returned(pages)[i]) {
      WalkIsNewestFirst(tables, limits, pages, i, j);
    }
  }

  /** The rows a cursor admits: all without one, else those older than the row it names. */
  ghost predicate Admits(rows: seq<Row>, cursor: string, r: Row) {
    r in rows && (cursor != "" ==> exists c :: c in rows && c.id == cursor && Older(r, c))
  }

  lemma {:induction false} FoundIn(rows: seq<Row>, id: string)
    ensures match Find(rows, id)
            case Some(r) => r in rows && r.id == id
            case None => forall r :: r in rows ==> r.id != id
  {
    if rows == [] || rows[|rows| - 1].id == id {
    } else {
      FoundIn(rows[..|rows| - 1], id);
      SplitAt(rows, |rows| - 1);
      assert rows == rows[..|rows| - 1] + [rows[|rows| - 1]];
    }
  }

  /** What a read without refusal draws on. */
  lemma BoundAdmits(rows: seq<Row>, cursor: string, bound: Option<Row>, r: Row)
    requires UniqueIds(rows) && bound == (if cursor == "" then None else Find(rows, cursor)) && (cursor != "" ==> bound.Some?)
    ensures Admits(rows, cursor, r) <==> r in rows && (bound.None? || Newer(bound.value, r))
  {
    if cursor != "" {
      FoundIn(rows, cursor);
      NewerIsOlder(bound.value, r);
      forall c | c in rows && c.id == cursor ensures c == bound.value {
        Found(rows, c);
      }
    }
  }

  /** A page is the newest of the rows its cursor admits: newest first, as many as the limit allows, and
      everything admitted that it leaves out is older than all of it. */
  lemma PageIsNewest(rows: seq<Row>, visible: bool, limit: int, cursor: string, page: Page)
    requires IsTable(rows) && PageOf(rows, visible, limit, cursor) == Ok(page)
    ensures forall r :: r in page.conversations ==> Admits(rows, cursor, r)
    ensures forall i, j :: 0 <= i < j < |page.conversations| ==> Older(page.conversations[j], page.conversations[i])
    ensures forall r :: Admits(rows, cursor, r) && r !in page.conversations ==> forall q :: q in page.conversations ==> Older(r, q)
    ensures page.nextCursor == "" <==> forall r :: Admits(rows, cursor, r) ==> r in page.conversations
    ensures page.nextCursor != "" ==> |page.conversations| == if 0 < limit <= 50 then limit else 50
    ensures |page.conversations| <= if 0 < limit <= 50 then limit else 50
  {
    var bound := if cursor == "" then None else Find(rows, cursor);
    PageFromQuery(rows, bound, Clamped(limit));
    SortedAfterIsSorted(rows, bound);
    forall r ensures Admits(rows, cursor, r) <==> r in SortedAfter(rows, bound) {
      BoundAdmits(rows, cursor, bound, r);
    }
    PageCuts(rows, bound, Clamped(limit), page);
  }

  lemma PageCuts(rows: seq<Row>, bound: Option<Row>, limit: nat, page: Page)
    requires IsTable(rows) && limit > 0 && page == PageFrom(Query(rows, bound, limit + 1), limit)
    ensures var sorted := SortedAfter(rows, bound);
            && |page.conversations| == (if |sorted| > limit then limit else |sorted|)
            && (page.nextCursor == "" <==> |sorted| <= limit)
            && (forall r :: r in page.conversations ==> r in sorted)
            && (forall i, j :: 0 <= i < j < |page.conversations| ==> Older(page.conversations[j], page.conversations[i]))
            && (forall r, q :: r in sorted && r !in page.conversations && q in page.conversations ==> Older(r, q))
            && (|sorted| <= limit <==> forall r :: r in sorted ==> r in page.conversations)
  {
    var sorted := SortedAfter(rows, bound);
    SortedAfterIsSorted(rows, bound);
    SortedIsOlder(sorted);
    assert page.conversations == sorted[..|page.conversations|];
    forall r, q | r in sorted && r !in page.conversations && q in page.conversations ensures Older(r, q) {
      var i :| 0 <= i < |page.conversations| && page.conversations[i] == q;
      var j := BehindPrefix(sorted, |page.conversations|, r);
    }
    NewerIsStrictOrder();
    SortedIsDistinct(sorted, Newer);
    if |sorted| > limit {
      assert sorted[limit] in sorted && sorted[limit] !in page.conversations;
      assert sorted[limit - 1] in sorted;
    }
  }

  lemma BehindPrefix(s: seq<Row>, n: nat, r: Row) returns (j: int)
    requires n <= |s| && r in s && r !in s[..n]
    ensures n <= j < |s| && s[j] == r
  {
    SplitAt(s, n);
    var k :| 0 <= k < |s[n..]| && s[n..][k] == r;
    j := n + k;
  }

  /** A page is refused exactly when it names a cursor that is malformed, not visible, or not in the table. */
  lemma PageIsRefused(rows: seq<Row>, visible: bool, limit: int, cursor: string)
    requires IsTable(rows)
    ensures PageOf(rows, visible, limit, cursor).Ok? <==> cursor == "" || (visible && exists r :: r in rows && r.id == cursor)
    ensures PageOf(rows, visible, limit, cursor) == Err(Denied) <==> cursor != "" && ValidOpaque(cursor) && !visible
  {
    FoundIn(rows, cursor);
  }

  lemma SortedIsOlder(sorted: seq<Row>)
    requires SortedBy(sorted, Newer)
    ensures forall i, j :: 0 <= i < j < |sorted| ==> Older(sorted[j], sorted[i])
  {
    forall i, j | 0 <= i < j < |sorted| ensures Older(sorted[j], sorted[i]) {
      NewerIsOlder(sorted[i], sorted[j]);
    }
  }
}
