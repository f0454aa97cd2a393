/** Rows, filters and column resolution: the first half of EvidenceAdapter.Aggregate. */
module AnalyticPlan {
  import opened Options
  import opened AnalyticCells

  type Rows = map<string, seq<Cell>>

  // ----- rows -----

  function RowOf(cells: seq<Cell>, key: string): seq<Cell> {
    if cells == [] then []
    else
      var last := cells[|cells| - 1];
      RowOf(cells[..|cells| - 1], key) + if last.rowKey == key then [last] else []
  }

  function RowsOf(cells: seq<Cell>): Rows {
    map key | key in (set c | c in cells :: c.rowKey) :: RowOf(cells, key)
  }

  ghost predicate DistinctIds(cells: seq<Cell>) {
    forall i, j :: 0 <= i < j < |cells| ==> cells[i].evidence.id != cells[j].evidence.id
  }

  ghost predicate AllValid(cells: seq<Cell>) {
    forall c :: c in cells ==> ValidCell(c)
  }

  lemma {:induction false} RowOfCells(cells: seq<Cell>, key: string)
    ensures forall c :: c in RowOf(cells, key) <==> c in cells && c.rowKey == key
  {
    if cells == [] {
    } else {
      RowOfCells(cells[..|cells| - 1], key);
      assert cells == cells[..|cells| - 1] + [cells[|cells| - 1]];
    }
  }

  lemma RowOfSnoc(front: seq<Cell>, last: Cell, key: string)
    ensures RowOf(front + [last], key) == RowOf(front, key) + if last.rowKey == key then [last] else []
  {
    var cells := front + [last];
    assert cells[..|cells| - 1] == front;
  }

  lemma EmptyRow(cells: seq<Cell>, key: string)
    ensures key !in RowsOf(cells) <==> RowOf(cells, key) == []
  {
    RowOfCells(cells, key);
    if RowOf(cells, key) != [] {
      assert RowOf(cells, key)[0] in RowOf(cells, key);
    }
  }

  function Appended(rows: Rows, cell: Cell): Rows {
    rows[cell.rowKey := (if cell.rowKey in rows then rows[cell.rowKey] else []) + [cell]]
  }

  lemma RowsOfSnoc(front: seq<Cell>, last: Cell)
    ensures RowsOf(front + [last]) == Appended(RowsOf(front), last)
  {
    var a, b := RowsOf(front + [last]), Appended(RowsOf(front), last);
    forall key
      ensures key in a <==> key in b
      ensures key in b ==> RowOf(front + [last], key) == b[key]
    {
      EmptyRow(front, key);
      EmptyRow(front + [last], key);
      RowOfSnoc(front, last, key);
    }
    assert a.Keys == b.Keys;
  }

  function Ids(cells: seq<Cell>): set<string> {
    set c | c in cells :: c.evidence.id
  }

  lemma DistinctSnoc(front: seq<Cell>, last: Cell)
    ensures Ids(front + [last]) == Ids(front) + {last.evidence.id}
    ensures DistinctIds(front + [last]) <==> DistinctIds(front) && last.evidence.id !in Ids(front)
  {
    var cells := front + [last];
    forall i | 0 <= i < |front| ensures cells[i] == front[i] && front[i] in front { }
    assert cells[|front|] == last;
  }

  lemma PrefixOfDistinct(cells: seq<Cell>, i: nat)
    requires i <= |cells|
    ensures DistinctIds(cells) ==> DistinctIds(cells[..i])
  {
  }

  ghost predicate Repeats(cells: seq<Cell>, id: string) {
    exists i :: 0 <= i < |cells| && cells[i].evidence.id == id
  }

  /** The code of the first cell that is invalid or repeats an evidence id. */
  ghost function CellsFault(cells: seq<Cell>): Option<ErrorCode> {
    if cells == [] then None
    else
      var front, last := cells[..|cells| - 1], cells[|cells| - 1];
      if CellsFault(front).Some? then CellsFault(front)
      else if !ValidCell(last) then Some(InvalidRequest)
      else if Repeats(front, last.evidence.id) then Some(Conflict)
      else None
  }

  /** A fault of a prefix is the fault of the whole. */
  lemma {:induction false} CellsFaultOfPrefix(cells: seq<Cell>, i: nat)
    requires i <= |cells| && CellsFault(cells[..i]).Some?
    ensures CellsFault(cells) == CellsFault(cells[..i])
    decreases |cells|
  {
    if i == |cells| {
      assert cells[..i] == cells;
    } else {
      var front := cells[..|cells| - 1];
      assert front[..i] == cells[..i];
      CellsFaultOfPrefix(front, i);
    }
  }

  lemma CellsFaultSnoc(cells: seq<Cell>, i: nat)
    requires i < |cells| && CellsFault(cells[..i]).None?
    ensures CellsFault(cells[..i + 1]) ==
            if !ValidCell(cells[i]) then Some(InvalidRequest)
            else if Repeats(cells[..i], cells[i].evidence.id) then Some(Conflict) else None
    ensures CellsFault(cells[..i + 1]).Some? ==> CellsFault(cells) == CellsFault(cells[..i + 1])
  {
    assert cells[..i + 1][..i] == cells[..i];
    if CellsFault(cells[..i + 1]).Some? {
      CellsFaultOfPrefix(cells, i + 1);
    }
  }

  lemma RepeatsIds(cells: seq<Cell>, id: string)
    ensures Repeats(cells, id) <==> id in Ids(cells)
  {
    if Repeats(cells, id) {
      var i :| 0 <= i < |cells| && cells[i].evidence.id == id;
      assert cells[i] in cells;
    }
  }

  /** After i cells, all of them good. */
  ghost predicate Grouping(cells: seq<Cell>, i: nat, seen: set<string>, rows: Rows)
    requires i <= |cells|
  {
    && AllValid(cells[..i]) && DistinctIds(cells[..i]) && CellsFault(cells[..i]) == None
    && seen == Ids(cells[..i]) && rows == RowsOf(cells[..i])
  }

  lemma GroupingNext(cells: seq<Cell>, i: nat, seen: set<string>, rows: Rows)
    requires i < |cells| && Grouping(cells, i, seen, rows) && ValidCell(cells[i]) && cells[i].evidence.id !in seen
    ensures Grouping(cells, i + 1, seen + {cells[i].evidence.id}, Appended(rows, cells[i]))
  {
    assert cells[..i + 1] == cells[..i] + [cells[i]];
    DistinctSnoc(cells[..i], cells[i]);
    RowsOfSnoc(cells[..i], cells[i]);
    CellsFaultSnoc(cells, i);
    RepeatsIds(cells[..i], cells[i].evidence.id);
  }

  lemma GroupingStops(cells: seq<Cell>, i: nat, seen: set<string>, rows: Rows)
    requires i < |cells| && Grouping(cells, i, seen, rows) && (!ValidCell(cells[i]) || cells[i].evidence.id in seen)
    ensures !(AllValid(cells) && DistinctIds(cells))
    ensures CellsFault(cells) == Some(if ValidCell(cells[i]) then Conflict else InvalidRequest)
  {
    CellsFaultSnoc(cells, i);
    RepeatsIds(cells[..i], cells[i].evidence.id);
    assert cells[i] in cells;
    if cells[i].evidence.id in seen {
      RepeatIsNotDistinct(cells, i);
    }
  }

  lemma RepeatIsNotDistinct(cells: seq<Cell>, i: nat)
    requires i < |cells| && cells[i].evidence.id in Ids(cells[..i])
    ensures !DistinctIds(cells)
  {
    var c :| c in cells[..i] && c.evidence.id == cells[i].evidence.id;
    var j :| 0 <= j < i && cells[j] == c;
  }

  /** The first loop of Aggregate: group valid cells with distinct evidence ids by row. */
  method GroupRows(cells: seq<Cell>) returns (outcome: Outcome<Rows>)
    ensures outcome.Ok? <==> AllValid(cells) && DistinctIds(cells)
    ensures outcome.Ok? ==> outcome.value == RowsOf(cells) && CellsFault(cells) == None
    ensures outcome.Err? ==> CellsFault(cells) == Some(outcome.code)
  {
    var seen: set<string> := {};
    var rows: Rows := map[];
    for i := 0 to |cells|
      invariant Grouping(cells, i, seen, rows)
    {
      var cell := cells[i];
      if !ValidCell(cell) {
        GroupingStops(cells, i, seen, rows);
        return Err(InvalidRequest);
      }
      if cell.evidence.id in seen {
        GroupingStops(cells, i, seen, rows);
        return Err(Conflict);
      }
      GroupingNext(cells, i, seen, rows);
      seen := seen + {cell.evidence.id};
      rows := Appended(rows, cell);
    }
    assert cells[..|cells|] == cells;
    return Ok(rows);
  }

  // ----- filters -----

  predicate RowMatches(row: seq<Cell>, filter: Filter) {
    IsEquality(filter) ==> exists c :: c in row && CellMatches(c, filter)
  }

  predicate RowPasses(row: seq<Cell>, filters: seq<Filter>) {
    forall f :: f in filters ==> RowMatches(row, f)
  }

  function Filtered(rows: Rows, filters: seq<Filter>): Rows {
    map key | key in rows && RowPasses(rows[key], filters) :: rows[key]
  }

  /** applyFilters; the map is visited in an arbitrary order. */
  method ApplyFilters(rows: Rows, filters: seq<Filter>) returns (filtered: Rows)
    ensures filtered == Filtered(rows, filters)
  {
    filtered := rows;
    for i := 0 to |filters|
      invariant filtered == Filtered(rows, filters[..i])
    {
      assert filters[..i + 1] == filters[..i] + [filters[i]];
      if IsEquality(filters[i]) {
        filtered := KeepMatching(filtered, filters[i]);
      }
      assert forall row :: RowPasses(row, filters[..i + 1]) <==> RowPasses(row, filters[..i]) && RowMatches(row, filters[i]);
    }
    assert filters[..|filters|] == filters;
  }

  method KeepMatching(rows: Rows, filter: Filter) returns (next: Rows)
    requires IsEquality(filter)
    ensures next == map key | key in rows && RowMatches(rows[key], filter) :: rows[key]
  {
    next := map[];
    var remaining := rows.Keys;
    while remaining != {}
      invariant remaining <= rows.Keys
      invariant next == map key | key in rows && key !in remaining && RowMatches(rows[key], filter) :: rows[key]
      decreases remaining
    {
      var key :| key in remaining;
      var cells := rows[key];
      var matched := false;
      for j := 0 to |cells|
        invariant matched <==> exists c :: c in cells[..j] && CellMatches(c, filter)
      {
        assert cells[..j + 1] == cells[..j] + [cells[j]];
        if CellMatches(cells[j], filter) {
          matched := true;
          break;
        }
      }
      assert matched <==> RowMatches(cells, filter) by {
        assert cells[..|cells|] == cells;
      }
      if matched {
        next := next[key := cells];
      }
      remaining := remaining - {key};
    }
  }

  // ----- columns -----

  ghost function Columns(rows: Rows, numeric: bool): set<string> {
    set key, c | key in rows && c in rows[key] && c.numeric == numeric :: TermIdentity(c.column)
  }

  /** The columns of the visited rows, split by kind. */
  method CollectColumns(rows: Rows) returns (numeric: set<string>, nonNumeric: set<string>)
    ensures numeric == Columns(rows, true) && nonNumeric == Columns(rows, false)
  {
    numeric, nonNumeric := {}, {};
    var remaining := rows.Keys;
    ghost var visited: set<string> := {};
    while remaining != {}
      invariant remaining <= rows.Keys && visited == rows.Keys - remaining
      invariant numeric == set key, c | key in visited && c in rows[key] && c.numeric :: TermIdentity(c.column)
      invariant nonNumeric == set key, c | key in visited && c in rows[key] && !c.numeric :: TermIdentity(c.column)
      decreases remaining
    {
      var key :| key in remaining;
      var cells := rows[key];
      var n, m := RowColumns(cells);
      numeric, nonNumeric := numeric + n, nonNumeric + m;
      visited := visited + {key};
      remaining := remaining - {key};
    }
  }

  method RowColumns(cells: seq<Cell>) returns (numeric: set<string>, nonNumeric: set<string>)
    ensures numeric == set c | c in cells && c.numeric :: TermIdentity(c.column)
    ensures nonNumeric == set c | c in cells && !c.numeric :: TermIdentity(c.column)
  {
    numeric, nonNumeric := {}, {};
    for i := 0 to |cells|
      invariant numeric == set c | c in cells[..i] && c.numeric :: TermIdentity(c.column)
      invariant nonNumeric == set c | c in cells[..i] && !c.numeric :: TermIdentity(c.column)
    {
      assert cells[..i + 1] == cells[..i] + [cells[i]];
      if cells[i].numeric {
        numeric := numeric + {TermIdentity(cells[i].column)};
      } else {
        nonNumeric := nonNumeric + {TermIdentity(cells[i].column)};
      }
    }
    assert cells[..|cells|] == cells;
  }

  /** Column sets hold identities, never the empty one. */
  ghost predicate Identities(columns: set<string>) {
    forall c :: c in columns ==> TermIdentity(c) == c && c != ""
  }

  lemma ColumnsAreIdentities(rows: Rows, numeric: bool)
    requires forall key, c :: key in rows && c in rows[key] ==> ValidCell(c)
    ensures Identities(Columns(rows, numeric))
  {
    forall column | column in Columns(rows, numeric) ensures TermIdentity(column) == column && column != "" {
      var key, c :| key in rows && c in rows[key] && column == TermIdentity(c.column);
      assert ValidCell(c) && ValidOpaque(c.column);
      TermIdentityIsIdempotent(c.column);
    }
  }

  /** c is the one column of the set that satisfies the test. */
  ghost predicate OnlyOne(columns: set<string>, c: string, skipTemporal: bool) {
    && c in columns && !(skipTemporal && TemporalColumn(c))
    && forall d :: d in columns && !(skipTemporal && TemporalColumn(d)) ==> d == c
  }

  /** What chooseColumn may answer: the requested column, else the only column, else nothing. */
  ghost predicate IsChosenColumn(requested: string, columns: set<string>, chosen: string) {
    if requested != "" && TermIdentity(requested) in columns then chosen == TermIdentity(requested)
    else if exists c :: OnlyOne(columns, c, false) then OnlyOne(columns, chosen, false)
    else chosen == ""
  }

  method ChooseColumn(requested: string, columns: set<string>) returns (chosen: string)
    requires Identities(columns)
    ensures IsChosenColumn(requested, columns, chosen)
  {
    if requested != "" {
      var remaining := columns;
      while remaining != {}
        invariant remaining <= columns
        invariant TermIdentity(requested) in columns ==> TermIdentity(requested) in remaining
        decreases remaining
      {
        var column :| column in remaining;
        if TermsEqual(column, requested) {
          return column;
        }
        remaining := remaining - {column};
      }
    }
    if |columns| == 1 {
      var column :| column in columns;
      SingletonIsOnlyOne(columns, column);
      OnlyOneIsSingleton(columns, column);
      return column;
    }
    forall c { OnlyOneIsSingleton(columns, c); }
    return "";
  }

  lemma OnlyOneIsSingleton(columns: set<string>, c: string)
    ensures OnlyOne(columns, c, false) <==> columns == {c}
  {
  }

  lemma SingletonIsOnlyOne(columns: set<string>, column: string)
    requires |columns| == 1 && column in columns
    ensures columns == {column}
  {
    assert |columns - {column}| == 0;
    assert columns == (columns - {column}) + {column};
  }

  lemma ChosenColumnIsUnique(requested: string, columns: set<string>, a: string, b: string)
    requires IsChosenColumn(requested, columns, a) && IsChosenColumn(requested, columns, b)
    ensures a == b
  {
  }

  ghost predicate AllResolve(requested: seq<string>, columns: set<string>) {
    forall t :: t in requested ==> TermIdentity(t) in columns
  }

  /** What chooseGroupColumns may answer; a shorter answer than requested is a refusal. */
  ghost predicate IsChosenGroups(requested: seq<string>, columns: set<string>, groups: seq<string>) {
    if AllResolve(requested, columns) then Named(requested, groups)
    else if |requested| == 1 && exists c :: OnlyOne(columns, c, true) then
      |groups| == 1 && OnlyOne(columns, groups[0], true)
    else groups == []
  }

  ghost predicate Named(requested: seq<string>, groups: seq<string>) {
    |groups| == |requested| && forall i :: 0 <= i < |groups| ==> groups[i] == TermIdentity(requested[i])
  }

  lemma ResolveSnoc(front: seq<string>, term: string, columns: set<string>, groups: seq<string>)
    ensures AllResolve(front + [term], columns) <==> AllResolve(front, columns) && TermIdentity(term) in columns
    ensures Named(front, groups) ==> Named(front + [term], groups + [TermIdentity(term)])
  {
    assert forall t :: t in front + [term] <==> t in front || t == term;
  }

  lemma ResolvePrefix(requested: seq<string>, i: nat, columns: set<string>)
    requires i <= |requested|
    ensures AllResolve(requested, columns) ==> AllResolve(requested[..i], columns)
  {
  }

  method ChooseGroupColumns(requested: seq<string>, columns: set<string>) returns (groups: seq<string>)
    requires Identities(columns)
    ensures IsChosenGroups(requested, columns, groups)
  {
    groups := [];
    for i := 0 to |requested|
      invariant AllResolve(requested[..i], columns) && Named(requested[..i], groups)
    {
      assert requested[..i + 1] == requested[..i] + [requested[i]];
      ResolveSnoc(requested[..i], requested[i], columns, groups);
      ResolvePrefix(requested, i + 1, columns);
      var found := FindColumn(requested[i], columns);
      if found == "" {
        groups := SemanticAlias(requested, columns);
        return;
      }
      groups := groups + [found];
    }
    assert requested[..|requested|] == requested;
  }

  /** A single unresolved term may stand for the only context column. */
  method SemanticAlias(requested: seq<string>, columns: set<string>) returns (groups: seq<string>)
    requires Identities(columns) && !AllResolve(requested, columns)
    ensures IsChosenGroups(requested, columns, groups)
  {
    if |requested| != 1 {
      return [];
    }
    var fallback := OnlyContextColumn(columns);
    if fallback == "" {
      return [];
    }
    return [fallback];
  }

  method FindColumn(term: string, columns: set<string>) returns (found: string)
    requires Identities(columns)
    ensures found == if TermIdentity(term) in columns then TermIdentity(term) else ""
  {
    var remaining := columns;
    while remaining != {}
      invariant remaining <= columns
      invariant TermIdentity(term) in columns ==> TermIdentity(term) in remaining
      decreases remaining
    {
      var column :| column in remaining;
      if TermsEqual(column, term) {
        return column;
      }
      remaining := remaining - {column};
    }
    return "";
  }

  /** The fallback loop: the only non-temporal column, or nothing. */
  method OnlyContextColumn(columns: set<string>) returns (fallback: string)
    requires Identities(columns)
    ensures if exists c :: OnlyOne(columns, c, true) then OnlyOne(columns, fallback, true) else fallback == ""
  {
    fallback := "";
    var remaining := columns;
    while remaining != {}
      invariant remaining <= columns
      invariant fallback != "" ==> fallback in columns - remaining && !TemporalColumn(fallback)
      invariant forall d :: d in columns - remaining && !TemporalColumn(d) ==> d == fallback
      decreases remaining
    {
      var column :| column in remaining;
      remaining := remaining - {column};
      if !TemporalColumn(column) {
        if fallback != "" {
          assert !(exists c :: OnlyOne(columns, c, true));
          return "";
        }
        fallback := column;
      }
    }
    if fallback != "" {
      assert OnlyOne(columns, fallback, true);
    }
  }

  // ----- the request -----

  const FUNCTIONS := {"SUM", "COUNT", "AVG", "MIN", "MAX"}

  ghost predicate ValidSpec(spec: AggregateSpec) {
    && spec.function_ in FUNCTIONS
    && spec.limit >= 0 && spec.order in {"", "ASC", "DESC"} && |spec.groupBy| <= MAXIMUM_GROUP_DIMENSIONS
    && (forall t :: t in spec.groupBy ==> ValidOpaque(t))
    && PairwiseDifferent(spec.groupBy)
    && (spec.metric != "" ==> ValidOpaque(spec.metric))
  }

  ghost predicate PairwiseDifferent(terms: seq<string>) {
    forall i, j :: 0 <= i < j < |terms| ==> !TermsEqual(terms[i], terms[j])
  }

  /** The seenGroups loop of validateSpec. */
  method DistinctTerms(terms: seq<string>) returns (distinct: bool)
    ensures distinct <==> "" !in terms && PairwiseDifferent(terms)
  {
    var seen: set<string> := {};
    for i := 0 to |terms|
      invariant seen == set t | t in terms[..i] :: TermIdentity(t)
      invariant "" !in terms[..i] && PairwiseDifferent(terms[..i])
    {
      var term := terms[i];
      assert terms[..i + 1] == terms[..i] + [term];
      if term == "" || TermIdentity(term) in seen {
        if term != "" {
          ghost var j :| 0 <= j < i && TermIdentity(terms[j]) == TermIdentity(term);
          assert TermsEqual(terms[j], terms[i]);
        }
        return false;
      }
      forall j | 0 <= j < i ensures !TermsEqual(terms[j], term) {
        assert terms[j] in terms[..i];
      }
      seen := seen + {TermIdentity(term)};
    }
    assert terms[..|terms|] == terms;
    return true;
  }

  /** validateSpec */
  method ValidateSpec(spec: AggregateSpec) returns (outcome: Outcome<()>)
    ensures outcome.Ok? <==> ValidSpec(spec)
    ensures outcome.Err? ==> outcome.code == if spec.function_ in FUNCTIONS then InvalidRequest else Unsupported
  {
    if spec.function_ !in FUNCTIONS {
      return Err(Unsupported);
    }
    if spec.limit < 0 || (spec.order != "" && spec.order != "ASC" && spec.order != "DESC")
       || |spec.groupBy| > MAXIMUM_GROUP_DIMENSIONS {
      return Err(InvalidRequest);
    }
    var distinct := DistinctTerms(spec.groupBy);
    if !distinct {
      return Err(InvalidRequest);
    }
    for i := 0 to |spec.groupBy|
      invariant forall t :: t in spec.groupBy[..i] ==> ValidOpaque(t)
    {
      assert spec.groupBy[..i + 1] == spec.groupBy[..i] + [spec.groupBy[i]];
      if !ValidOpaque(spec.groupBy[i]) {
        return Err(InvalidRequest);
      }
    }
    assert spec.groupBy[..|spec.groupBy|] == spec.groupBy;
    if spec.metric != "" && !ValidOpaque(spec.metric) {
      return Err(InvalidRequest);
    }
    return Ok(());
  }

  /** The function, metric and group columns a request resolves to. */
  datatype Plan = Plan(function_: string, metric: string, groups: seq<string>) {
    predicate CountsRows() {
      function_ == "COUNT"
    }
  }

  /** No numeric column at all and an unnamed SUM: the request counts rows instead. */
  ghost predicate FallsBackToCount(spec: AggregateSpec, rows: Rows) {
    spec.function_ == "SUM" && spec.metric == "" && Columns(rows, true) == {}
  }

  /** The plan a request resolves to; a request resolves to at most one. */
  ghost predicate ResolvesTo(spec: AggregateSpec, rows: Rows, plan: Plan) {
    && IsChosenColumn(spec.metric, Columns(rows, true), plan.metric)
    && plan.function_ == (if FallsBackToCount(spec, rows) then "COUNT" else spec.function_)
    && (plan.metric == "" ==> plan.CountsRows())
    && IsChosenGroups(spec.groupBy, Columns(rows, false), plan.groups)
    && |plan.groups| == |spec.groupBy|
  }

  lemma ResolutionIsUnique(spec: AggregateSpec, rows: Rows, a: Plan, b: Plan)
    requires ResolvesTo(spec, rows, a) && ResolvesTo(spec, rows, b)
    ensures a == b
  {
    ChosenColumnIsUnique(spec.metric, Columns(rows, true), a.metric, b.metric);
    assert a.groups == b.groups;
  }

  method ResolvePlan(spec: AggregateSpec, rows: Rows) returns (outcome: Outcome<Plan>)
    requires forall key, c :: key in rows && c in rows[key] ==> ValidCell(c)
    ensures outcome.Ok? <==> exists plan :: ResolvesTo(spec, rows, plan)
    ensures outcome.Ok? ==> ResolvesTo(spec, rows, outcome.value)
    ensures outcome.Err? ==> outcome.code == Incomplete
  {
    ColumnsAreIdentities(rows, true);
    ColumnsAreIdentities(rows, false);
    var numericColumns, nonNumericColumns := CollectColumns(rows);
    var metric := ChooseColumn(spec.metric, numericColumns);
    var effective := spec.function_;
    if metric == "" && effective != "COUNT" {
      if effective == "SUM" && spec.metric == "" && numericColumns == {} {
        effective := "COUNT";
      } else {
        forall plan ensures !ResolvesTo(spec, rows, plan) {
          if ResolvesTo(spec, rows, plan) {
            ChosenColumnIsUnique(spec.metric, numericColumns, metric, plan.metric);
          }
        }
        return Err(Incomplete);
      }
    }
    var groups := ChooseGroupColumns(spec.groupBy, nonNumericColumns);
    if |spec.groupBy| > 0 && |groups| != |spec.groupBy| {
      return Err(Incomplete);
    }
    var plan := Plan(effective, metric, groups);
    assert FallsBackToCount(spec, rows) ==> metric == "";
    assert ResolvesTo(spec, rows, plan);
    return Ok(plan);
  }
}
