/** What an aggregate over selected rows is, independently of any visiting order. */
module AnalyticSpec {
  import opened GoText
  import opened Sorting
  import opened Decimals
  import opened Rationals
  import opened DecimalScales
  import opened AnalyticCells
  import opened AnalyticPlan

  /** The filtered rows, the plan they resolve to, and the filters that selected them. */
  datatype Scope = Scope(rows: Rows, plan: Plan, filters: seq<Filter>)

  // ----- one row -----

  function Pick(row: seq<Cell>, test: Cell -> bool): seq<Cell> {
    if row == [] then []
    else Pick(row[..|row| - 1], test) + if test(row[|row| - 1]) then [row[|row| - 1]] else []
  }

  lemma {:induction false} PickElements(row: seq<Cell>, test: Cell -> bool)
    ensures forall c :: c in Pick(row, test) <==> c in row && test(c)
  {
    if row == [] {
    } else {
      PickElements(row[..|row| - 1], test);
      assert row == row[..|row| - 1] + [row[|row| - 1]];
    }
  }

  lemma PickSnoc(row: seq<Cell>, i: nat, test: Cell -> bool)
    requires i < |row|
    ensures Pick(row[..i + 1], test) == Pick(row[..i], test) + if test(row[i]) then [row[i]] else []
  {
    assert row[..i + 1][..i] == row[..i];
  }

  function GroupCells(row: seq<Cell>, group: string): seq<Cell> {
    Pick(row, (c: Cell) => !c.numeric && TermsEqual(c.column, group))
  }

  function MetricCells(row: seq<Cell>, metric: string): seq<Cell> {
    Pick(row, (c: Cell) => c.numeric && TermsEqual(c.column, metric))
  }

  /** The label a row carries for a group column: that of the last such cell. */
  function LabelOf(row: seq<Cell>, group: string): string {
    var cells := GroupCells(row, group);
    if cells == [] then "" else cells[|cells| - 1].value
  }

  function RowTuple(row: seq<Cell>, groups: seq<string>): seq<string> {
    seq(|groups|, i requires 0 <= i < |groups| => LabelOf(row, groups[i]))
  }

  /** Every group column occurs in the row, with one label. */
  ghost predicate Labelled(row: seq<Cell>, groups: seq<string>) {
    forall g :: g in groups ==> LabelledBy(row, g)
  }

  ghost predicate LabelledBy(row: seq<Cell>, g: string) {
    GroupCells(row, g) != [] && Agree(row, g)
  }

  ghost predicate Agree(row: seq<Cell>, g: string) {
    forall c :: c in GroupCells(row, g) ==> c.value == LabelOf(row, g)
  }

  ghost predicate RowComplete(row: seq<Cell>, plan: Plan) {
    Labelled(row, plan.groups) && (plan.CountsRows() || MetricCells(row, plan.metric) != [])
  }

  predicate CellById(a: Cell, b: Cell) {
    Less(a.evidence.id, b.evidence.id)
  }

  predicate RefById(a: Evidence, b: Evidence) {
    Less(a.id, b.id)
  }

  lemma IdOrders()
    ensures StrictOrder(CellById) && StrictOrder(RefById)
  {
    LessIsStrictOrder();
  }

  /** The cells a row contributes: its metric cells, or its first cell by id when rows are counted. */
  function RowInputs(row: seq<Cell>, plan: Plan): seq<Cell> {
    if !plan.CountsRows() then MetricCells(row, plan.metric)
    else if Sort(row, CellById) == [] then []
    else [Sort(row, CellById)[0]]
  }

  predicate CellIsFiltered(cell: Cell, filters: seq<Filter>) {
    exists f :: f in filters && IsEquality(f) && CellMatches(cell, f)
  }

  // ----- the rows together -----

  /** Rows as GroupRows builds them from valid cells with distinct ids. */
  ghost predicate Wellformed(rows: Rows) {
    && (forall key :: key in rows ==> rows[key] != [] && DistinctIds(rows[key]))
    && (forall key, c :: key in rows && c in rows[key] ==> ValidCell(c) && c.rowKey == key)
    && (forall j, k {:trigger Apart(rows, j, k)} :: j in rows && k in rows && j != k ==> Apart(rows, j, k))
  }

  /** Cells of two rows have different ids. */
  ghost predicate Apart(rows: Rows, j: string, k: string)
    requires j in rows && k in rows
  {
    forall c, d :: c in rows[j] && d in rows[k] ==> c.evidence.id != d.evidence.id
  }

  ghost predicate Complete(scope: Scope) {
    forall key :: key in scope.rows ==> RowComplete(scope.rows[key], scope.plan)
  }

  function TupleOf(scope: Scope, key: string): seq<string>
    requires key in scope.rows
  {
    RowTuple(scope.rows[key], scope.plan.groups)
  }

  ghost function Tuples(scope: Scope, keys: set<string>): set<seq<string>>
    requires keys <= scope.rows.Keys
  {
    set key | key in keys :: TupleOf(scope, key)
  }

  /** The rows, among those given, that carry one group tuple. */
  ghost function BucketRows(scope: Scope, keys: set<string>, tuple: seq<string>): set<string>
    requires keys <= scope.rows.Keys
  {
    set key | key in keys && TupleOf(scope, key) == tuple
  }

  function CellValue(cell: Cell): real {
    if IsDecimal(cell.value) then Exact(cell.value) else 0.0
  }

  function SumOf(cells: seq<Cell>): real {
    if cells == [] then 0.0 else SumOf(cells[..|cells| - 1]) + CellValue(cells[|cells| - 1])
  }

  ghost function AnyOf(keys: set<string>): (key: string)
    requires keys != {}
    ensures key in keys
  {
    var k :| k in keys; k
  }

  /** The exact sum of the input cells of a set of rows. */
  ghost function TotalOver(scope: Scope, keys: set<string>): real
    requires keys <= scope.rows.Keys
  {
    if keys == {} then 0.0
    else
      var key := AnyOf(keys);
      TotalOver(scope, keys - {key}) + SumOf(RowInputs(scope.rows[key], scope.plan))
  }

  /** The number of input cells of a set of rows. */
  ghost function CountOver(scope: Scope, keys: set<string>): nat
    requires keys <= scope.rows.Keys
  {
    if keys == {} then 0
    else
      var key := AnyOf(keys);
      CountOver(scope, keys - {key}) + |RowInputs(scope.rows[key], scope.plan)|
  }

  /** Sum and count do not depend on which row is taken out first. */
  lemma {:induction false} FoldsRemove(scope: Scope, keys: set<string>, key: string)
    requires keys <= scope.rows.Keys && key in keys
    ensures TotalOver(scope, keys) == TotalOver(scope, keys - {key}) + SumOf(RowInputs(scope.rows[key], scope.plan))
    ensures CountOver(scope, keys) == CountOver(scope, keys - {key}) + |RowInputs(scope.rows[key], scope.plan)|
    decreases keys
  {
    var any := AnyOf(keys);
    if any == key {
    } else {
      FoldsRemove(scope, keys - {any}, key);
      FoldsRemove(scope, keys - {key}, any);
      assert keys - {any} - {key} == keys - {key} - {any};
    }
  }

  lemma FoldsAdd(scope: Scope, keys: set<string>, key: string)
    requires keys <= scope.rows.Keys && key in scope.rows && key !in keys
    ensures TotalOver(scope, keys + {key}) == TotalOver(scope, keys) + SumOf(RowInputs(scope.rows[key], scope.plan))
    ensures CountOver(scope, keys + {key}) == CountOver(scope, keys) + |RowInputs(scope.rows[key], scope.plan)|
  {
    FoldsRemove(scope, keys + {key}, key);
    assert keys + {key} - {key} == keys;
  }

  ghost predicate IsInput(scope: Scope, keys: set<string>, cell: Cell)
    requires keys <= scope.rows.Keys
  {
    exists key :: key in keys && cell in RowInputs(scope.rows[key], scope.plan)
  }

  ghost function InputRefs(scope: Scope, keys: set<string>): set<Evidence>
    requires keys <= scope.rows.Keys
  {
    set key, c | key in keys && c in RowInputs(scope.rows[key], scope.plan) :: c.evidence
  }

  ghost function FilterRefs(scope: Scope, keys: set<string>): set<Evidence>
    requires keys <= scope.rows.Keys
  {
    set key, c | key in keys && c in scope.rows[key] && CellIsFiltered(c, scope.filters) :: c.evidence
  }

  /** The witness a row offers for a group column: the evidence of its last such cell. */
  function GroupRef(row: seq<Cell>, group: string): (ref: Evidence)
    requires GroupCells(row, group) != []
  {
    var cells := GroupCells(row, group);
    cells[|cells| - 1].evidence
  }

  ghost predicate IsGroupRef(scope: Scope, keys: set<string>, group: string, ref: Evidence)
    requires keys <= scope.rows.Keys
  {
    exists key :: key in keys && RowOffers(scope.rows[key], group, ref)
  }

  ghost predicate RowOffers(row: seq<Cell>, group: string, ref: Evidence) {
    GroupCells(row, group) != [] && ref == GroupRef(row, group)
  }

  /** The offered witness with the smallest id. */
  ghost predicate IsLeastGroupRef(scope: Scope, keys: set<string>, group: string, ref: Evidence)
    requires keys <= scope.rows.Keys
  {
    && IsGroupRef(scope, keys, group, ref)
    && forall other :: IsGroupRef(scope, keys, group, other) ==> other == ref || Less(ref.id, other.id)
  }

  ghost predicate IsMaxScale(scope: Scope, keys: set<string>, scale: nat)
    requires keys <= scope.rows.Keys
  {
    && (forall c :: IsInput(scope, keys, c) ==> Scale(c.value) <= scale)
    && (scale > 0 ==> exists c :: IsInput(scope, keys, c) && Scale(c.value) == scale)
  }

  ghost predicate IsExtremum(scope: Scope, keys: set<string>, minimum: bool, value: real)
    requires keys <= scope.rows.Keys
  {
    && (exists c :: IsInput(scope, keys, c) && CellValue(c) == value)
    && forall c :: IsInput(scope, keys, c) ==> if minimum then value <= CellValue(c) else CellValue(c) <= value
  }

  /** The exact value of the aggregate over a set of rows. */
  ghost predicate IsValue(scope: Scope, keys: set<string>, value: real)
    requires keys <= scope.rows.Keys
  {
    var f := scope.plan.function_;
    if f == "COUNT" then value == CountOver(scope, keys) as real
    else if f == "AVG" then
      CountOver(scope, keys) > 0 && value == TotalOver(scope, keys) / CountOver(scope, keys) as real
    else if f == "MIN" || f == "MAX" then IsExtremum(scope, keys, f == "MIN", value)
    else value == TotalOver(scope, keys)
  }

  function Max(a: nat, b: nat): nat {
    if a > b then a else b
  }

  /** The scale a value is printed at, from the largest scale of its inputs. */
  ghost predicate IsPrintScale(function_: string, inputScale: nat, value: Rat, scale: nat)
    requires value.Lowest()
  {
    if function_ == "COUNT" then scale == 0
    else if function_ != "AVG" then scale == inputScale
    else if HasFiniteExpansion(value) then
      exists least :: IsLeastScale(value, least) && scale == Max(inputScale, least)
    else scale == Max(inputScale, 6)
  }

  ghost predicate IsPrinted(scope: Scope, keys: set<string>, value: real, text: string)
    requires keys <= scope.rows.Keys
  {
    exists r: Rat, inputScale: nat, scale: nat :: PrintedBy(scope, keys, value, text, r, inputScale, scale)
  }

  ghost predicate PrintedBy(scope: Scope, keys: set<string>, value: real, text: string, r: Rat, inputScale: nat, scale: nat)
    requires keys <= scope.rows.Keys
  {
    && r.Lowest() && r.Val() == value
    && (scope.plan.CountsRows() || IsMaxScale(scope, keys, inputScale))
    && IsPrintScale(scope.plan.function_, inputScale, r, scale)
    && text == FloatString(r, scale)
  }

  ghost predicate ListsById(refs: seq<Evidence>, all: set<Evidence>) {
    SortedBy(refs, RefById) && forall e :: e in refs <==> e in all
  }

  /** The bucket of one group tuple. */
  ghost predicate IsBucket(scope: Scope, tuple: seq<string>, value: real, bucket: Bucket) {
    var keys := BucketRows(scope, scope.rows.Keys, tuple);
    && bucket.key == GroupLabel(tuple)
    && IsPrinted(scope, keys, value, bucket.value)
    && bucket.count == CountOver(scope, keys)
    && ListsById(bucket.evidence, InputRefs(scope, keys))
    && bucket.groupValues == tuple
    && |bucket.groupEvidence| == |scope.plan.groups|
    && (forall d :: 0 <= d < |scope.plan.groups|
                    ==> IsLeastGroupRef(scope, keys, scope.plan.groups[d], bucket.groupEvidence[d]))
    && ListsById(bucket.filterEvidence, FilterRefs(scope, keys))
  }

  // ----- the ranking -----

  datatype Ranked = Ranked(key: string, value: real)

  /** The order of the answer: by value when asked for, ties and the rest by bucket key. */
  predicate Before(order: string, a: Ranked, b: Ranked) {
    if (order == "ASC" || order == "DESC") && a.value != b.value then
      if order == "ASC" then a.value < b.value else a.value > b.value
    else Less(a.key, b.key)
  }

  lemma BeforeIsStrictOrder(order: string)
    ensures StrictOrder((a, b) => Before(order, a, b))
    ensures forall a: Ranked, b: Ranked :: a.key != b.key ==> Before(order, a, b) || Before(order, b, a)
  {
    LessIsStrictOrder();
  }

  ghost predicate IsEntry(scope: Scope, entry: Ranked) {
    exists tuple :: IsEntryOf(scope, tuple, entry)
  }

  ghost predicate IsEntryOf(scope: Scope, tuple: seq<string>, entry: Ranked) {
    && tuple in Tuples(scope, scope.rows.Keys)
    && entry.key == BucketKey(tuple)
    && IsValue(scope, BucketRows(scope, scope.rows.Keys, tuple), entry.value)
  }

  /** All buckets, one per distinct group tuple, in answer order. */
  ghost predicate IsRanking(scope: Scope, order: string, ranking: seq<Ranked>) {
    && SortedBy(ranking, (a, b) => Before(order, a, b))
    && forall e :: e in ranking <==> IsEntry(scope, e)
  }

  /** The bucket stands for one entry of the ranking. */
  ghost predicate ShownAt(scope: Scope, entry: Ranked, bucket: Bucket) {
    && BucketKey(bucket.groupValues) == entry.key
    && bucket.groupValues in Tuples(scope, scope.rows.Keys)
    && IsBucket(scope, bucket.groupValues, entry.value, bucket)
  }

  ghost predicate ShowsRanking(scope: Scope, ranking: seq<Ranked>, limit: int, buckets: seq<Bucket>) {
    && |buckets| == (if 0 < limit < |ranking| then limit else |ranking|)
    && forall i {:trigger ShownAt(scope, ranking[i], buckets[i])} :: 0 <= i < |buckets| ==> ShownAt(scope, ranking[i], buckets[i])
  }

  /** The answer to an aggregate over the scope: the first limit buckets of its ranking. */
  ghost predicate IsAnswer(scope: Scope, order: string, limit: int, result: Result) {
    && result.function_ == scope.plan.function_ && result.metric == scope.plan.metric
    && result.groupBy == scope.plan.groups && result.order == order
    && exists ranking :: IsRanking(scope, order, ranking) && ShowsRanking(scope, ranking, limit, result.buckets)
  }

  // ----- uniqueness -----

  lemma ListIsUnique(a: seq<Evidence>, b: seq<Evidence>, all: set<Evidence>)
    requires ListsById(a, all) && ListsById(b, all)
    ensures a == b
  {
    IdOrders();
    SortedIsUnique(a, b, RefById);
  }

  lemma ValueIsUnique(scope: Scope, keys: set<string>, a: real, b: real)
    requires keys <= scope.rows.Keys && IsValue(scope, keys, a) && IsValue(scope, keys, b)
    ensures a == b
  {
    var f := scope.plan.function_;
    if f == "MIN" || f == "MAX" {
      var c :| IsInput(scope, keys, c) && CellValue(c) == a;
      var d :| IsInput(scope, keys, d) && CellValue(d) == b;
    }
  }

  lemma MaxScaleIsUnique(scope: Scope, keys: set<string>, m: nat, n: nat)
    requires keys <= scope.rows.Keys && IsMaxScale(scope, keys, m) && IsMaxScale(scope, keys, n)
    ensures m == n
  {
  }

  lemma PrintedByIsUnique(scope: Scope, keys: set<string>, value: real, a: string, r: Rat, m: nat, s: nat, b: string, q: Rat, n: nat, t: nat)
    requires keys <= scope.rows.Keys
    requires PrintedBy(scope, keys, value, a, r, m, s) && PrintedBy(scope, keys, value, b, q, n, t)
    ensures a == b
  {
    LowestIsUnique(r, q);
    if !scope.plan.CountsRows() {
      MaxScaleIsUnique(scope, keys, m, n);
    }
    PrintScaleIsUnique(scope.plan.function_, m, n, r, s, t);
  }

  lemma PrintScaleIsUnique(function_: string, m: nat, n: nat, r: Rat, s: nat, t: nat)
    requires r.Lowest() && (m == n || function_ == "COUNT")
    requires IsPrintScale(function_, m, r, s) && IsPrintScale(function_, n, r, t)
    ensures s == t
  {
  }

  lemma PrintedIsUnique(scope: Scope, keys: set<string>, value: real, a: string, b: string)
    requires keys <= scope.rows.Keys
    requires IsPrinted(scope, keys, value, a) && IsPrinted(scope, keys, value, b)
    ensures a == b
  {
    var r, m, s :| PrintedBy(scope, keys, value, a, r, m, s);
    var q, n, t :| PrintedBy(scope, keys, value, b, q, n, t);
    PrintedByIsUnique(scope, keys, value, a, r, m, s, b, q, n, t);
  }

  lemma BucketIsUnique(scope: Scope, tuple: seq<string>, value: real, a: Bucket, b: Bucket)
    requires IsBucket(scope, tuple, value, a) && IsBucket(scope, tuple, value, b)
    ensures a == b
  {
    var keys := BucketRows(scope, scope.rows.Keys, tuple);
    PrintedIsUnique(scope, keys, value, a.value, b.value);
    ListIsUnique(a.evidence, b.evidence, InputRefs(scope, keys));
    ListIsUnique(a.filterEvidence, b.filterEvidence, FilterRefs(scope, keys));
    forall d | 0 <= d < |scope.plan.groups| ensures a.groupEvidence[d] == b.groupEvidence[d] {
      LeastGroupRefIsUnique(scope, keys, scope.plan.groups[d], a.groupEvidence[d], b.groupEvidence[d]);
    }
    assert a.groupEvidence == b.groupEvidence;
  }

  lemma LeastGroupRefIsUnique(scope: Scope, keys: set<string>, group: string, a: Evidence, b: Evidence)
    requires keys <= scope.rows.Keys
    requires IsLeastGroupRef(scope, keys, group, a) && IsLeastGroupRef(scope, keys, group, b)
    ensures a == b
  {
    if a != b {
      LessIsTransitive(a.id, b.id, a.id);
      LessIsIrreflexive(a.id);
      assert false;
    }
  }

  lemma RankingIsUnique(scope: Scope, order: string, a: seq<Ranked>, b: seq<Ranked>)
    requires IsRanking(scope, order, a) && IsRanking(scope, order, b)
    ensures a == b
  {
    BeforeIsStrictOrder(order);
    SortedIsUnique(a, b, (x, y) => Before(order, x, y));
  }

  /** A scope has one answer: no visiting order of rows, columns or buckets can change it. */
  lemma AnswerIsUnique(scope: Scope, order: string, limit: int, a: Result, b: Result)
    requires IsAnswer(scope, order, limit, a) && IsAnswer(scope, order, limit, b)
    ensures a == b
  {
    var p: seq<Ranked> :| IsRanking(scope, order, p) && ShowsRanking(scope, p, limit, a.buckets);
    var q: seq<Ranked> :| IsRanking(scope, order, q) && ShowsRanking(scope, q, limit, b.buckets);
    RankingIsUnique(scope, order, p, q);
    forall i | 0 <= i < |a.buckets| ensures a.buckets[i] == b.buckets[i] {
      assert ShownAt(scope, p[i], a.buckets[i]) && ShownAt(scope, p[i], b.buckets[i]);
      BucketKeyIsInjective(a.buckets[i].groupValues, b.buckets[i].groupValues);
      BucketIsUnique(scope, a.buckets[i].groupValues, p[i].value, a.buckets[i], b.buckets[i]);
    }
    assert a.buckets == b.buckets;
  }
}
