/** The order of an answer, in terms of the exact values of its tuples. */
module AnalyticOrder {
  import opened GoText
  import opened Sorting
  import opened AnalyticCells
  import opened AnalyticPlan
  import opened AnalyticSpec
  import opened AnalyticResults

  /** A tuple with value v and key k may stand before one with value w and key m. */
  predicate InOrder(order: string, v: real, k: string, w: real, m: string) {
    && (order == "DESC" ==> v >= w)
    && (order == "ASC" ==> v <= w)
    && (v == w || (order != "ASC" && order != "DESC") ==> Precedes(k, m))
  }

  lemma EntriesInOrder(order: string, a: Ranked, b: Ranked)
    requires Before(order, a, b)
    ensures InOrder(order, a.value, a.key, b.value, b.key)
  {
    LessExactly(a.key, b.key);
  }

  ghost predicate IsTupleValue(scope: Scope, tuple: seq<string>, value: real) {
    IsValue(scope, BucketRows(scope, scope.rows.Keys, tuple), value)
  }

  /** The ranked entry of a shown tuple carries its value. */
  lemma ShownEntry(scope: Scope, order: string, ranking: seq<Ranked>, limit: int, buckets: seq<Bucket>, i: int, v: real)
    requires IsRanking(scope, order, ranking) && ShowsRanking(scope, ranking, limit, buckets) && 0 <= i < |buckets|
    requires IsTupleValue(scope, buckets[i].groupValues, v)
    ensures ranking[i] == Ranked(BucketKey(buckets[i].groupValues), v)
  {
    assert ShownAt(scope, ranking[i], buckets[i]) && ranking[i] in ranking;
    ShownValue(scope, ranking[i], buckets[i]);
    ValueIsUnique(scope, BucketRows(scope, scope.rows.Keys, buckets[i].groupValues), ranking[i].value, v);
  }

  /** DESC shows larger values first, ASC smaller ones; ties, and any other order, go by the bytes of the key. */
  lemma AnswerIsOrdered(scope: Scope, order: string, limit: int, result: Result, i: int, j: int, v: real, w: real)
    requires IsAnswer(scope, order, limit, result) && 0 <= i < j < |result.buckets|
    requires IsTupleValue(scope, result.buckets[i].groupValues, v) && IsTupleValue(scope, result.buckets[j].groupValues, w)
    ensures InOrder(order, v, BucketKey(result.buckets[i].groupValues), w, BucketKey(result.buckets[j].groupValues))
  {
    var ranking: seq<Ranked> :| IsRanking(scope, order, ranking) && ShowsRanking(scope, ranking, limit, result.buckets);
    ShownEntry(scope, order, ranking, limit, result.buckets, i, v);
    ShownEntry(scope, order, ranking, limit, result.buckets, j, w);
    EntriesInOrder(order, ranking[i], ranking[j]);
  }

  /** What a limit leaves out stands behind everything shown. */
  lemma OmittedStandBehind(scope: Scope, order: string, limit: int, result: Result, i: int, tuple: seq<string>, v: real, w: real)
    requires Wellformed(scope.rows) && Complete(scope) && IsAnswer(scope, order, limit, result) && 0 <= i < |result.buckets|
    requires tuple in Tuples(scope, scope.rows.Keys) && forall b :: b in result.buckets ==> b.groupValues != tuple
    requires IsTupleValue(scope, result.buckets[i].groupValues, v) && IsTupleValue(scope, tuple, w)
    ensures InOrder(order, v, BucketKey(result.buckets[i].groupValues), w, BucketKey(tuple))
  {
    var ranking: seq<Ranked> :| IsRanking(scope, order, ranking) && ShowsRanking(scope, ranking, limit, result.buckets);
    ShownEntry(scope, order, ranking, limit, result.buckets, i, v);
    var entry := EntryOfTuple(scope, order, ranking, tuple);
    ValueIsUnique(scope, BucketRows(scope, scope.rows.Keys, tuple), entry.value, w);
    var k := IndexOfEntry(scope, order, ranking, entry);
    if k < |result.buckets| {
      ShownUnderKey(scope, ranking, limit, result.buckets, tuple, k);
      assert false;
    }
    EntriesInOrder(order, ranking[i], ranking[k]);
  }

  lemma ShownUnderKey(scope: Scope, ranking: seq<Ranked>, limit: int, buckets: seq<Bucket>, tuple: seq<string>, k: int)
    requires ShowsRanking(scope, ranking, limit, buckets) && 0 <= k < |buckets| && ranking[k].key == BucketKey(tuple)
    ensures buckets[k].groupValues == tuple && buckets[k] in buckets
  {
    assert ShownAt(scope, ranking[k], buckets[k]);
    BucketKeyIsInjective(buckets[k].groupValues, tuple);
  }

  lemma ListAscends(refs: seq<Evidence>, all: set<Evidence>, i: int, j: int)
    requires ListsById(refs, all) && 0 <= i < j < |refs|
    ensures Precedes(refs[i].id, refs[j].id)
  {
    assert RefById(refs[i], refs[j]);
    LessExactly(refs[i].id, refs[j].id);
  }

  /** The witnesses of a shown bucket, and those of its filters, come in ascending order of their ids. */
  lemma EvidenceAscends(scope: Scope, order: string, limit: int, result: Result, bucket: Bucket)
    requires IsAnswer(scope, order, limit, result) && bucket in result.buckets
    ensures forall i, j :: 0 <= i < j < |bucket.evidence| ==> Precedes(bucket.evidence[i].id, bucket.evidence[j].id)
    ensures forall i, j :: 0 <= i < j < |bucket.filterEvidence| ==> Precedes(bucket.filterEvidence[i].id, bucket.filterEvidence[j].id)
  {
    var entry := ShownBucket(scope, order, limit, result, bucket);
    var keys := BucketRows(scope, scope.rows.Keys, bucket.groupValues);
    forall i, j | 0 <= i < j < |bucket.evidence| ensures Precedes(bucket.evidence[i].id, bucket.evidence[j].id) {
      ListAscends(bucket.evidence, InputRefs(scope, keys), i, j);
    }
    forall i, j | 0 <= i < j < |bucket.filterEvidence| ensures Precedes(bucket.filterEvidence[i].id, bucket.filterEvidence[j].id) {
      ListAscends(bucket.filterEvidence, FilterRefs(scope, keys), i, j);
    }
  }

  /** A counted row is witnessed by its one cell of least id. */
  lemma CountWitnessIsLeast(row: seq<Cell>, plan: Plan)
    requires plan.CountsRows() && row != [] && DistinctIds(row)
    ensures |RowInputs(row, plan)| == 1 && RowInputs(row, plan)[0] in row
    ensures forall c :: c in row && c != RowInputs(row, plan)[0] ==> Precedes(RowInputs(row, plan)[0].evidence.id, c.evidence.id)
  {
    IdOrders();
    forall a, b | a in row && b in row && a != b ensures CellById(a, b) || CellById(b, a) {
      DifferentIds(row, a, b);
      LessIsTotal(a.evidence.id, b.evidence.id);
    }
    SortSorts(row, CellById);
    var sorted := Sort(row, CellById);
    assert row[0] in sorted;
    forall c | c in row && c != sorted[0] ensures Precedes(sorted[0].evidence.id, c.evidence.id) {
      var i :| 0 <= i < |sorted| && sorted[i] == c;
      assert CellById(sorted[0], sorted[i]);
      LessExactly(sorted[0].evidence.id, c.evidence.id);
    }
  }

  lemma DifferentIds(row: seq<Cell>, a: Cell, b: Cell)
    requires DistinctIds(row) && a in row && b in row && a != b
    ensures a.evidence.id != b.evidence.id && Distinct(row)
  {
    var i :| 0 <= i < |row| && row[i] == a;
    var j :| 0 <= j < |row| && row[j] == b;
  }

  /** Without counting, a row contributes its numeric cells under the metric's column, in order. */
  lemma MetricInputs(row: seq<Cell>, plan: Plan)
    requires !plan.CountsRows()
    ensures forall c :: c in RowInputs(row, plan) <==> c in row && c.numeric && TermIdentity(c.column) == TermIdentity(plan.metric)
  {
    PickElements(row, (c: Cell) => c.numeric && TermsEqual(c.column, plan.metric));
  }

  /** The labels of a row under a group are its text cells in the group's column. */
  lemma GroupInputs(row: seq<Cell>, group: string)
    ensures forall c :: c in GroupCells(row, group) <==> c in row && !c.numeric && TermIdentity(c.column) == TermIdentity(group)
  {
    PickElements(row, (c: Cell) => !c.numeric && TermsEqual(c.column, group));
  }

  /** The filter proofs of a scope are the cells that meet one of its equality filters. */
  lemma FilterInputs(cell: Cell, filters: seq<Filter>)
    ensures CellIsFiltered(cell, filters) <==>
            exists f :: f in filters && IsEqualityOn(f, cell)
  {
    forall f | f in filters ensures IsEqualityOn(f, cell) <==> IsEquality(f) && CellMatches(cell, f) {
      FilterMeans(f, cell);
    }
  }

  ghost predicate IsEqualityOn(f: Filter, cell: Cell) {
    exists column :: f.name == "equals:" + column && TermIdentity(cell.column) == TermIdentity(column) && ToLower(cell.value) == ToLower(f.value)
  }

  lemma FilterMeans(f: Filter, cell: Cell)
    ensures IsEqualityOn(f, cell) <==> IsEquality(f) && CellMatches(cell, f)
  {
    IsEqualityExactly(f);
    if IsEquality(f) {
      EqualityFilter(f.name[7..], f.value, cell);
      assert f.name == "equals:" + f.name[7..];
      forall column | f.name == "equals:" + column ensures column == f.name[7..] { }
    }
  }
}
