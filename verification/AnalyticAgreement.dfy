/** The reducer's answers against validateResult: exactly which ones the check accepts. */
module AnalyticAgreement {
  import opened Sets
  import opened GoText
  import opened Sorting
  import opened Decimals
  import opened AnalyticCells
  import opened AnalyticPlan
  import opened AnalyticSpec
  import opened AnalyticBuckets
  import opened AnalyticFinish
  import opened AnalyticResults
  import opened AnalyticRegistry

  // ----- valid names -----

  lemma IdentityIsOpaque(column: string)
    requires ValidOpaque(column)
    ensures ValidOpaque(TermIdentity(column))
  {
    var identity := TermIdentity(column);
    var open := IndexOf(column, '[');
    assert |identity| == |column|;
    assert forall i :: 0 <= i < |column| ==> identity[i] == if i < open then LowerChar(column[i]) else column[i];
  }

  lemma ColumnIsOpaque(rows: Rows, numeric: bool, column: string)
    requires Wellformed(rows) && column in Columns(rows, numeric)
    ensures ValidOpaque(column) && TermIdentity(column) == column
  {
    var key, c :| key in rows && c in rows[key] && c.numeric == numeric && column == TermIdentity(c.column);
    assert ValidCell(c);
    IdentityIsOpaque(c.column);
    TermIdentityIsIdempotent(c.column);
  }

  ghost predicate OpaqueNames(plan: Plan) {
    && (plan.metric == "" || ValidOpaque(plan.metric))
    && forall g :: g in plan.groups ==> ValidOpaque(g) && TermIdentity(g) == g
  }

  lemma PlanIsOpaque(spec: AggregateSpec, rows: Rows, plan: Plan)
    requires Wellformed(rows) && ResolvesTo(spec, rows, plan)
    ensures OpaqueNames(plan)
  {
    if plan.metric != "" {
      ColumnIsOpaque(rows, true, plan.metric);
    }
    forall g | g in plan.groups ensures ValidOpaque(g) && TermIdentity(g) == g {
      GroupInColumns(spec.groupBy, Columns(rows, false), plan.groups, g);
      ColumnIsOpaque(rows, false, g);
    }
  }

  lemma GroupInColumns(requested: seq<string>, columns: set<string>, groups: seq<string>, g: string)
    requires IsChosenGroups(requested, columns, groups) && g in groups
    ensures g in columns
  {
    if AllResolve(requested, columns) {
      var i :| 0 <= i < |groups| && groups[i] == g;
      assert requested[i] in requested;
    }
  }

  lemma GroupsAreDifferent(requested: seq<string>, columns: set<string>, groups: seq<string>)
    requires IsChosenGroups(requested, columns, groups) && PairwiseDifferent(requested)
    ensures forall d, e :: 0 <= d < e < |groups| ==> groups[d] != groups[e]
  {
    if AllResolve(requested, columns) {
      forall d, e | 0 <= d < e < |groups| ensures groups[d] != groups[e] {
        assert !TermsEqual(requested[d], requested[e]);
      }
    }
  }

  // ----- labels -----

  /** A joined label differs from an opaque text only in that it may be too long. */
  predicate OpaqueButLong(value: string) {
    && value != "" && Trimmed(value) && '\r' !in value && '\n' !in value && '\0' !in value
  }

  lemma {:induction false} JoinIsOpaque(values: seq<string>)
    requires values != [] && forall v :: v in values ==> ValidOpaque(v)
    ensures OpaqueButLong(Join(values, " / "))
  {
    assert ValidOpaque(values[0]);
    if |values| == 1 {
    } else {
      var rest := Join(values[1..], " / ");
      JoinIsOpaque(values[1..]);
      JoinTwo(values[0], rest);
    }
  }

  lemma JoinTwo(a: string, b: string)
    requires OpaqueButLong(a) && OpaqueButLong(b)
    ensures OpaqueButLong(a + " / " + b)
  {
    var s := a + " / " + b;
    assert s[0] == a[0] && s[|s| - 1] == b[|b| - 1];
  }

  lemma LabelIsOpaque(values: seq<string>)
    requires forall v :: v in values ==> ValidOpaque(v)
    ensures ValidOpaque(GroupLabel(values)) <==> |GroupLabel(values)| <= 256
  {
    if values != [] {
      assert ValidOpaque(values[0]);
      JoinIsOpaque(values);
    }
  }

  lemma TupleIsOpaque(scope: Scope, tuple: seq<string>)
    requires Wellformed(scope.rows) && Complete(scope) && tuple in Tuples(scope, scope.rows.Keys)
    ensures |tuple| == |scope.plan.groups| && forall v :: v in tuple ==> ValidOpaque(v)
  {
    var key :| key in scope.rows && TupleOf(scope, key) == tuple;
    assert RowComplete(scope.rows[key], scope.plan);
    RowTupleIsOpaque(scope.rows[key], scope.plan.groups);
  }

  lemma RowTupleIsOpaque(row: seq<Cell>, groups: seq<string>)
    requires (forall c :: c in row ==> ValidCell(c)) && Labelled(row, groups)
    ensures forall v :: v in RowTuple(row, groups) ==> ValidOpaque(v)
  {
    forall i | 0 <= i < |groups| ensures ValidOpaque(RowTuple(row, groups)[i]) {
      assert LabelledBy(row, groups[i]);
      LabelIsValid(row, groups[i]);
    }
  }

  lemma LabelIsValid(row: seq<Cell>, group: string)
    requires (forall c :: c in row ==> ValidCell(c)) && GroupCells(row, group) != []
    ensures ValidOpaque(LabelOf(row, group))
  {
    var c := LastGroupCell(row, group);
    ValueIsOpaque(c);
  }

  lemma ValueIsOpaque(c: Cell)
    requires ValidCell(c)
    ensures ValidOpaque(c.value)
  {
  }

  lemma LastGroupCell(row: seq<Cell>, group: string) returns (c: Cell)
    requires GroupCells(row, group) != []
    ensures c in row && c.value == LabelOf(row, group)
  {
    PickElements(row, (c: Cell) => !c.numeric && TermsEqual(c.column, group));
    var cells := GroupCells(row, group);
    c := cells[|cells| - 1];
    assert c in cells;
  }

  // ----- witnesses -----

  lemma CellRefIsKnown(cells: seq<Cell>, c: Cell)
    requires DistinctIds(cells) && c in cells
    ensures Known(cells, c.evidence)
  {
    var i :| 0 <= i < |cells| && cells[i] == c;
    assert KnownAt(cells, c.evidence, i);
  }

  lemma FromRowsIsKnown(scope: Scope, cells: seq<Cell>, refs: seq<Evidence>)
    requires DrawnFrom(scope.rows, cells) && FromRows(scope, scope.rows.Keys, refs)
    ensures AllKnown(cells, refs)
  {
    forall e | e in refs ensures Known(cells, e) {
      var k, c :| k in scope.rows.Keys && c in scope.rows[k] && e == c.evidence;
      CellRefIsKnown(cells, c);
    }
  }

  lemma SortedRefsDistinct(refs: seq<Evidence>)
    requires SortedBy(refs, RefById)
    ensures DistinctRefIds(refs)
  {
    LessIsStrictOrder();
  }

  lemma InputRefsFromRows(scope: Scope, keys: set<string>, refs: seq<Evidence>)
    requires Wellformed(scope.rows) && keys <= scope.rows.Keys && forall e :: e in refs ==> e in InputRefs(scope, keys)
    ensures FromRows(scope, scope.rows.Keys, refs)
  {
    forall e | e in refs
      ensures exists k, c :: k in scope.rows.Keys && c in scope.rows[k] && e == c.evidence
    {
      var k, c :| k in keys && c in RowInputs(scope.rows[k], scope.plan) && e == c.evidence;
      RowInputsOfRow(scope.rows[k], scope.plan);
      assert c in scope.rows[k];
    }
  }

  lemma FilterRefsFromRows(scope: Scope, keys: set<string>, refs: seq<Evidence>)
    requires keys <= scope.rows.Keys && forall e :: e in refs ==> e in FilterRefs(scope, keys)
    ensures FromRows(scope, scope.rows.Keys, refs)
  {
    forall e | e in refs
      ensures exists k, c :: k in scope.rows.Keys && c in scope.rows[k] && e == c.evidence
    {
      var k, c :| k in keys && c in scope.rows[k] && CellIsFiltered(c, scope.filters) && e == c.evidence;
    }
  }

  /** The non-numeric cell behind a group witness. */
  lemma GroupRefCell(scope: Scope, keys: set<string>, group: string, ref: Evidence) returns (key: string, c: Cell)
    requires keys <= scope.rows.Keys && IsGroupRef(scope, keys, group, ref)
    ensures key in keys && c in scope.rows[key] && c.evidence == ref && !c.numeric && TermsEqual(c.column, group)
  {
    key :| key in keys && RowOffers(scope.rows[key], group, ref);
    c := OfferedCell(scope.rows[key], group, ref);
  }

  /** The cell behind an input witness. */
  lemma InputRefCell(scope: Scope, keys: set<string>, ref: Evidence) returns (key: string, c: Cell)
    requires Wellformed(scope.rows) && keys <= scope.rows.Keys && ref in InputRefs(scope, keys)
    ensures key in keys && c in scope.rows[key] && c.evidence == ref
  {
    key, c :| key in keys && c in RowInputs(scope.rows[key], scope.plan) && ref == c.evidence;
    RowInputsOfRow(scope.rows[key], scope.plan);
  }

  lemma GroupRefsDiffer(scope: Scope, keys: set<string>, g: string, h: string, a: Evidence, b: Evidence)
    requires Wellformed(scope.rows) && keys <= scope.rows.Keys && !TermsEqual(g, h)
    requires IsGroupRef(scope, keys, g, a) && IsGroupRef(scope, keys, h, b)
    ensures a.id != b.id
  {
    var k, c := GroupRefCell(scope, keys, g, a);
    var l, d := GroupRefCell(scope, keys, h, b);
    if a.id == b.id {
      SameIdSameCell(scope.rows, k, l, c, d);
      assert false;
    }
  }

  ghost predicate WitnessesOf(scope: Scope, keys: set<string>, refs: seq<Evidence>)
    requires keys <= scope.rows.Keys
  {
    |refs| == |scope.plan.groups|
    && forall d :: 0 <= d < |refs| ==> IsLeastGroupRef(scope, keys, scope.plan.groups[d], refs[d])
  }

  lemma GroupWitnesses(scope: Scope, keys: set<string>, refs: seq<Evidence>)
    requires Wellformed(scope.rows) && keys <= scope.rows.Keys && WitnessesOf(scope, keys, refs)
    requires forall d, e :: 0 <= d < e < |scope.plan.groups| ==> !TermsEqual(scope.plan.groups[d], scope.plan.groups[e])
    ensures DistinctRefIds(refs) && FromRows(scope, scope.rows.Keys, refs)
  {
    forall i, j | 0 <= i < j < |refs| ensures refs[i].id != refs[j].id {
      GroupRefsDiffer(scope, keys, scope.plan.groups[i], scope.plan.groups[j], refs[i], refs[j]);
    }
    forall e | e in refs
      ensures exists k, c :: k in scope.rows.Keys && c in scope.rows[k] && e == c.evidence
    {
      var i :| 0 <= i < |refs| && refs[i] == e;
      var key, c := GroupRefCell(scope, keys, scope.plan.groups[i], refs[i]);
    }
  }

  /** A counted row of the bucket is proved by the very cell that proves one of its labels. */
  ghost predicate Clashes(scope: Scope, tuple: seq<string>) {
    var keys := BucketRows(scope, scope.rows.Keys, tuple);
    exists d: nat, ref :: ClashesAt(scope, keys, d, ref)
  }

  ghost predicate ClashesAt(scope: Scope, keys: set<string>, d: nat, ref: Evidence)
    requires keys <= scope.rows.Keys
  {
    d < |scope.plan.groups| && IsLeastGroupRef(scope, keys, scope.plan.groups[d], ref) && ref in InputRefs(scope, keys)
  }

  lemma NumbersNeverClash(scope: Scope, tuple: seq<string>)
    requires Wellformed(scope.rows) && (!scope.plan.CountsRows() || scope.plan.groups == [])
    ensures !Clashes(scope, tuple)
  {
    var keys := BucketRows(scope, scope.rows.Keys, tuple);
    forall d: nat, ref: Evidence ensures !ClashesAt(scope, keys, d, ref) {
      if ClashesAt(scope, keys, d, ref) {
        NumberIsNoLabel(scope, keys, scope.plan.groups[d], ref);
        assert false;
      }
    }
  }

  lemma NumberIsNoLabel(scope: Scope, keys: set<string>, group: string, ref: Evidence)
    requires Wellformed(scope.rows) && !scope.plan.CountsRows() && keys <= scope.rows.Keys
    requires ref in InputRefs(scope, keys)
    ensures !IsGroupRef(scope, keys, group, ref)
  {
    var k, c :| k in keys && c in RowInputs(scope.rows[k], scope.plan) && ref == c.evidence;
    RowInputsOfRow(scope.rows[k], scope.plan);
    InputIsInRow(scope, keys, c);
    if IsGroupRef(scope, keys, group, ref) {
      var l, d := GroupRefCell(scope, keys, group, ref);
      SameIdSameCell(scope.rows, k, l, c, d);
      assert false;
    }
  }

  lemma DisjointIsNoClash(scope: Scope, keys: set<string>, evidence: seq<Evidence>, groupEvidence: seq<Evidence>)
    requires Wellformed(scope.rows) && keys <= scope.rows.Keys && WitnessesOf(scope, keys, groupEvidence)
    requires forall e :: e in evidence <==> e in InputRefs(scope, keys)
    ensures Disjoint(evidence, groupEvidence) <==> forall d: nat, ref :: !ClashesAt(scope, keys, d, ref)
  {
    if d: nat, ref :| ClashesAt(scope, keys, d, ref) {
      LeastGroupRefIsUnique(scope, keys, scope.plan.groups[d], ref, groupEvidence[d]);
      assert ref in evidence && groupEvidence[d] in groupEvidence;
    } else {
      forall e, f | e in evidence && f in groupEvidence ensures e.id != f.id {
        var d: nat :| d < |groupEvidence| && groupEvidence[d] == f;
        assert !ClashesAt(scope, keys, d, f);
        InputAndLabel(scope, keys, scope.plan.groups[d], e, f);
      }
    }
  }

  lemma InputAndLabel(scope: Scope, keys: set<string>, group: string, e: Evidence, f: Evidence)
    requires Wellformed(scope.rows) && keys <= scope.rows.Keys
    requires e in InputRefs(scope, keys) && IsGroupRef(scope, keys, group, f)
    ensures e.id == f.id ==> e == f
  {
    var k, c := InputRefCell(scope, keys, e);
    var l, d := GroupRefCell(scope, keys, group, f);
    if e.id == f.id {
      SameIdSameCell(scope.rows, k, l, c, d);
    }
  }

  // ----- one bucket -----

  ghost predicate SeparateGroups(plan: Plan) {
    forall d, e :: 0 <= d < e < |plan.groups| ==> !TermsEqual(plan.groups[d], plan.groups[e])
  }

  lemma GroupsAreSeparate(request: Request, plan: Plan)
    requires ValidSpec(request.spec) && ResolvesTo(request.spec, ScopeOf(request, plan).rows, plan) && OpaqueNames(plan)
    ensures SeparateGroups(plan)
  {
    GroupsAreDifferent(request.spec.groupBy, Columns(ScopeOf(request, plan).rows, false), plan.groups);
    forall d, e | 0 <= d < e < |plan.groups| ensures !TermsEqual(plan.groups[d], plan.groups[e]) {
      assert plan.groups[d] in plan.groups && plan.groups[e] in plan.groups;
    }
  }

  lemma InputsAreAccepted(scope: Scope, cells: seq<Cell>, keys: set<string>, refs: seq<Evidence>)
    requires Wellformed(scope.rows) && DrawnFrom(scope.rows, cells) && keys <= scope.rows.Keys
    requires ListsById(refs, InputRefs(scope, keys))
    ensures AllKnown(cells, refs) && DistinctRefIds(refs)
  {
    SortedRefsDistinct(refs);
    InputRefsFromRows(scope, keys, refs);
    FromRowsIsKnown(scope, cells, refs);
  }

  lemma FiltersAreAccepted(scope: Scope, cells: seq<Cell>, keys: set<string>, refs: seq<Evidence>)
    requires DrawnFrom(scope.rows, cells) && keys <= scope.rows.Keys && ListsById(refs, FilterRefs(scope, keys))
    ensures AllKnown(cells, refs) && DistinctRefIds(refs)
  {
    SortedRefsDistinct(refs);
    FilterRefsFromRows(scope, keys, refs);
    FromRowsIsKnown(scope, cells, refs);
  }

  lemma GroupsAreAccepted(scope: Scope, cells: seq<Cell>, keys: set<string>, refs: seq<Evidence>)
    requires Wellformed(scope.rows) && DrawnFrom(scope.rows, cells) && keys <= scope.rows.Keys
    requires WitnessesOf(scope, keys, refs) && SeparateGroups(scope.plan)
    ensures AllKnown(cells, refs) && DistinctRefIds(refs)
  {
    GroupWitnesses(scope, keys, refs);
    FromRowsIsKnown(scope, cells, refs);
  }

  /** The witnesses of a bucket pass unless a label and a counted row share one. */
  lemma RefsAgree(scope: Scope, cells: seq<Cell>, bucket: Bucket, value: real)
    requires Wellformed(scope.rows) && DrawnFrom(scope.rows, cells) && SeparateGroups(scope.plan)
    requires IsBucket(scope, bucket.groupValues, value, bucket)
    ensures RefsAccepted(bucket, cells) <==> !Clashes(scope, bucket.groupValues)
  {
    var keys := BucketRows(scope, scope.rows.Keys, bucket.groupValues);
    InputsAreAccepted(scope, cells, keys, bucket.evidence);
    FiltersAreAccepted(scope, cells, keys, bucket.filterEvidence);
    GroupsAreAccepted(scope, cells, keys, bucket.groupEvidence);
    DisjointIsNoClash(scope, keys, bucket.evidence, bucket.groupEvidence);
  }

  lemma HeadAgrees(scope: Scope, bucket: Bucket, value: real)
    requires Wellformed(scope.rows) && Complete(scope) && bucket.groupValues in Tuples(scope, scope.rows.Keys)
    requires IsBucket(scope, bucket.groupValues, value, bucket)
    requires IsValue(scope, BucketRows(scope, scope.rows.Keys, bucket.groupValues), value)
    ensures BucketHead(bucket) <==> |GroupLabel(bucket.groupValues)| <= 256
    ensures forall v :: v in bucket.groupValues ==> ValidOpaque(v)
  {
    var keys := BucketRows(scope, scope.rows.Keys, bucket.groupValues);
    TupleHasRows(scope, bucket.groupValues);
    CountIsPositive(scope, keys);
    SomeInput(scope, keys, bucket.evidence);
    PrintTells(scope, keys, value, bucket.value);
    TupleIsOpaque(scope, bucket.groupValues);
    LabelIsOpaque(bucket.groupValues);
  }

  lemma SomeInput(scope: Scope, keys: set<string>, refs: seq<Evidence>)
    requires Wellformed(scope.rows) && Complete(scope) && keys <= scope.rows.Keys && keys != {}
    requires forall e :: e in InputRefs(scope, keys) ==> e in refs
    ensures refs != []
  {
    var key := AnyOf(keys);
    assert RowComplete(scope.rows[key], scope.plan);
    RowInputsOfRow(scope.rows[key], scope.plan);
    var inputs := RowInputs(scope.rows[key], scope.plan);
    assert inputs[0] in inputs;
    assert inputs[0].evidence in InputRefs(scope, keys);
  }

  lemma BucketAgrees(scope: Scope, request: Request, entry: Ranked, bucket: Bucket)
    requires Wellformed(scope.rows) && Complete(scope) && DrawnFrom(scope.rows, request.cells) && SeparateGroups(scope.plan)
    requires |scope.plan.groups| == |request.spec.groupBy|
    requires IsEntry(scope, entry) && ShownAt(scope, entry, bucket)
    ensures BucketAccepted(bucket, request, |scope.plan.groups|)
       <==> |GroupLabel(bucket.groupValues)| <= 256 && !Clashes(scope, bucket.groupValues)
  {
    ShownValue(scope, entry, bucket);
    HeadAgrees(scope, bucket, entry.value);
    RefsAgree(scope, request.cells, bucket, entry.value);
    TupleIsOpaque(scope, bucket.groupValues);
  }

  // ----- the number of buckets -----

  lemma ShownTuple(scope: Scope, order: string, limit: int, result: Result, i: int) returns (tuple: seq<string>)
    requires IsAnswer(scope, order, limit, result) && 0 <= i < |result.buckets|
    ensures tuple == result.buckets[i].groupValues && tuple in Tuples(scope, scope.rows.Keys)
  {
    var entry := ShownBucket(scope, order, limit, result, result.buckets[i]);
    tuple := result.buckets[i].groupValues;
  }

  lemma ShownTuplesDiffer(scope: Scope, order: string, limit: int, result: Result)
    requires IsAnswer(scope, order, limit, result)
    ensures forall i, j :: 0 <= i < j < |result.buckets| ==> result.buckets[i].groupValues != result.buckets[j].groupValues
  {
    var ranking: seq<Ranked> :| IsRanking(scope, order, ranking) && ShowsRanking(scope, ranking, limit, result.buckets);
    forall i, j | 0 <= i < j < |result.buckets| ensures result.buckets[i].groupValues != result.buckets[j].groupValues {
      DifferentTuples(scope, order, ranking, limit, result.buckets, i, j);
    }
  }

  lemma DifferentTuples(scope: Scope, order: string, ranking: seq<Ranked>, limit: int, buckets: seq<Bucket>, i: int, j: int)
    requires IsRanking(scope, order, ranking) && ShowsRanking(scope, ranking, limit, buckets) && 0 <= i < j < |buckets|
    ensures buckets[i].groupValues != buckets[j].groupValues
  {
    BeforeIsStrictOrder(order);
    SortedIsDistinct(ranking, (a, b) => Before(order, a, b));
    assert ShownAt(scope, ranking[i], buckets[i]) && ShownAt(scope, ranking[j], buckets[j]);
    assert ranking[i] in ranking && ranking[j] in ranking;
    ShownValue(scope, ranking[i], buckets[i]);
    ShownValue(scope, ranking[j], buckets[j]);
    if buckets[i].groupValues == buckets[j].groupValues {
      ValueIsUnique(scope, BucketRows(scope, scope.rows.Keys, buckets[i].groupValues), ranking[i].value, ranking[j].value);
      assert false;
    }
  }

  /** An answer has at least one bucket and no more than there are group tuples. */
  lemma AnswerSize(scope: Scope, order: string, limit: int, result: Result)
    requires Wellformed(scope.rows) && Complete(scope) && scope.rows != map[] && IsAnswer(scope, order, limit, result)
    ensures 0 < |result.buckets| <= |Tuples(scope, scope.rows.Keys)|
  {
    var tuples := seq(|result.buckets|, i requires 0 <= i < |result.buckets| => result.buckets[i].groupValues);
    ShownTuplesDiffer(scope, order, limit, result);
    forall i | 0 <= i < |result.buckets| ensures tuples[i] in Tuples(scope, scope.rows.Keys) {
      var tuple := ShownTuple(scope, order, limit, result, i);
    }
    DistinctFits(tuples, Tuples(scope, scope.rows.Keys));
    AnswerIsNotEmpty(scope, order, limit, result);
  }

  lemma AnswerIsNotEmpty(scope: Scope, order: string, limit: int, result: Result)
    requires Wellformed(scope.rows) && Complete(scope) && scope.rows != map[] && IsAnswer(scope, order, limit, result)
    ensures 0 < |result.buckets|
  {
    var ranking: seq<Ranked> :| IsRanking(scope, order, ranking) && ShowsRanking(scope, ranking, limit, result.buckets);
    var key :| key in scope.rows;
    assert TupleOf(scope, key) in Tuples(scope, scope.rows.Keys);
    var entry := EntryOfTuple(scope, order, ranking, TupleOf(scope, key));
  }

  // ----- the whole result -----

  lemma HeaderAgrees(spec: AggregateSpec, request: Request, plan: Plan, result: Result)
    requires spec == request.spec && spec.function_ in FUNCTIONS && OpaqueNames(plan) && |plan.groups| == |spec.groupBy|
    requires 0 < |result.buckets| <= MAX_BUCKETS && result.order == spec.order
    requires result.function_ == plan.function_ && result.metric == plan.metric && result.groupBy == plan.groups
    ensures HeaderAccepted(result, request, MAX_BUCKETS) <==> plan.function_ == spec.function_
  {
    FunctionIsOpaque(spec.function_);
  }

  lemma FunctionIsOpaque(function_: string)
    requires function_ in FUNCTIONS
    ensures ValidOpaque(function_)
  {
  }

  /** The buckets of a result fit the check: short labels, no witness proving a label and a row. */
  ghost predicate BucketsFit(scope: Scope, result: Result) {
    forall b :: b in result.buckets ==> |GroupLabel(b.groupValues)| <= 256 && !Clashes(scope, b.groupValues)
  }

  lemma BucketsAgree(scope: Scope, request: Request, result: Result)
    requires Wellformed(scope.rows) && Complete(scope) && DrawnFrom(scope.rows, request.cells) && SeparateGroups(scope.plan)
    requires |scope.plan.groups| == |request.spec.groupBy|
    requires IsAnswer(scope, request.spec.order, request.spec.limit, result)
    ensures (forall b :: b in result.buckets ==> BucketAccepted(b, request, |result.groupBy|)) <==> BucketsFit(scope, result)
  {
    forall b | b in result.buckets
      ensures BucketAccepted(b, request, |result.groupBy|)
         <==> |GroupLabel(b.groupValues)| <= 256 && !Clashes(scope, b.groupValues)
    {
      var entry := ShownBucket(scope, request.spec.order, request.spec.limit, result, b);
      BucketAgrees(scope, request, entry, b);
    }
  }

  /** validateResult accepts an answer if and only if the function was not replaced by COUNT, no
      joined label is longer than 256 bytes, and no label shares its witness with a counted row. */
  lemma AnswerIsAccepted(request: Request, plan: Plan, result: Result)
    requires Reduces(request, plan)
    requires IsAnswer(ScopeOf(request, plan), request.spec.order, request.spec.limit, result)
    ensures Accepted(result, request, MAX_BUCKETS)
       <==> !FallsBackToCount(request.spec, ScopeOf(request, plan).rows) && BucketsFit(ScopeOf(request, plan), result)
  {
    var scope := ScopeOf(request, plan);
    RowsAreWellformed(request.cells, request.filters);
    PlanIsOpaque(request.spec, scope.rows, plan);
    GroupsAreSeparate(request, plan);
    AnswerSize(scope, request.spec.order, request.spec.limit, result);
    HeaderAgrees(request.spec, request, plan, result);
    BucketsAgree(scope, request, result);
  }

  lemma NoneClash(scope: Scope, result: Result)
    requires Wellformed(scope.rows) && (!scope.plan.CountsRows() || scope.plan.groups == [])
    ensures BucketsFit(scope, result) <==> forall b :: b in result.buckets ==> |GroupLabel(b.groupValues)| <= 256
  {
    forall b | b in result.buckets ensures !Clashes(scope, b.groupValues) {
      NumbersNeverClash(scope, b.groupValues);
    }
  }

  /** An ungrouped COUNT, or a SUM, AVG, MIN or MAX of a column, is accepted whenever its labels fit. */
  lemma OrdinaryAnswerIsAccepted(request: Request, plan: Plan, result: Result)
    requires Reduces(request, plan) && plan.function_ == request.spec.function_
    requires request.spec.function_ != "COUNT" || request.spec.groupBy == []
    requires IsAnswer(ScopeOf(request, plan), request.spec.order, request.spec.limit, result)
    ensures Accepted(result, request, MAX_BUCKETS)
       <==> forall b :: b in result.buckets ==> |GroupLabel(b.groupValues)| <= 256
  {
    RowsAreWellformed(request.cells, request.filters);
    NoneClash(ScopeOf(request, plan), result);
    AnswerIsAccepted(request, plan, result);
  }

  // ----- the condition on the request -----

  /** Every label of the request's rows fits, and none shares its witness with a counted row. */
  ghost predicate TuplesFit(scope: Scope) {
    forall tuple :: tuple in Tuples(scope, scope.rows.Keys) ==> |GroupLabel(tuple)| <= 256 && !Clashes(scope, tuple)
  }

  lemma TuplesFitBuckets(scope: Scope, order: string, limit: int, result: Result)
    requires IsAnswer(scope, order, limit, result) && TuplesFit(scope)
    ensures BucketsFit(scope, result)
  {
    forall b | b in result.buckets ensures |GroupLabel(b.groupValues)| <= 256 && !Clashes(scope, b.groupValues) {
      var i :| 0 <= i < |result.buckets| && result.buckets[i] == b;
      var tuple := ShownTuple(scope, order, limit, result, i);
    }
  }

  /** Without a limit every tuple is shown, so what fits is the same for buckets and tuples. */
  lemma BucketsFitTuples(scope: Scope, order: string, result: Result)
    requires Wellformed(scope.rows) && Complete(scope) && IsAnswer(scope, order, 0, result) && BucketsFit(scope, result)
    ensures TuplesFit(scope)
  {
    forall tuple | tuple in Tuples(scope, scope.rows.Keys) ensures |GroupLabel(tuple)| <= 256 && !Clashes(scope, tuple) {
      var i := OneBucketPerTuple(scope, order, result, tuple);
      assert TupleAt(result, i, tuple);
      assert result.buckets[i] in result.buckets;
    }
  }

  ghost function TupleNamed(scope: Scope, e: Ranked): (tuple: seq<string>)
    requires IsEntry(scope, e)
    ensures IsEntryOf(scope, tuple, e)
  {
    var tuple :| IsEntryOf(scope, tuple, e);
    tuple
  }

  /** A tuple names one entry. */
  lemma TupleNamesOne(scope: Scope, tuple: seq<string>, a: Ranked, b: Ranked)
    requires IsEntryOf(scope, tuple, a) && IsEntryOf(scope, tuple, b)
    ensures a == b
  {
    ValueIsUnique(scope, BucketRows(scope, scope.rows.Keys, tuple), a.value, b.value);
  }

  /** A ranking is no longer than there are tuples. */
  lemma RankingSize(scope: Scope, order: string, ranking: seq<Ranked>)
    requires IsRanking(scope, order, ranking)
    ensures |ranking| <= |Tuples(scope, scope.rows.Keys)|
  {
    assert forall i :: 0 <= i < |ranking| ==> ranking[i] in ranking;
    var tuples := seq(|ranking|, i requires 0 <= i < |ranking| => TupleNamed(scope, ranking[i]));
    BeforeIsStrictOrder(order);
    SortedIsDistinct(ranking, (a, b) => Before(order, a, b));
    forall i, j | 0 <= i < j < |ranking| ensures tuples[i] != tuples[j] {
      if tuples[i] == tuples[j] {
        TupleNamesOne(scope, tuples[i], ranking[i], ranking[j]);
        assert false;
      }
    }
    forall i | 0 <= i < |ranking| ensures tuples[i] in Tuples(scope, scope.rows.Keys) {
      assert IsEntryOf(scope, tuples[i], ranking[i]);
    }
    DistinctFits(tuples, Tuples(scope, scope.rows.Keys));
  }

  /** A limit no smaller than the number of tuples cuts nothing. */
  lemma WideLimitIsNone(scope: Scope, order: string, limit: int, result: Result)
    requires IsAnswer(scope, order, limit, result)
    requires limit == 0 || limit >= |Tuples(scope, scope.rows.Keys)|
    ensures IsAnswer(scope, order, 0, result)
  {
    var ranking: seq<Ranked> :| IsRanking(scope, order, ranking) && ShowsRanking(scope, ranking, limit, result.buckets);
    RankingSize(scope, order, ranking);
    assert ShowsRanking(scope, ranking, 0, result.buckets);
  }

  /** The tuple is among the first limit of its scope in answer order, or the limit is none. */
  ghost predicate Leads(scope: Scope, order: string, limit: int, tuple: seq<string>) {
    exists ranking: seq<Ranked>, i: int :: LeadsAt(scope, order, limit, tuple, ranking, i)
  }

  ghost predicate LeadsAt(scope: Scope, order: string, limit: int, tuple: seq<string>, ranking: seq<Ranked>, i: int) {
    IsRanking(scope, order, ranking) && 0 <= i < |ranking| && (limit > 0 ==> i < limit) && ranking[i].key == BucketKey(tuple)
  }

  ghost predicate LeadersFit(scope: Scope, order: string, limit: int) {
    forall tuple :: tuple in Tuples(scope, scope.rows.Keys) && Leads(scope, order, limit, tuple)
                    ==> |GroupLabel(tuple)| <= 256 && !Clashes(scope, tuple)
  }

  ghost predicate LeadingLabelsFit(scope: Scope, order: string, limit: int) {
    forall tuple :: tuple in Tuples(scope, scope.rows.Keys) && Leads(scope, order, limit, tuple) ==> |GroupLabel(tuple)| <= 256
  }

  /** What is shown leads. */
  lemma ShownLeads(scope: Scope, order: string, limit: int, result: Result, i: int)
    requires IsAnswer(scope, order, limit, result) && 0 <= i < |result.buckets|
    ensures result.buckets[i].groupValues in Tuples(scope, scope.rows.Keys)
    ensures Leads(scope, order, limit, result.buckets[i].groupValues)
  {
    var ranking: seq<Ranked> :| IsRanking(scope, order, ranking) && ShowsRanking(scope, ranking, limit, result.buckets);
    assert ShownAt(scope, ranking[i], result.buckets[i]);
    assert LeadsAt(scope, order, limit, result.buckets[i].groupValues, ranking, i);
  }

  /** What leads is shown. */
  lemma LeaderIsShown(scope: Scope, order: string, limit: int, result: Result, tuple: seq<string>) returns (i: int)
    requires IsAnswer(scope, order, limit, result) && Leads(scope, order, limit, tuple)
    ensures 0 <= i < |result.buckets| && result.buckets[i].groupValues == tuple
  {
    var ranking: seq<Ranked> :| IsRanking(scope, order, ranking) && ShowsRanking(scope, ranking, limit, result.buckets);
    var other: seq<Ranked>, k: int :| LeadsAt(scope, order, limit, tuple, other, k);
    RankingIsUnique(scope, order, ranking, other);
    i := k;
    assert ShownAt(scope, ranking[i], result.buckets[i]);
    BucketKeyIsInjective(result.buckets[i].groupValues, tuple);
  }

  lemma BucketsFitLeaders(scope: Scope, order: string, limit: int, result: Result)
    requires IsAnswer(scope, order, limit, result)
    ensures BucketsFit(scope, result) <==> LeadersFit(scope, order, limit)
  {
    if BucketsFit(scope, result) {
      forall tuple | tuple in Tuples(scope, scope.rows.Keys) && Leads(scope, order, limit, tuple)
        ensures |GroupLabel(tuple)| <= 256 && !Clashes(scope, tuple)
      {
        var i := LeaderIsShown(scope, order, limit, result, tuple);
        assert result.buckets[i] in result.buckets;
      }
    }
    if LeadersFit(scope, order, limit) {
      forall b | b in result.buckets ensures |GroupLabel(b.groupValues)| <= 256 && !Clashes(scope, b.groupValues) {
        var i :| 0 <= i < |result.buckets| && result.buckets[i] == b;
        ShownLeads(scope, order, limit, result, i);
      }
    }
  }

  ghost predicate UncutBy(limit: int, scope: Scope) {
    limit == 0 || limit >= |Tuples(scope, scope.rows.Keys)|
  }

  /** The condition before the call: the answer is accepted if and only if the request names or finds a numeric
      column, the labels of its leading tuples fit, and none of them shares its witness with a counted row. If
      the limit cuts nothing, that is so of all its tuples. */
  lemma RequestIsAccepted(request: Request, plan: Plan, result: Result)
    requires Reduces(request, plan)
    requires IsAnswer(ScopeOf(request, plan), request.spec.order, request.spec.limit, result)
    ensures Accepted(result, request, MAX_BUCKETS)
       <==> !FallsBackToCount(request.spec, ScopeOf(request, plan).rows)
            && LeadersFit(ScopeOf(request, plan), request.spec.order, request.spec.limit)
    ensures UncutBy(request.spec.limit, ScopeOf(request, plan)) ==>
              (LeadersFit(ScopeOf(request, plan), request.spec.order, request.spec.limit) <==> TuplesFit(ScopeOf(request, plan)))
  {
    var scope := ScopeOf(request, plan);
    AnswerIsAccepted(request, plan, result);
    BucketsFitLeaders(scope, request.spec.order, request.spec.limit, result);
    FitAgrees(request, scope, result);
  }

  lemma FitAgrees(request: Request, scope: Scope, result: Result)
    requires AllValid(request.cells) && DistinctIds(request.cells) && scope.rows == Filtered(RowsOf(request.cells), request.filters)
    requires Complete(scope) && IsAnswer(scope, request.spec.order, request.spec.limit, result)
    ensures UncutBy(request.spec.limit, scope) ==> (BucketsFit(scope, result) <==> TuplesFit(scope))
  {
    RowsAreWellformed(request.cells, request.filters);
    if TuplesFit(scope) {
      TuplesFitBuckets(scope, request.spec.order, request.spec.limit, result);
    }
    if BucketsFit(scope, result) && UncutBy(request.spec.limit, scope) {
      WideLimitIsNone(scope, request.spec.order, request.spec.limit, result);
      BucketsFitTuples(scope, request.spec.order, result);
    }
  }

  /** For an ungrouped COUNT, or a SUM, AVG, MIN or MAX of a column, only the leading labels matter. */
  lemma OrdinaryRequestIsAccepted(request: Request, plan: Plan, result: Result)
    requires Reduces(request, plan) && plan.function_ == request.spec.function_
    requires request.spec.function_ != "COUNT" || request.spec.groupBy == []
    requires IsAnswer(ScopeOf(request, plan), request.spec.order, request.spec.limit, result)
    ensures Accepted(result, request, MAX_BUCKETS) <==> LeadingLabelsFit(ScopeOf(request, plan), request.spec.order, request.spec.limit)
  {
    RequestIsAccepted(request, plan, result);
    NoTupleClashes(request, ScopeOf(request, plan), request.spec.order, request.spec.limit);
  }

  lemma NoTupleClashes(request: Request, scope: Scope, order: string, limit: int)
    requires AllValid(request.cells) && DistinctIds(request.cells) && scope.rows == Filtered(RowsOf(request.cells), request.filters)
    requires !scope.plan.CountsRows() || scope.plan.groups == []
    ensures LeadersFit(scope, order, limit) <==> LeadingLabelsFit(scope, order, limit)
  {
    RowsAreWellformed(request.cells, request.filters);
    forall tuple ensures !Clashes(scope, tuple) {
      NumbersNeverClash(scope, tuple);
    }
  }
}
