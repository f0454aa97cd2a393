/** The second half of EvidenceAdapter.Aggregate: exact values, print scales, order, limit. */
module AnalyticFinish {
  import opened Options
  import opened Seqs
  import opened GoText
  import opened Sorting
  import opened Decimals
  import opened Rationals
  import opened DecimalScales
  import opened AnalyticCells
  import opened AnalyticPlan
  import opened AnalyticSpec
  import opened AnalyticBuckets
  import opened AnalyticReducer

  // ----- extrema -----

  /** A metric cell whose evidence id is listed. */
  ghost predicate IsCandidate(evidence: seq<Evidence>, cells: seq<Cell>, metric: string, cell: Cell) {
    cell in cells && cell.numeric && TermsEqual(cell.column, metric) && HasId(evidence, cell.evidence.id)
  }

  ghost predicate IsBest(minimum: bool, a: real, b: real) {
    if minimum then a <= b else b <= a
  }

  /** The big.Rat chosen so far, or nil. */
  datatype Choice = Nothing | Chosen(value: Rat)

  ghost predicate HasValue(choice: Choice, v: real) {
    choice.Chosen? && choice.value.Lowest() && choice.value.Val() == v
  }

  ghost predicate Beats(choice: Choice, minimum: bool, v: real) {
    choice.Chosen? && choice.value.Lowest() && IsBest(minimum, choice.value.Val(), v)
  }

  /** Whatever the earlier choice beats, the later one beats. */
  ghost predicate NoWorse(choice: Choice, next: Choice, minimum: bool) {
    forall v :: Beats(choice, minimum, v) ==> Beats(next, minimum, v)
  }

  predicate Matches(cell: Cell, metric: string, id: string) {
    cell.evidence.id == id && cell.numeric && TermsEqual(cell.column, metric)
  }

  /** The body of the two loops of chooseExtremum. */
  method Improve(choice: Choice, minimum: bool, text: string) returns (next: Choice)
    requires IsDecimal(text) && (choice.Chosen? ==> choice.value.Lowest())
    ensures Beats(next, minimum, Exact(text)) && NoWorse(choice, next, minimum)
    ensures next == choice || HasValue(next, Exact(text))
  {
    var value := FromDecimal(text);
    if choice == Nothing || (minimum && LessThan(value, choice.value)) || (!minimum && LessThan(choice.value, value)) {
      next := Chosen(value);
    } else {
      next := choice;
    }
  }

  ghost predicate TakenFrom(choice: Choice, cells: seq<Cell>, metric: string, id: string) {
    exists c :: c in cells && Matches(c, metric, id) && HasValue(choice, CellValue(c))
  }

  /** The scan of all cells for one witness. */
  method ImproveFor(choice: Choice, minimum: bool, cells: seq<Cell>, metric: string, id: string) returns (next: Choice)
    requires forall c :: c in cells ==> ValidCell(c)
    requires choice.Chosen? ==> choice.value.Lowest()
    ensures NoWorse(choice, next, minimum)
    ensures next == choice || TakenFrom(next, cells, metric, id)
    ensures forall c :: c in cells && Matches(c, metric, id) ==> Beats(next, minimum, CellValue(c))
  {
    next := choice;
    for i := 0 to |cells|
      invariant NoWorse(choice, next, minimum)
      invariant next == choice || TakenFrom(next, cells, metric, id)
      invariant forall c :: c in cells[..i] && Matches(c, metric, id) ==> Beats(next, minimum, CellValue(c))
    {
      var cell := cells[i];
      PrefixSnoc(cells, i);
      if Matches(cell, metric, id) {
        assert ValidCell(cell);
        next := Improve(next, minimum, cell.value);
      }
    }
    WholePrefix(cells);
  }

  /** The choice is the best of the candidates, and nothing only if there are none. */
  ghost predicate IsExtremumOf(choice: Choice, minimum: bool, evidence: seq<Evidence>, cells: seq<Cell>, metric: string) {
    && (choice.Chosen? ==> choice.value.Lowest()
                           && exists c :: IsCandidate(evidence, cells, metric, c) && HasValue(choice, CellValue(c)))
    && forall c :: IsCandidate(evidence, cells, metric, c) ==> Beats(choice, minimum, CellValue(c))
  }

  lemma CandidateSnoc(evidence: seq<Evidence>, i: nat, cells: seq<Cell>, metric: string)
    requires i < |evidence|
    ensures forall c :: IsCandidate(evidence[..i + 1], cells, metric, c) <==>
                        IsCandidate(evidence[..i], cells, metric, c) || (c in cells && Matches(c, metric, evidence[i].id))
  {
    var front, more := evidence[..i], evidence[..i + 1];
    forall id ensures HasId(more, id) <==> HasId(front, id) || id == evidence[i].id {
      if HasId(front, id) {
        var k :| 0 <= k < |front| && front[k].id == id;
        assert more[k].id == id;
      }
      assert more[i].id == evidence[i].id;
    }
  }

  lemma ExtremumSnoc(choice: Choice, next: Choice, minimum: bool, evidence: seq<Evidence>, i: nat, cells: seq<Cell>, metric: string)
    requires i < |evidence| && IsExtremumOf(choice, minimum, evidence[..i], cells, metric)
    requires NoWorse(choice, next, minimum)
    requires next == choice || TakenFrom(next, cells, metric, evidence[i].id)
    requires forall c :: c in cells && Matches(c, metric, evidence[i].id) ==> Beats(next, minimum, CellValue(c))
    ensures IsExtremumOf(next, minimum, evidence[..i + 1], cells, metric)
  {
    CandidateSnoc(evidence, i, cells, metric);
    if next != choice {
      var c :| c in cells && Matches(c, metric, evidence[i].id) && HasValue(next, CellValue(c));
      assert IsCandidate(evidence[..i + 1], cells, metric, c);
    } else if next.Chosen? {
      var c :| IsCandidate(evidence[..i], cells, metric, c) && HasValue(choice, CellValue(c));
      assert IsCandidate(evidence[..i + 1], cells, metric, c);
    }
  }

  /** chooseExtremum */
  method ChooseExtremum(evidence: seq<Evidence>, cells: seq<Cell>, minimum: bool, metric: string) returns (choice: Choice)
    requires forall c :: c in cells ==> ValidCell(c)
    ensures IsExtremumOf(choice, minimum, evidence, cells, metric)
  {
    choice := Nothing;
    for i := 0 to |evidence|
      invariant IsExtremumOf(choice, minimum, evidence[..i], cells, metric)
    {
      var next := ImproveFor(choice, minimum, cells, metric, evidence[i].id);
      ExtremumSnoc(choice, next, minimum, evidence, i, cells, metric);
      choice := next;
    }
    WholePrefix(evidence);
  }

  // ----- finished buckets -----

  ghost predicate PrintsAt(scope: Scope, keys: set<string>, value: Rat, scale: nat)
    requires keys <= scope.rows.Keys
  {
    exists inputScale: nat :: PrintsFrom(scope, keys, value, scale, inputScale)
  }

  ghost predicate PrintsFrom(scope: Scope, keys: set<string>, value: Rat, scale: nat, inputScale: nat)
    requires keys <= scope.rows.Keys
  {
    && value.Lowest() && (scope.plan.CountsRows() || IsMaxScale(scope, keys, inputScale))
    && IsPrintScale(scope.plan.function_, inputScale, value, scale)
  }

  /** A bucket whose value and scale are final. */
  ghost predicate Finished(scope: Scope, keys: set<string>, p: Partial)
    requires keys <= scope.rows.Keys
  {
    && p.value.Lowest() && IsValue(scope, keys, p.value.Val()) && PrintsAt(scope, keys, p.value, p.scale)
    && p.count == CountOver(scope, keys)
    && Lists(p.evidence, InputRefs(scope, keys)) && Lists(p.filterEvidence, FilterRefs(scope, keys))
    && HoldsGroups(scope, keys, p.groupEvidence)
  }

  /** Every complete row contributes an input, so no bucket is empty. */
  lemma CountIsPositive(scope: Scope, keys: set<string>)
    requires Wellformed(scope.rows) && Complete(scope) && keys <= scope.rows.Keys && keys != {}
    ensures CountOver(scope, keys) > 0
  {
    var key := AnyOf(keys);
    RowInputsOfRow(scope.rows[key], scope.plan);
  }

  /** The AVG arm: divide, then look for an exact scale. */
  method FinishAverage(sum: Rat, count: nat, inputScale: nat) returns (value: Rat, scale: nat)
    requires sum.Lowest() && count > 0
    ensures value.Lowest() && value.Val() == sum.Val() / count as real
    ensures IsPrintScale("AVG", inputScale, value, scale)
  {
    value := QuoInt(sum, count);
    var exactScale, exact := TerminatingDecimalScale(value);
    scale := inputScale;
    if exact {
      scale := Max(inputScale, exactScale);
    } else if inputScale < 6 {
      scale := 6;
    }
  }

  lemma InputIsInRow(scope: Scope, keys: set<string>, c: Cell)
    requires Wellformed(scope.rows) && !scope.plan.CountsRows() && keys <= scope.rows.Keys && IsInput(scope, keys, c)
    ensures exists k :: k in keys && c in scope.rows[k]
    ensures c.numeric && TermsEqual(c.column, scope.plan.metric)
  {
    var k :| k in keys && c in RowInputs(scope.rows[k], scope.plan);
    PickElements(scope.rows[k], (c: Cell) => c.numeric && TermsEqual(c.column, scope.plan.metric));
  }

  ghost predicate DrawnFrom(rows: Rows, cells: seq<Cell>) {
    (forall key, c :: key in rows && c in rows[key] ==> c in cells) && DistinctIds(cells)
  }

  /** The cells chooseExtremum compares are exactly the bucket's inputs. */
  lemma InputIsCandidate(scope: Scope, keys: set<string>, evidence: seq<Evidence>, cells: seq<Cell>, c: Cell)
    requires Wellformed(scope.rows) && !scope.plan.CountsRows() && keys <= scope.rows.Keys
    requires DrawnFrom(scope.rows, cells) && Lists(evidence, InputRefs(scope, keys)) && IsInput(scope, keys, c)
    ensures IsCandidate(evidence, cells, scope.plan.metric, c)
  {
    InputIsInRow(scope, keys, c);
    var k :| k in keys && c in RowInputs(scope.rows[k], scope.plan);
    assert c.evidence in InputRefs(scope, keys) && c.evidence in evidence;
    var i :| 0 <= i < |evidence| && evidence[i] == c.evidence;
    assert HasId(evidence, c.evidence.id);
  }

  lemma CandidateIsInput(scope: Scope, keys: set<string>, evidence: seq<Evidence>, cells: seq<Cell>, c: Cell)
    requires Wellformed(scope.rows) && !scope.plan.CountsRows() && keys <= scope.rows.Keys
    requires DrawnFrom(scope.rows, cells) && Lists(evidence, InputRefs(scope, keys))
    requires IsCandidate(evidence, cells, scope.plan.metric, c)
    ensures IsInput(scope, keys, c)
  {
    var i :| 0 <= i < |evidence| && evidence[i].id == c.evidence.id;
    assert evidence[i] in InputRefs(scope, keys);
    var k, d :| k in keys && d in RowInputs(scope.rows[k], scope.plan) && evidence[i] == d.evidence;
    InputIsInRow(scope, keys, d);
    SameIdInCells(cells, c, d);
  }

  lemma HasAnInput(scope: Scope, keys: set<string>) returns (c: Cell)
    requires Wellformed(scope.rows) && Complete(scope) && !scope.plan.CountsRows() && keys <= scope.rows.Keys && keys != {}
    ensures IsInput(scope, keys, c)
  {
    var key :| key in keys;
    assert RowComplete(scope.rows[key], scope.plan);
    c := RowInputs(scope.rows[key], scope.plan)[0];
  }

  lemma CandidatesAreInputs(scope: Scope, keys: set<string>, evidence: seq<Evidence>, cells: seq<Cell>)
    requires Wellformed(scope.rows) && !scope.plan.CountsRows() && keys <= scope.rows.Keys
    requires DrawnFrom(scope.rows, cells) && Lists(evidence, InputRefs(scope, keys))
    ensures SameCandidates(scope, keys, evidence, cells)
  {
    forall c: Cell ensures IsCandidate(evidence, cells, scope.plan.metric, c) <==> IsInput(scope, keys, c) {
      if IsInput(scope, keys, c) {
        InputIsCandidate(scope, keys, evidence, cells, c);
      }
      if IsCandidate(evidence, cells, scope.plan.metric, c) {
        CandidateIsInput(scope, keys, evidence, cells, c);
      }
    }
  }

  ghost predicate SameCandidates(scope: Scope, keys: set<string>, evidence: seq<Evidence>, cells: seq<Cell>)
    requires keys <= scope.rows.Keys
  {
    forall c :: IsCandidate(evidence, cells, scope.plan.metric, c) <==> IsInput(scope, keys, c)
  }

  lemma ExtremumIsValue(scope: Scope, keys: set<string>, evidence: seq<Evidence>, cells: seq<Cell>, minimum: bool, choice: Choice, some: Cell)
    requires keys <= scope.rows.Keys && SameCandidates(scope, keys, evidence, cells) && IsInput(scope, keys, some)
    requires IsExtremumOf(choice, minimum, evidence, cells, scope.plan.metric)
    ensures choice.Chosen? && choice.value.Lowest() && IsExtremum(scope, keys, minimum, choice.value.Val())
  {
    assert Beats(choice, minimum, CellValue(some));
    var c :| IsCandidate(evidence, cells, scope.plan.metric, c) && HasValue(choice, CellValue(c));
    assert IsInput(scope, keys, c);
  }

  /** The MIN and MAX arm. */
  method FinishExtremum(ghost scope: Scope, ghost keys: set<string>, p: Partial, plan: Plan, cells: seq<Cell>)
    returns (value: Rat)
    requires Wellformed(scope.rows) && Complete(scope) && keys <= scope.rows.Keys && keys != {}
    requires plan == scope.plan && !plan.CountsRows() && Lists(p.evidence, InputRefs(scope, keys))
    requires DrawnFrom(scope.rows, cells) && forall c :: c in cells ==> ValidCell(c)
    ensures value.Lowest() && IsExtremum(scope, keys, plan.function_ == "MIN", value.Val())
  {
    var choice := ChooseExtremum(p.evidence, cells, plan.function_ == "MIN", plan.metric);
    CandidatesAreInputs(scope, keys, p.evidence, cells);
    var some := HasAnInput(scope, keys);
    ExtremumIsValue(scope, keys, p.evidence, cells, plan.function_ == "MIN", choice, some);
    value := choice.value;
  }

  lemma FinishedFrom(scope: Scope, keys: set<string>, p: Partial, value: Rat, scale: nat)
    requires keys <= scope.rows.Keys && Holds(scope, keys, p)
    requires value.Lowest() && IsValue(scope, keys, value.Val()) && PrintsFrom(scope, keys, value, scale, p.scale)
    ensures Finished(scope, keys, p.(value := value, scale := scale))
  {
  }

  /** The switch of Aggregate that turns a reduced bucket into a finished one. */
  method Finish(ghost scope: Scope, ghost keys: set<string>, p: Partial, plan: Plan, cells: seq<Cell>)
    returns (q: Partial)
    requires Wellformed(scope.rows) && Complete(scope) && keys <= scope.rows.Keys && keys != {}
    requires plan == scope.plan && plan.function_ in FUNCTIONS && Holds(scope, keys, p)
    requires DrawnFrom(scope.rows, cells) && forall c :: c in cells ==> ValidCell(c)
    ensures Finished(scope, keys, q) && q.groupValues == p.groupValues
  {
    var value, scale := p.value, p.scale;
    if plan.function_ == "COUNT" {
      value, scale := FromInt(p.count), 0;
    } else if plan.function_ == "AVG" {
      CountIsPositive(scope, keys);
      value, scale := FinishAverage(p.value, p.count, p.scale);
    } else if plan.function_ == "MIN" || plan.function_ == "MAX" {
      value := FinishExtremum(scope, keys, p, plan, cells);
    }
    FinishedFrom(scope, keys, p, value, scale);
    q := p.(value := value, scale := scale);
  }

  ghost predicate AllFinished(scope: Scope, buckets: Buckets) {
    forall name {:trigger FinishedBucket(scope, name, buckets[name])} :: name in buckets ==> FinishedBucket(scope, name, buckets[name])
  }

  ghost predicate FinishedBucket(scope: Scope, name: string, p: Partial) {
    && name == BucketKey(p.groupValues) && p.groupValues in Tuples(scope, scope.rows.Keys)
    && Finished(scope, BucketRows(scope, scope.rows.Keys, p.groupValues), p)
  }

  /** What finishing needs of the scope and the request's cells. */
  ghost predicate Ready(scope: Scope, cells: seq<Cell>) {
    && Wellformed(scope.rows) && Complete(scope) && scope.plan.function_ in FUNCTIONS
    && DrawnFrom(scope.rows, cells) && forall c :: c in cells ==> ValidCell(c)
  }

  method FinishBucket(ghost scope: Scope, buckets: Buckets, name: string, plan: Plan, cells: seq<Cell>)
    returns (q: Partial)
    requires Ready(scope, cells) && plan == scope.plan && AllGrouped(scope, scope.rows.Keys, buckets) && name in buckets
    ensures FinishedBucket(scope, name, q)
  {
    var p := buckets[name];
    assert GroupedBucket(scope, scope.rows.Keys, name, p);
    ghost var keys := BucketRows(scope, scope.rows.Keys, p.groupValues);
    TupleHasRows(scope, p.groupValues);
    q := Finish(scope, keys, p, plan, cells);
  }

  ghost predicate FinishedOver(scope: Scope, names: set<string>, done: Buckets) {
    done.Keys == names && AllFinished(scope, done)
  }

  lemma FinishedAdd(scope: Scope, names: set<string>, done: Buckets, name: string, q: Partial)
    requires FinishedOver(scope, names, done) && FinishedBucket(scope, name, q)
    ensures FinishedOver(scope, names + {name}, done[name := q])
  {
  }

  /** One turn of the loop over the bucket map: any bucket not yet visited. */
  method FinishNext(ghost scope: Scope, buckets: Buckets, plan: Plan, cells: seq<Cell>, remaining: set<string>, done: Buckets)
    returns (rest: set<string>, more: Buckets)
    requires Ready(scope, cells) && plan == scope.plan && AllGrouped(scope, scope.rows.Keys, buckets)
    requires remaining != {} && remaining <= buckets.Keys && FinishedOver(scope, buckets.Keys - remaining, done)
    ensures rest < remaining && FinishedOver(scope, buckets.Keys - rest, more)
  {
    var name :| name in remaining;
    var q := FinishBucket(scope, buckets, name, plan, cells);
    FinishedAdd(scope, buckets.Keys - remaining, done, name, q);
    rest, more := remaining - {name}, done[name := q];
    assert buckets.Keys - rest == buckets.Keys - remaining + {name};
  }

  /** The loop over the bucket map, in any order. */
  method FinishAll(ghost scope: Scope, buckets: Buckets, plan: Plan, cells: seq<Cell>) returns (done: Buckets)
    requires Ready(scope, cells) && plan == scope.plan && AllGrouped(scope, scope.rows.Keys, buckets)
    ensures FinishedOver(scope, buckets.Keys, done)
  {
    done := map[];
    var remaining := buckets.Keys;
    assert FinishedOver(scope, buckets.Keys - remaining, done);
    while remaining != {}
      invariant remaining <= buckets.Keys && FinishedOver(scope, buckets.Keys - remaining, done)
      decreases remaining
    {
      remaining, done := FinishNext(scope, buckets, plan, cells, remaining, done);
    }
    assert buckets.Keys - remaining == buckets.Keys;
  }

  lemma TupleHasRows(scope: Scope, tuple: seq<string>)
    requires tuple in Tuples(scope, scope.rows.Keys)
    ensures BucketRows(scope, scope.rows.Keys, tuple) != {}
  {
    var key :| key in scope.rows && TupleOf(scope, key) == tuple;
    assert key in BucketRows(scope, scope.rows.Keys, tuple);
  }

  // ----- order and print -----

  lemma RefsSorted(scope: Scope, refs: seq<Evidence>, all: set<Evidence>)
    requires Wellformed(scope.rows) && Lists(refs, all) && FromRows(scope, scope.rows.Keys, refs)
    ensures ListsById(Sort(refs, RefById), all)
  {
    IdOrders();
    DistinctByIds(scope, scope.rows.Keys, refs);
    assert TotalOn(refs, RefById) by {
      forall a, b | a in refs && b in refs && a != b ensures RefById(a, b) || RefById(b, a) {
        LessIsTotal(a.id, b.id);
        SameIdSameRef(scope, scope.rows.Keys, refs, a, b);
      }
    }
    SortSorts(refs, RefById);
  }

  lemma RefsFromRows(scope: Scope, keys: set<string>, p: Partial)
    requires Wellformed(scope.rows) && keys <= scope.rows.Keys && Finished(scope, keys, p)
    ensures FromRows(scope, scope.rows.Keys, p.evidence) && FromRows(scope, scope.rows.Keys, p.filterEvidence)
  {
    forall e | e in p.evidence
      ensures exists k, c :: k in scope.rows.Keys && c in scope.rows[k] && e == c.evidence
    {
      var k, c :| k in keys && c in RowInputs(scope.rows[k], scope.plan) && e == c.evidence;
      RowInputsOfRow(scope.rows[k], scope.plan);
      assert c in scope.rows[k];
    }
  }

  /** One bucket of the answer. */
  method Render(ghost scope: Scope, name: string, p: Partial) returns (bucket: Bucket)
    requires Wellformed(scope.rows) && FinishedBucket(scope, name, p)
    ensures bucket.groupValues == p.groupValues && IsBucket(scope, p.groupValues, p.value.Val(), bucket)
  {
    ghost var keys := BucketRows(scope, scope.rows.Keys, p.groupValues);
    RefsFromRows(scope, keys, p);
    RefsSorted(scope, p.evidence, InputRefs(scope, keys));
    RefsSorted(scope, p.filterEvidence, FilterRefs(scope, keys));
    bucket := Bucket(GroupLabel(p.groupValues), FloatString(p.value, p.scale), p.count, Sort(p.evidence, RefById),
                     p.groupValues, p.groupEvidence, Sort(p.filterEvidence, RefById));
    PrintedByScale(scope, keys, p);
  }

  lemma PrintedByScale(scope: Scope, keys: set<string>, p: Partial)
    requires keys <= scope.rows.Keys && Finished(scope, keys, p)
    ensures IsPrinted(scope, keys, p.value.Val(), FloatString(p.value, p.scale))
  {
    var inputScale: nat :| PrintsFrom(scope, keys, p.value, p.scale, inputScale);
    assert PrintedBy(scope, keys, p.value.Val(), FloatString(p.value, p.scale), p.value, inputScale, p.scale);
  }

  ghost predicate InBuckets(buckets: Buckets, ranking: seq<Ranked>) {
    forall e :: e in ranking ==> InBucketsAt(buckets, e)
  }

  ghost predicate InBucketsAt(buckets: Buckets, e: Ranked) {
    e.key in buckets && buckets[e.key].value.den > 0 && e.value == buckets[e.key].value.Val()
  }

  /** The keys of the bucket map, with the values they are ordered by. */
  method ListEntries(buckets: Buckets) returns (entries: seq<Ranked>)
    requires forall name :: name in buckets ==> buckets[name].value.den > 0
    ensures Distinct(entries) && |entries| == |buckets|
    ensures forall e :: e in entries <==> InBucketsAt(buckets, e)
  {
    entries := [];
    var remaining := buckets.Keys;
    while remaining != {}
      invariant remaining <= buckets.Keys && |entries| + |remaining| == |buckets|
      invariant forall e :: e in entries <==> e.key in buckets.Keys - remaining && e.value == buckets[e.key].value.Val()
      invariant Distinct(entries)
      decreases remaining
    {
      var name :| name in remaining;
      var entry := Ranked(name, buckets[name].value.Val());
      assert entry !in entries;
      entries := entries + [entry];
      remaining := remaining - {name};
    }
  }

  lemma EntriesAreRanking(scope: Scope, order: string, buckets: Buckets, entries: seq<Ranked>)
    requires AllFinished(scope, buckets) && buckets.Keys == KeysOf(Tuples(scope, scope.rows.Keys))
    requires Distinct(entries)
    requires forall e :: e in entries <==> InBucketsAt(buckets, e)
    ensures var ranking := Sort(entries, (a, b) => Before(order, a, b));
            IsRanking(scope, order, ranking) && |ranking| == |entries| && forall e :: e in ranking <==> e in entries
  {
    BeforeIsStrictOrder(order);
    SortSorts(entries, (a, b) => Before(order, a, b));
    forall e ensures e in entries <==> IsEntry(scope, e) {
      EntryIsBucket(scope, buckets, e);
    }
  }

  lemma EntryIsBucket(scope: Scope, buckets: Buckets, e: Ranked)
    requires AllFinished(scope, buckets) && buckets.Keys == KeysOf(Tuples(scope, scope.rows.Keys))
    ensures IsEntry(scope, e) <==> InBucketsAt(buckets, e)
  {
    if IsEntry(scope, e) {
      var tuple :| IsEntryOf(scope, tuple, e);
      assert FinishedBucket(scope, e.key, buckets[e.key]);
      BucketKeyIsInjective(tuple, buckets[e.key].groupValues);
      ValueIsUnique(scope, BucketRows(scope, scope.rows.Keys, tuple), e.value, buckets[e.key].value.Val());
    }
    if InBucketsAt(buckets, e) {
      assert FinishedBucket(scope, e.key, buckets[e.key]);
      assert IsEntryOf(scope, buckets[e.key].groupValues, e);
    }
  }

  /** One key of the sorted list. */
  method RenderEntry(ghost scope: Scope, buckets: Buckets, entry: Ranked) returns (bucket: Bucket)
    requires Wellformed(scope.rows) && AllFinished(scope, buckets)
    requires InBucketsAt(buckets, entry)
    ensures ShownAt(scope, entry, bucket)
  {
    assert FinishedBucket(scope, entry.key, buckets[entry.key]);
    bucket := Render(scope, entry.key, buckets[entry.key]);
  }

  ghost predicate Shows(scope: Scope, ranking: seq<Ranked>, shown: seq<Bucket>) {
    |shown| <= |ranking| && forall i {:trigger ShownAt(scope, ranking[i], shown[i])} :: 0 <= i < |shown| ==> ShownAt(scope, ranking[i], shown[i])
  }

  lemma ShowsSnoc(scope: Scope, ranking: seq<Ranked>, shown: seq<Bucket>, bucket: Bucket)
    requires Shows(scope, ranking, shown) && |shown| < |ranking| && ShownAt(scope, ranking[|shown|], bucket)
    ensures Shows(scope, ranking, shown + [bucket])
  {
    var more := shown + [bucket];
    forall i | 0 <= i < |more| ensures ShownAt(scope, ranking[i], more[i]) {
      if i < |shown| {
        assert more[i] == shown[i];
        assert ShownAt(scope, ranking[i], shown[i]);
      } else {
        assert more[i] == bucket;
      }
    }
  }

  /** Print the first limit entries. */
  method RenderList(ghost scope: Scope, buckets: Buckets, ranking: seq<Ranked>, limit: nat) returns (shown: seq<Bucket>)
    requires Wellformed(scope.rows) && AllFinished(scope, buckets) && limit <= |ranking| && InBuckets(buckets, ranking)
    ensures |shown| == limit && Shows(scope, ranking, shown)
  {
    shown := [];
    for i := 0 to limit
      invariant |shown| == i && Shows(scope, ranking, shown)
    {
      assert ranking[i] in ranking;
      var bucket := RenderEntry(scope, buckets, ranking[i]);
      ShowsSnoc(scope, ranking, shown, bucket);
      shown := shown + [bucket];
    }
  }

  lemma FinishedHaveValues(scope: Scope, buckets: Buckets)
    requires AllFinished(scope, buckets)
    ensures forall name :: name in buckets ==> buckets[name].value.den > 0
  {
    forall name | name in buckets ensures buckets[name].value.den > 0 {
      assert FinishedBucket(scope, name, buckets[name]);
    }
  }

  /** The sorted keys of the bucket map. */
  method RankAll(ghost scope: Scope, buckets: Buckets, order: string) returns (ranking: seq<Ranked>)
    requires AllFinished(scope, buckets) && buckets.Keys == KeysOf(Tuples(scope, scope.rows.Keys))
    ensures IsRanking(scope, order, ranking) && InBuckets(buckets, ranking)
  {
    FinishedHaveValues(scope, buckets);
    var entries := ListEntries(buckets);
    ranking := Sort(entries, (a, b) => Before(order, a, b));
    EntriesAreRanking(scope, order, buckets, entries);
  }

  lemma AnswerFromRanking(scope: Scope, order: string, limit: int, ranking: seq<Ranked>, shown: seq<Bucket>, result: Result)
    requires IsRanking(scope, order, ranking) && Shows(scope, ranking, shown)
    requires |shown| == if 0 < limit < |ranking| then limit else |ranking|
    requires result == Result(scope.plan.function_, scope.plan.metric, scope.plan.groups, order, shown)
    ensures IsAnswer(scope, order, limit, result)
  {
    assert ShowsRanking(scope, ranking, limit, result.buckets);
  }

  /** Sort the keys, cut to the limit and print. */
  method RenderAll(ghost scope: Scope, buckets: Buckets, spec: AggregateSpec, plan: Plan) returns (result: Result)
    requires Wellformed(scope.rows) && AllFinished(scope, buckets) && plan == scope.plan
    requires buckets.Keys == KeysOf(Tuples(scope, scope.rows.Keys))
    ensures IsAnswer(scope, spec.order, spec.limit, result)
  {
    var ranking := RankAll(scope, buckets, spec.order);
    var limit := |ranking|;
    if spec.limit > 0 && spec.limit < limit {
      limit := spec.limit;
    }
    var shown := RenderList(scope, buckets, ranking, limit);
    result := Result(plan.function_, plan.metric, plan.groups, spec.order, shown);
    AnswerFromRanking(scope, spec.order, spec.limit, ranking, shown, result);
  }

  // ----- the whole reducer -----

  /** The scope of a request under a plan. */
  function ScopeOf(request: Request, plan: Plan): Scope {
    Scope(Filtered(RowsOf(request.cells), request.filters), plan, request.filters)
  }

  /** The request reduces: valid bounded input, rows left, a plan, complete rows, few enough tuples. */
  ghost predicate Reduces(request: Request, plan: Plan) {
    var scope := ScopeOf(request, plan);
    && request.Guarded() && 0 < |request.cells| <= MAXIMUM_CELLS && ValidSpec(request.spec)
    && AllValid(request.cells) && DistinctIds(request.cells)
    && scope.rows != map[] && ResolvesTo(request.spec, scope.rows, plan)
    && Complete(scope) && |Tuples(scope, scope.rows.Keys)| <= MAXIMUM_BUCKETS
  }

  /** The mathematical answer to a request. */
  ghost predicate Answers(request: Request, result: Result) {
    exists plan :: Reduces(request, plan) && IsAnswer(ScopeOf(request, plan), request.spec.order, request.spec.limit, result)
  }

  lemma RowsAreWellformed(cells: seq<Cell>, filters: seq<Filter>)
    requires AllValid(cells) && DistinctIds(cells)
    ensures var rows := Filtered(RowsOf(cells), filters);
            Wellformed(rows) && DrawnFrom(rows, cells)
  {
    var rows := Filtered(RowsOf(cells), filters);
    forall key | key in rows
      ensures rows[key] != [] && DistinctIds(rows[key])
      ensures forall c :: c in rows[key] ==> c in cells && c.rowKey == key
    {
      EmptyRow(cells, key);
      RowOfCells(cells, key);
      RowOfDistinct(cells, key);
    }
    forall j, k | j in rows && k in rows && j != k ensures Apart(rows, j, k) {
      RowsApart(cells, rows[j], rows[k], j, k);
    }
  }

  /** Cells of different rows are different, and so are their ids. */
  lemma RowsApart(cells: seq<Cell>, a: seq<Cell>, b: seq<Cell>, j: string, k: string)
    requires DistinctIds(cells) && j != k
    requires forall c :: c in a ==> c in cells && c.rowKey == j
    requires forall d :: d in b ==> d in cells && d.rowKey == k
    ensures forall c, d :: c in a && d in b ==> c.evidence.id != d.evidence.id
  {
    forall c, d | c in a && d in b ensures c.evidence.id != d.evidence.id {
      if c.evidence.id == d.evidence.id {
        SameIdInCells(cells, c, d);
        assert false;
      }
    }
  }

  lemma {:induction false} RowOfDistinct(cells: seq<Cell>, key: string)
    requires DistinctIds(cells)
    ensures DistinctIds(RowOf(cells, key))
  {
    if cells == [] {
    } else {
      var front, last := cells[..|cells| - 1], cells[|cells| - 1];
      PrefixOfDistinct(cells, |cells| - 1);
      RowOfDistinct(front, key);
      RowOfCells(front, key);
      forall c | c in RowOf(front, key) ensures c.evidence.id != last.evidence.id {
        var i :| 0 <= i < |front| && front[i] == c;
        assert cells[i] == c;
      }
    }
  }

  ghost predicate Admitted(request: Request) {
    && request.Guarded() && 0 < |request.cells| <= MAXIMUM_CELLS && ValidSpec(request.spec)
    && AllValid(request.cells) && DistinctIds(request.cells)
  }

  /** The code of the first check before the reduction that fails. */
  ghost function AdmissionFault(request: Request): Option<ErrorCode> {
    if !request.identified || |request.cells| == 0 || |request.cells| > MAXIMUM_CELLS then Some(InvalidRequest)
    else if !request.live then Some(Incomplete)
    else if request.spec.function_ !in FUNCTIONS then Some(Unsupported)
    else if !ValidSpec(request.spec) || !request.filtersValid then Some(InvalidRequest)
    else CellsFault(request.cells)
  }

  /** The checks before the reduction. */
  method Admit(request: Request) returns (outcome: Outcome<Rows>)
    ensures outcome.Ok? <==> Admitted(request)
    ensures outcome.Ok? ==> outcome.value == RowsOf(request.cells) && AdmissionFault(request) == None
    ensures outcome.Err? ==> AdmissionFault(request) == Some(outcome.code)
  {
    if !request.identified || |request.cells| == 0 || |request.cells| > MAXIMUM_CELLS {
      return Err(InvalidRequest);
    }
    if !request.live {
      return Err(Incomplete);
    }
    var valid := ValidateSpec(request.spec);
    if valid.Err? {
      return Err(valid.code);
    }
    if !request.filtersValid {
      return Err(InvalidRequest);
    }
    outcome := GroupRows(request.cells);
  }

  /** The codes a request may be refused with. Before the row loop there is one; the row loop stops at whichever
      failing row its map yields first. */
  ghost predicate Refuses(request: Request, code: ErrorCode) {
    var rows := Filtered(RowsOf(request.cells), request.filters);
    if AdmissionFault(request).Some? then AdmissionFault(request) == Some(code)
    else if rows == map[] || !exists plan :: ResolvesTo(request.spec, rows, plan) then code == Incomplete
    else exists plan :: ResolvesTo(request.spec, rows, plan) && ReductionFails(ScopeOf(request, plan), code)
  }

  /** A request under a plan that resolves reduces exactly when its rows do. */
  lemma ReducesUnder(request: Request, plan: Plan)
    requires Admitted(request) && ScopeOf(request, plan).rows != map[] && ResolvesTo(request.spec, ScopeOf(request, plan).rows, plan)
    ensures Reduces(request, plan) <==> Complete(ScopeOf(request, plan)) && |Tuples(ScopeOf(request, plan), ScopeOf(request, plan).rows.Keys)| <= MAXIMUM_BUCKETS
    ensures (exists p :: Reduces(request, p)) <==> Reduces(request, plan)
  {
    forall other | Reduces(request, other) ensures other == plan {
      ResolutionIsUnique(request.spec, ScopeOf(request, plan).rows, plan, other);
    }
  }

  /** Without a plan nothing reduces, and the code says so. */
  lemma NoPlanRefuses(request: Request)
    requires AdmissionFault(request) == None
    requires forall p :: !ResolvesTo(request.spec, Filtered(RowsOf(request.cells), request.filters), p)
    ensures Refuses(request, Incomplete) && forall p :: !Reduces(request, p)
  {
  }

  lemma PlanRefuses(request: Request, plan: Plan, code: ErrorCode)
    requires AdmissionFault(request) == None && ScopeOf(request, plan).rows != map[]
    requires ResolvesTo(request.spec, ScopeOf(request, plan).rows, plan) && ReductionFails(ScopeOf(request, plan), code)
    ensures Refuses(request, code)
  {
  }

  /** Resolve the plan and reduce the rows under it. */
  method Reduce(request: Request, rows: Rows) returns (outcome: Outcome<Buckets>, plan: Plan)
    requires Admitted(request) && AdmissionFault(request) == None
    requires rows == Filtered(RowsOf(request.cells), request.filters) && rows != map[]
    ensures outcome.Ok? <==> exists p :: Reduces(request, p)
    ensures outcome.Ok? ==> Reduces(request, plan) && Grouped(ScopeOf(request, plan), rows.Keys, outcome.value)
    ensures outcome.Err? ==> Refuses(request, outcome.code)
  {
    RowsAreWellformed(request.cells, request.filters);
    var resolved := ResolvePlan(request.spec, rows);
    if resolved.Err? {
      NoPlanRefuses(request);
      return Err(resolved.code), Plan("", "", []);
    }
    plan := resolved.value;
    outcome := ReduceRows(rows, plan, request.filters);
    ReducesUnder(request, plan);
    if outcome.Err? {
      PlanRefuses(request, plan, outcome.code);
    }
  }

  lemma ReducedIsReady(request: Request, plan: Plan)
    requires Reduces(request, plan)
    ensures Ready(ScopeOf(request, plan), request.cells)
  {
    RowsAreWellformed(request.cells, request.filters);
  }

  /** Everything after the row loop. */
  method FinishAndRender(ghost scope: Scope, buckets: Buckets, request: Request, plan: Plan) returns (result: Result)
    requires Ready(scope, request.cells) && plan == scope.plan && Grouped(scope, scope.rows.Keys, buckets)
    ensures IsAnswer(scope, request.spec.order, request.spec.limit, result)
  {
    var done := FinishAll(scope, buckets, plan, request.cells);
    result := RenderAll(scope, done, request.spec, plan);
  }

  /** EvidenceAdapter.Aggregate. Every map is visited in an arbitrary order, and the
      outcome still is the one mathematical answer, exactly for the requests that reduce. */
  method Aggregate(request: Request) returns (outcome: Outcome<Result>)
    ensures outcome.Ok? <==> exists plan :: Reduces(request, plan)
    ensures outcome.Ok? ==> Answers(request, outcome.value)
    ensures outcome.Err? ==> Refuses(request, outcome.code)
  {
    var admitted := Admit(request);
    if admitted.Err? {
      return Err(admitted.code);
    }
    var rows := ApplyFilters(admitted.value, request.filters);
    if |rows| == 0 {
      return Err(Incomplete);
    }
    var reduced, plan := Reduce(request, rows);
    if reduced.Err? {
      return Err(reduced.code);
    }
    ReducedIsReady(request, plan);
    var result := FinishAndRender(ScopeOf(request, plan), reduced.value, request, plan);
    return Ok(result);
  }

  /** A request has one answer, whatever the iteration order of the maps. */
  lemma AnswersAgree(request: Request, a: Result, b: Result)
    requires Answers(request, a) && Answers(request, b)
    ensures a == b
  {
    var p :| Reduces(request, p) && IsAnswer(ScopeOf(request, p), request.spec.order, request.spec.limit, a);
    var q :| Reduces(request, q) && IsAnswer(ScopeOf(request, q), request.spec.order, request.spec.limit, b);
    ResolutionIsUnique(request.spec, ScopeOf(request, p).rows, p, q);
    AnswerIsUnique(ScopeOf(request, p), request.spec.order, request.spec.limit, a, b);
  }
}
