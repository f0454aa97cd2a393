/** What the answer of an aggregate means: printed values and witnesses. */
module AnalyticResults {
  import opened Sorting
  import opened Numerals
  import opened Decimals
  import opened Rationals
  import opened DecimalScales
  import opened AnalyticCells
  import opened AnalyticSpec
  import opened AnalyticBuckets
  import opened AnalyticFinish

  // ----- sums at a scale -----

  ghost predicate IsUnits(value: real, scale: nat, n: int) {
    value * Pow10(scale) as real == n as real
  }

  /** scale digits after the point write the value exactly. */
  ghost predicate WholeAt(value: real, scale: nat) {
    exists n: int :: IsUnits(value, scale, n)
  }

  lemma WholeSum(a: real, b: real, scale: nat)
    requires WholeAt(a, scale) && WholeAt(b, scale)
    ensures WholeAt(a + b, scale)
  {
    var m: int :| IsUnits(a, scale, m);
    var n: int :| IsUnits(b, scale, n);
    Distribute(a, b, Pow10(scale) as real);
    assert IsUnits(a + b, scale, m + n);
  }

  lemma Distribute(a: real, b: real, p: real)
    ensures (a + b) * p == a * p + b * p
  {
  }

  lemma {:induction false} WholeAbove(value: real, least: nat, scale: nat)
    requires WholeAt(value, least) && least <= scale
    ensures WholeAt(value, scale)
    decreases scale - least
  {
    if least == scale {
    } else {
      var n: int :| IsUnits(value, least, n);
      TimesTen(value, Pow10(least));
      assert IsUnits(value, least + 1, 10 * n);
      WholeAbove(value, least + 1, scale);
    }
  }

  lemma TimesTen(value: real, p: int)
    ensures value * (10 * p) as real == (value * p as real) * 10.0
  {
  }

  lemma ZeroIsWhole(scale: nat)
    ensures WholeAt(0.0, scale)
  {
    assert IsUnits(0.0, scale, 0);
  }

  lemma QuotientTimes(n: int, p: int)
    requires p > 0
    ensures (n as real / p as real) * p as real == n as real
  {
  }

  lemma UnitsOfQuotient(value: real, n: int, scale: nat)
    requires value == n as real / Pow10(scale) as real
    ensures WholeAt(value, scale)
  {
    QuotientTimes(n, Pow10(scale));
    assert IsUnits(value, scale, n);
  }

  lemma TextIsWhole(text: string)
    requires IsDecimal(text)
    ensures WholeAt(Exact(text), Scale(text))
  {
    UnitsOfQuotient(Exact(text), Coefficient(text), Scale(text));
  }

  lemma CellIsWhole(cell: Cell, scale: nat)
    requires Scale(cell.value) <= scale
    ensures WholeAt(CellValue(cell), scale)
  {
    ZeroIsWhole(scale);
    if IsDecimal(cell.value) {
      TextIsWhole(cell.value);
      WholeAbove(Exact(cell.value), Scale(cell.value), scale);
    }
  }

  ghost predicate Within(cells: seq<Cell>, scale: nat) {
    forall i :: 0 <= i < |cells| ==> Scale(cells[i].value) <= scale
  }

  lemma WithinFront(cells: seq<Cell>, scale: nat)
    requires Within(cells, scale) && cells != []
    ensures Within(cells[..|cells| - 1], scale) && Scale(cells[|cells| - 1].value) <= scale
  {
  }

  lemma NextIsWhole(sum: real, front: real, cell: Cell, scale: nat)
    requires WholeAt(front, scale) && Scale(cell.value) <= scale && sum == front + CellValue(cell)
    ensures WholeAt(sum, scale)
  {
    CellIsWhole(cell, scale);
    WholeSum(front, CellValue(cell), scale);
  }

  lemma {:induction false} SumIsWhole(cells: seq<Cell>, scale: nat)
    requires Within(cells, scale)
    ensures WholeAt(SumOf(cells), scale)
  {
    if cells == [] {
      ZeroIsWhole(scale);
    } else {
      WithinFront(cells, scale);
      SumIsWhole(cells[..|cells| - 1], scale);
      NextIsWhole(SumOf(cells), SumOf(cells[..|cells| - 1]), cells[|cells| - 1], scale);
    }
  }

  lemma {:induction false} TotalIsWhole(scope: Scope, keys: set<string>, scale: nat)
    requires keys <= scope.rows.Keys && forall c :: IsInput(scope, keys, c) ==> Scale(c.value) <= scale
    ensures WholeAt(TotalOver(scope, keys), scale)
    decreases keys
  {
    if keys == {} {
      ZeroIsWhole(scale);
    } else {
      var key := AnyOf(keys);
      forall c | IsInput(scope, keys - {key}, c) ensures Scale(c.value) <= scale {
        assert IsInput(scope, keys, c);
      }
      TotalIsWhole(scope, keys - {key}, scale);
      forall i | 0 <= i < |RowInputs(scope.rows[key], scope.plan)|
        ensures Scale(RowInputs(scope.rows[key], scope.plan)[i].value) <= scale
      {
        assert IsInput(scope, keys, RowInputs(scope.rows[key], scope.plan)[i]);
      }
      SumIsWhole(RowInputs(scope.rows[key], scope.plan), scale);
      WholeSum(TotalOver(scope, keys - {key}), SumOf(RowInputs(scope.rows[key], scope.plan)), scale);
    }
  }

  // ----- printed values -----

  /** What a printed aggregate says about its value. */
  ghost predicate Tells(function_: string, value: real, text: string) {
    && IsDecimal(text)
    && if function_ != "AVG" || exists k: nat :: WholeAt(value, k) then Exact(text) == value
       else Scale(text) >= 6 && WithinHalfUnit(Exact(text), value, Scale(text))
  }

  lemma WholeIsIntegral(r: Rat, k: nat)
    requires r.den > 0
    ensures IntegralAt(r, k) <==> WholeAt(r.Val(), k)
  {
    if IntegralAt(r, k) {
      var n: int :| IsScaledBy(r, k, n);
      assert IsUnits(r.Val(), k, n);
    }
    if WholeAt(r.Val(), k) {
      var n: int :| IsUnits(r.Val(), k, n);
      assert IsScaledBy(r, k, n);
    }
  }

  /** A sum, count, minimum or maximum has no digits beyond its print scale. */
  lemma ValueIsWhole(scope: Scope, keys: set<string>, value: real, scale: nat)
    requires keys <= scope.rows.Keys && IsValue(scope, keys, value) && scope.plan.function_ != "AVG"
    requires scope.plan.CountsRows() || IsMaxScale(scope, keys, scale)
    ensures WholeAt(value, scale)
  {
    var f := scope.plan.function_;
    if f == "COUNT" {
      assert IsUnits(value, 0, CountOver(scope, keys));
      WholeAbove(value, 0, scale);
    } else if f == "MIN" || f == "MAX" {
      var c :| IsInput(scope, keys, c) && CellValue(c) == value;
      CellIsWhole(c, scale);
    } else {
      TotalIsWhole(scope, keys, scale);
    }
  }

  lemma PrintTells(scope: Scope, keys: set<string>, value: real, text: string)
    requires keys <= scope.rows.Keys && IsValue(scope, keys, value) && IsPrinted(scope, keys, value, text)
    ensures Tells(scope.plan.function_, value, text)
  {
    var r, inputScale, scale :| PrintedBy(scope, keys, value, text, r, inputScale, scale);
    if scope.plan.function_ == "AVG" {
      AverageTells(inputScale, r, scale);
    } else {
      ValueIsWhole(scope, keys, value, scale);
      WholeIsIntegral(r, scale);
      FloatStringExact(r, scale);
    }
  }

  lemma AverageTells(inputScale: nat, r: Rat, scale: nat)
    requires r.Lowest() && IsPrintScale("AVG", inputScale, r, scale)
    ensures Tells("AVG", r.Val(), FloatString(r, scale))
  {
    if HasFiniteExpansion(r) {
      var least :| IsLeastScale(r, least) && scale == Max(inputScale, least);
      IntegralAboveIntegral(r, least, scale);
      WholeIsIntegral(r, scale);
      FloatStringExact(r, scale);
    } else {
      forall k: nat ensures !WholeAt(r.Val(), k) {
        WholeIsIntegral(r, k);
      }
      FloatStringNearest(r, scale);
      FloatStringDigits(r, scale);
    }
  }

  /** The printed bucket: SUM, MIN, MAX and COUNT exactly, AVG exactly when it has finitely
      many digits and otherwise within half a unit of a digit no coarser than the sixth. */
  ghost predicate TellsValue(scope: Scope, bucket: Bucket) {
    && bucket.groupValues in Tuples(scope, scope.rows.Keys)
    && exists value :: IsValue(scope, BucketRows(scope, scope.rows.Keys, bucket.groupValues), value)
                       && Tells(scope.plan.function_, value, bucket.value)
  }

  lemma AnswerTellsValues(request: Request, result: Result)
    requires Answers(request, result)
    ensures exists plan :: Reduces(request, plan)
                           && forall bucket :: bucket in result.buckets ==> TellsValue(ScopeOf(request, plan), bucket)
  {
    var plan :| Reduces(request, plan) && IsAnswer(ScopeOf(request, plan), request.spec.order, request.spec.limit, result);
    var scope := ScopeOf(request, plan);
    forall bucket | bucket in result.buckets ensures TellsValue(scope, bucket) {
      ShownTellsValue(scope, request.spec.order, request.spec.limit, result, bucket);
    }
  }

  lemma ShownBucket(scope: Scope, order: string, limit: int, result: Result, bucket: Bucket) returns (entry: Ranked)
    requires IsAnswer(scope, order, limit, result) && bucket in result.buckets
    ensures IsEntry(scope, entry) && ShownAt(scope, entry, bucket)
  {
    var ranking: seq<Ranked> :| IsRanking(scope, order, ranking) && ShowsRanking(scope, ranking, limit, result.buckets);
    var i :| 0 <= i < |result.buckets| && result.buckets[i] == bucket;
    entry := ranking[i];
    assert ShownAt(scope, ranking[i], result.buckets[i]) && entry in ranking;
  }

  lemma ShownValue(scope: Scope, entry: Ranked, bucket: Bucket)
    requires IsEntry(scope, entry) && ShownAt(scope, entry, bucket)
    ensures IsValue(scope, BucketRows(scope, scope.rows.Keys, bucket.groupValues), entry.value)
  {
    var tuple :| IsEntryOf(scope, tuple, entry);
    BucketKeyIsInjective(tuple, bucket.groupValues);
  }

  lemma ShownTellsValue(scope: Scope, order: string, limit: int, result: Result, bucket: Bucket)
    requires IsAnswer(scope, order, limit, result) && bucket in result.buckets
    ensures TellsValue(scope, bucket)
  {
    var entry := ShownBucket(scope, order, limit, result, bucket);
    ShownValue(scope, entry, bucket);
    PrintTells(scope, BucketRows(scope, scope.rows.Keys, bucket.groupValues), entry.value, bucket.value);
  }

  // ----- witnesses -----

  /** Before the limit every input cell is a witness of exactly one bucket: that of its row's tuple. */
  lemma InputInOneBucket(scope: Scope, key: string, c: Cell, tuple: seq<string>)
    requires Wellformed(scope.rows) && key in scope.rows && c in RowInputs(scope.rows[key], scope.plan)
    ensures TupleOf(scope, key) in Tuples(scope, scope.rows.Keys)
    ensures c.evidence in InputRefs(scope, BucketRows(scope, scope.rows.Keys, tuple)) <==> tuple == TupleOf(scope, key)
  {
    var keys := BucketRows(scope, scope.rows.Keys, tuple);
    if c.evidence in InputRefs(scope, keys) {
      var k, d :| k in keys && d in RowInputs(scope.rows[k], scope.plan) && c.evidence == d.evidence;
      RowInputsOfRow(scope.rows[k], scope.plan);
      RowInputsOfRow(scope.rows[key], scope.plan);
      SameIdSameCell(scope.rows, key, k, c, d);
    }
  }

  // ----- every tuple has a value -----

  ghost predicate BestOf(cells: seq<Cell>, minimum: bool, c: Cell) {
    c in cells && forall d :: d in cells ==> IsBest(minimum, CellValue(c), CellValue(d))
  }

  lemma {:induction false} BestExists(cells: seq<Cell>, minimum: bool) returns (c: Cell)
    requires cells != []
    ensures BestOf(cells, minimum, c)
  {
    var rest := cells[1..];
    assert cells == [cells[0]] + rest;
    c := cells[0];
    if rest == [] {
    } else {
      var best := BestExists(rest, minimum);
      if !IsBest(minimum, CellValue(c), CellValue(best)) {
        c := best;
      }
    }
  }

  lemma {:induction false} ExtremumExists(scope: Scope, keys: set<string>, minimum: bool) returns (value: real)
    requires Complete(scope) && !scope.plan.CountsRows() && keys <= scope.rows.Keys && keys != {}
    ensures IsExtremum(scope, keys, minimum, value)
    decreases keys
  {
    var key := AnyOf(keys);
    assert RowComplete(scope.rows[key], scope.plan);
    var best := BestExists(RowInputs(scope.rows[key], scope.plan), minimum);
    value := CellValue(best);
    assert IsInput(scope, keys, best);
    if keys != {key} {
      var other := ExtremumExists(scope, keys - {key}, minimum);
      var c :| IsInput(scope, keys - {key}, c) && CellValue(c) == other;
      assert IsInput(scope, keys, c);
      if !IsBest(minimum, value, other) {
        value := other;
      }
    }
    forall c | IsInput(scope, keys, c) ensures IsBest(minimum, value, CellValue(c)) {
      var k :| k in keys && c in RowInputs(scope.rows[k], scope.plan);
      if k != key {
        assert IsInput(scope, keys - {key}, c);
      }
    }
  }

  lemma ValueExists(scope: Scope, tuple: seq<string>) returns (value: real)
    requires Wellformed(scope.rows) && Complete(scope) && tuple in Tuples(scope, scope.rows.Keys)
    ensures IsValue(scope, BucketRows(scope, scope.rows.Keys, tuple), value)
  {
    var keys := BucketRows(scope, scope.rows.Keys, tuple);
    var f := scope.plan.function_;
    TupleHasRows(scope, tuple);
    if f == "COUNT" {
      value := CountOver(scope, keys) as real;
    } else if f == "AVG" {
      CountIsPositive(scope, keys);
      value := TotalOver(scope, keys) / CountOver(scope, keys) as real;
    } else if f == "MIN" || f == "MAX" {
      value := ExtremumExists(scope, keys, f == "MIN");
    } else {
      value := TotalOver(scope, keys);
    }
  }

  // ----- the whole answer -----

  /** A limited answer is the front of the unlimited one. */
  lemma LimitCutsTheFront(scope: Scope, order: string, limit: int, shown: Result, whole: Result)
    requires IsAnswer(scope, order, limit, shown) && IsAnswer(scope, order, 0, whole)
    ensures |shown.buckets| == if 0 < limit < |whole.buckets| then limit else |whole.buckets|
    ensures shown.buckets <= whole.buckets
  {
    var p: seq<Ranked> :| IsRanking(scope, order, p) && ShowsRanking(scope, p, limit, shown.buckets);
    var q: seq<Ranked> :| IsRanking(scope, order, q) && ShowsRanking(scope, q, 0, whole.buckets);
    RankingIsUnique(scope, order, p, q);
    forall i | 0 <= i < |shown.buckets| ensures shown.buckets[i] == whole.buckets[i] {
      SameEntrySameBucket(scope, p[i], shown.buckets[i], whole.buckets[i]);
    }
  }

  lemma SameEntrySameBucket(scope: Scope, entry: Ranked, a: Bucket, b: Bucket)
    requires ShownAt(scope, entry, a) && ShownAt(scope, entry, b)
    ensures a == b
  {
    BucketKeyIsInjective(a.groupValues, b.groupValues);
    BucketIsUnique(scope, a.groupValues, entry.value, a, b);
  }

  ghost predicate TupleAt(result: Result, i: int, tuple: seq<string>) {
    0 <= i < |result.buckets| && result.buckets[i].groupValues == tuple
  }

  /** Without a limit every group tuple has exactly one bucket. */
  lemma OneBucketPerTuple(scope: Scope, order: string, result: Result, tuple: seq<string>) returns (i: int)
    requires Wellformed(scope.rows) && Complete(scope) && tuple in Tuples(scope, scope.rows.Keys)
    requires IsAnswer(scope, order, 0, result)
    ensures forall j :: TupleAt(result, j, tuple) <==> j == i
  {
    var ranking: seq<Ranked> :| IsRanking(scope, order, ranking) && ShowsRanking(scope, ranking, 0, result.buckets);
    var entry := EntryOfTuple(scope, order, ranking, tuple);
    i := IndexOfEntry(scope, order, ranking, entry);
    forall j | 0 <= j < |ranking| ensures TupleAt(result, j, tuple) <==> j == i {
      TupleAtEntry(scope, order, ranking, result.buckets, entry, tuple, j);
    }
  }

  lemma EntryOfTuple(scope: Scope, order: string, ranking: seq<Ranked>, tuple: seq<string>) returns (entry: Ranked)
    requires Wellformed(scope.rows) && Complete(scope) && tuple in Tuples(scope, scope.rows.Keys)
    requires IsRanking(scope, order, ranking)
    ensures IsEntryOf(scope, tuple, entry) && entry in ranking
  {
    var value := ValueExists(scope, tuple);
    entry := Ranked(BucketKey(tuple), value);
    assert IsEntryOf(scope, tuple, entry);
    assert IsEntry(scope, entry);
  }

  lemma IndexOfEntry(scope: Scope, order: string, ranking: seq<Ranked>, entry: Ranked) returns (i: int)
    requires IsRanking(scope, order, ranking) && entry in ranking
    ensures 0 <= i < |ranking| && forall j :: 0 <= j < |ranking| ==> (ranking[j] == entry <==> j == i)
  {
    BeforeIsStrictOrder(order);
    SortedIsDistinct(ranking, (a, b) => Before(order, a, b));
    i :| 0 <= i < |ranking| && ranking[i] == entry;
  }

  lemma TupleAtEntry(scope: Scope, order: string, ranking: seq<Ranked>, buckets: seq<Bucket>, entry: Ranked, tuple: seq<string>, j: nat)
    requires IsRanking(scope, order, ranking) && ShowsRanking(scope, ranking, 0, buckets) && j < |ranking|
    requires IsEntryOf(scope, tuple, entry)
    ensures buckets[j].groupValues == tuple <==> ranking[j] == entry
  {
    assert ranking[j] in ranking && ShownAt(scope, ranking[j], buckets[j]);
    TupleOfEntry(scope, entry, tuple, ranking[j], buckets[j]);
  }

  lemma TupleOfEntry(scope: Scope, entry: Ranked, tuple: seq<string>, other: Ranked, bucket: Bucket)
    requires IsEntryOf(scope, tuple, entry) && ShownAt(scope, other, bucket) && IsEntry(scope, other)
    ensures bucket.groupValues == tuple <==> other == entry
  {
    BucketKeyIsInjective(bucket.groupValues, tuple);
    ShownValue(scope, other, bucket);
    if bucket.groupValues == tuple {
      ValueIsUnique(scope, BucketRows(scope, scope.rows.Keys, tuple), entry.value, other.value);
    }
  }

  ghost predicate WitnessAt(result: Result, i: int, ref: Evidence) {
    0 <= i < |result.buckets| && ref in result.buckets[i].evidence
  }

  /** Without a limit every metric cell, or for COUNT every row, is witnessed in exactly one bucket. */
  lemma EveryInputIsWitnessedOnce(scope: Scope, order: string, result: Result, key: string, c: Cell) returns (i: int)
    requires Wellformed(scope.rows) && Complete(scope) && IsAnswer(scope, order, 0, result)
    requires key in scope.rows && c in RowInputs(scope.rows[key], scope.plan)
    ensures forall j :: WitnessAt(result, j, c.evidence) <==> j == i
  {
    var tuple := TupleOf(scope, key);
    assert tuple in Tuples(scope, scope.rows.Keys);
    i := OneBucketPerTuple(scope, order, result, tuple);
    WitnessesOfTuple(scope, order, result, key, c);
  }

  lemma WitnessesOfTuple(scope: Scope, order: string, result: Result, key: string, c: Cell)
    requires Wellformed(scope.rows) && IsAnswer(scope, order, 0, result)
    requires key in scope.rows && c in RowInputs(scope.rows[key], scope.plan)
    ensures forall j :: WitnessAt(result, j, c.evidence) <==> TupleAt(result, j, TupleOf(scope, key))
  {
    forall j: int
      ensures WitnessAt(result, j, c.evidence) <==> TupleAt(result, j, TupleOf(scope, key))
    {
      if 0 <= j < |result.buckets| {
        WitnessOfTuple(scope, order, result, j, key, c);
      }
    }
  }

  lemma WitnessOfTuple(scope: Scope, order: string, result: Result, j: int, key: string, c: Cell)
    requires Wellformed(scope.rows) && IsAnswer(scope, order, 0, result) && 0 <= j < |result.buckets|
    requires key in scope.rows && c in RowInputs(scope.rows[key], scope.plan)
    ensures WitnessAt(result, j, c.evidence) <==> TupleAt(result, j, TupleOf(scope, key))
  {
    var bucket := result.buckets[j];
    var entry := ShownBucket(scope, order, 0, result, bucket);
    ShownWitnesses(scope, entry, bucket);
    InputInOneBucket(scope, key, c, bucket.groupValues);
  }

  lemma ShownWitnesses(scope: Scope, entry: Ranked, bucket: Bucket)
    requires ShownAt(scope, entry, bucket)
    ensures forall e :: e in bucket.evidence <==> e in InputRefs(scope, BucketRows(scope, scope.rows.Keys, bucket.groupValues))
  {
  }
}
