/** EvidenceAdapter.Aggregate: reduce the rows, finish, order and print the buckets. */
module AnalyticReducer {
  import opened Sets
  import opened Rationals
  import opened AnalyticCells
  import opened AnalyticPlan
  import opened AnalyticSpec
  import opened AnalyticRows
  import opened AnalyticBuckets

  type Buckets = map<string, Partial>

  // ----- the row loop -----

  ghost function KeysOf(tuples: set<seq<string>>): set<string> {
    set t | t in tuples :: BucketKey(t)
  }

  lemma {:induction false} KeysOfSize(tuples: set<seq<string>>)
    ensures |KeysOf(tuples)| == |tuples|
  {
    if tuples == {} {
    } else {
      var t :| t in tuples;
      KeysOfSize(tuples - {t});
      forall u | u in tuples - {t} ensures BucketKey(u) != BucketKey(t) { BucketKeyIsInjective(t, u); }
      assert KeysOf(tuples) == KeysOf(tuples - {t}) + {BucketKey(t)};
    }
  }

  ghost predicate GroupedBucket(scope: Scope, keys: set<string>, name: string, p: Partial)
    requires keys <= scope.rows.Keys
  {
    && name == BucketKey(p.groupValues) && p.groupValues in Tuples(scope, keys)
    && Holds(scope, BucketRows(scope, keys, p.groupValues), p)
  }

  /** The buckets after the given rows: one per group tuple, each describing exactly its rows. */
  ghost predicate Grouped(scope: Scope, keys: set<string>, buckets: Buckets)
    requires keys <= scope.rows.Keys
  {
    buckets.Keys == KeysOf(Tuples(scope, keys)) && AllGrouped(scope, keys, buckets)
  }

  lemma BucketRowsAdd(scope: Scope, keys: set<string>, key: string, tuple: seq<string>)
    requires keys <= scope.rows.Keys && key in scope.rows
    ensures keys + {key} <= scope.rows.Keys
    ensures BucketRows(scope, keys + {key}, tuple)
         == BucketRows(scope, keys, tuple) + if TupleOf(scope, key) == tuple then {key} else {}
    ensures Tuples(scope, keys + {key}) == Tuples(scope, keys) + {TupleOf(scope, key)}
    ensures tuple !in Tuples(scope, keys) ==> BucketRows(scope, keys, tuple) == {}
  {
  }

  lemma GroupedBucketKept(scope: Scope, keys: set<string>, key: string, name: string, p: Partial)
    requires keys <= scope.rows.Keys && key in scope.rows && GroupedBucket(scope, keys, name, p)
    requires p.groupValues != TupleOf(scope, key)
    ensures keys + {key} <= scope.rows.Keys && GroupedBucket(scope, keys + {key}, name, p)
  {
    BucketRowsAdd(scope, keys, key, p.groupValues);
    assert BucketRows(scope, keys + {key}, p.groupValues) == BucketRows(scope, keys, p.groupValues);
  }

  lemma GroupedBucketNew(scope: Scope, keys: set<string>, key: string, p: Partial)
    requires keys <= scope.rows.Keys && key in scope.rows && p.groupValues == TupleOf(scope, key)
    requires Holds(scope, BucketRows(scope, keys, p.groupValues) + {key}, p)
    ensures keys + {key} <= scope.rows.Keys
    ensures GroupedBucket(scope, keys + {key}, BucketKey(p.groupValues), p)
  {
    BucketRowsAdd(scope, keys, key, p.groupValues);
  }

  lemma KeysOfAdd(tuples: set<seq<string>>, tuple: seq<string>)
    ensures KeysOf(tuples + {tuple}) == KeysOf(tuples) + {BucketKey(tuple)}
  {
  }

  ghost predicate AllGrouped(scope: Scope, keys: set<string>, buckets: Buckets)
    requires keys <= scope.rows.Keys
  {
    forall name {:trigger GroupedBucket(scope, keys, name, buckets[name])} :: name in buckets ==> GroupedBucket(scope, keys, name, buckets[name])
  }

  lemma AllGroupedAdd(scope: Scope, keys: set<string>, key: string, buckets: Buckets, p: Partial)
    requires keys <= scope.rows.Keys && key in scope.rows && AllGrouped(scope, keys, buckets)
    requires p.groupValues == TupleOf(scope, key)
    requires Holds(scope, BucketRows(scope, keys, p.groupValues) + {key}, p)
    ensures keys + {key} <= scope.rows.Keys
    ensures AllGrouped(scope, keys + {key}, buckets[BucketKey(p.groupValues) := p])
  {
    GroupedBucketNew(scope, keys, key, p);
    forall name | name in buckets && name != BucketKey(p.groupValues)
      ensures GroupedBucket(scope, keys + {key}, name, buckets[name])
    {
      GroupedBucketKept(scope, keys, key, name, buckets[name]);
    }
  }

  lemma GroupedAdd(scope: Scope, keys: set<string>, key: string, buckets: Buckets, p: Partial)
    requires keys <= scope.rows.Keys && key in scope.rows && Grouped(scope, keys, buckets)
    requires p.groupValues == TupleOf(scope, key)
    requires Holds(scope, BucketRows(scope, keys, p.groupValues) + {key}, p)
    ensures keys + {key} <= scope.rows.Keys
    ensures Grouped(scope, keys + {key}, buckets[BucketKey(p.groupValues) := p])
  {
    AllGroupedAdd(scope, keys, key, buckets, p);
    BucketRowsAdd(scope, keys, key, p.groupValues);
    KeysOfAdd(Tuples(scope, keys), p.groupValues);
  }

  function EmptyPartial(values: seq<string>, evidence: seq<Evidence>): Partial {
    Partial(FromInt(0), 0, 0, [], values, evidence, [])
  }

  lemma EmptyHolds(scope: Scope, values: seq<string>, evidence: seq<Evidence>)
    ensures HoldsSums(scope, {}, EmptyPartial(values, evidence))
  {
    assert InputRefs(scope, {}) == {} && FilterRefs(scope, {}) == {};
  }

  lemma FirstGroups(scope: Scope, key: string, refs: seq<Evidence>)
    requires key in scope.rows && |refs| == |scope.plan.groups|
    requires forall d :: 0 <= d < |refs| ==> RowOffers(scope.rows[key], scope.plan.groups[d], refs[d])
    ensures HoldsGroups(scope, {key}, refs)
  {
    forall d | 0 <= d < |refs| ensures IsLeastGroupRef(scope, {key}, scope.plan.groups[d], refs[d]) {
      assert key in {key};
    }
  }

  /** Find or open the bucket of a row and add the row to it. */
  method AddToBucket(ghost scope: Scope, ghost keys: set<string>, key: string, row: seq<Cell>, facts: RowFacts,
                     plan: Plan, filters: seq<Filter>, known: bool, bucket: Partial) returns (p: Partial)
    requires Wellformed(scope.rows) && keys <= scope.rows.Keys && key in scope.rows && key !in keys
    requires row == scope.rows[key] && plan == scope.plan && filters == scope.filters
    requires IsFacts(row, plan, facts)
    requires known ==> Holds(scope, keys, bucket) && bucket.groupValues == facts.values
    requires !known ==> keys == {} && bucket == EmptyPartial(facts.values, facts.evidence)
    ensures Holds(scope, keys + {key}, p) && p.groupValues == facts.values
  {
    if known {
      var merged := MergeGroupEvidence(bucket.groupEvidence, facts.evidence);
      GroupsAdd(scope, keys, key, bucket.groupEvidence, facts.evidence, merged);
      p := AddRow(scope, keys, key, row, facts.numbers, plan.CountsRows(), filters, bucket);
      p := p.(groupEvidence := merged);
    } else {
      EmptyHolds(scope, facts.values, facts.evidence);
      FirstGroups(scope, key, facts.evidence);
      p := AddRow(scope, keys, key, row, facts.numbers, plan.CountsRows(), filters, bucket);
      assert keys + {key} == {key};
    }
  }

  lemma TooManyTuples(scope: Scope, keys: set<string>, key: string, buckets: Buckets)
    requires keys <= scope.rows.Keys && key in scope.rows && Grouped(scope, keys, buckets)
    requires |buckets| >= MAXIMUM_BUCKETS && BucketKey(TupleOf(scope, key)) !in buckets
    ensures |Tuples(scope, scope.rows.Keys)| > MAXIMUM_BUCKETS
  {
    var tuple := TupleOf(scope, key);
    KeysOfSize(Tuples(scope, keys));
    assert tuple !in Tuples(scope, keys);
    SubsetSize(Tuples(scope, keys) + {tuple}, Tuples(scope, scope.rows.Keys));
  }

  lemma FewTuples(scope: Scope, keys: set<string>, buckets: Buckets)
    requires keys <= scope.rows.Keys && Grouped(scope, keys, buckets)
    ensures |Tuples(scope, keys)| == |buckets|
  {
    KeysOfSize(Tuples(scope, keys));
  }

  /** Look the bucket of a row up, or open a new one within the bucket limit. */
  method LocateBucket(ghost scope: Scope, ghost keys: set<string>, key: string, facts: RowFacts, buckets: Buckets)
    returns (outcome: Outcome<Partial>, name: string)
    requires keys <= scope.rows.Keys && key in scope.rows && Grouped(scope, keys, buckets)
    requires facts.values == TupleOf(scope, key)
    ensures name == BucketKey(facts.values)
    ensures outcome.Err? ==> outcome.code == Incomplete && |Tuples(scope, scope.rows.Keys)| > MAXIMUM_BUCKETS
    ensures outcome.Ok? && name in buckets ==>
              Holds(scope, BucketRows(scope, keys, facts.values), outcome.value) && outcome.value.groupValues == facts.values
    ensures outcome.Ok? && name !in buckets ==>
              && |buckets| < MAXIMUM_BUCKETS && BucketRows(scope, keys, facts.values) == {}
              && outcome.value == EmptyPartial(facts.values, facts.evidence)
  {
    name := "__all__";
    if |facts.values| > 0 {
      name := CompositeKey(facts.values);
    }
    if name !in buckets {
      if |buckets| >= MAXIMUM_BUCKETS {
        TooManyTuples(scope, keys, key, buckets);
        return Err(Incomplete), name;
      }
      BucketRowsAdd(scope, keys, key, facts.values);
      assert facts.values !in Tuples(scope, keys);
      return Ok(EmptyPartial(facts.values, facts.evidence)), name;
    }
    BucketKeyIsInjective(buckets[name].groupValues, facts.values);
    assert GroupedBucket(scope, keys, name, buckets[name]);
    return Ok(buckets[name]), name;
  }

  /** Conflict needs a row with two labels; Incomplete a row that lacks one, or too many tuples. */
  ghost predicate ReductionFails(scope: Scope, code: ErrorCode) {
    || (code == Conflict && exists key :: key in scope.rows && RowConflicts(scope.rows[key], scope.plan))
    || (code == Incomplete && |Tuples(scope, scope.rows.Keys)| > MAXIMUM_BUCKETS)
    || (code == Incomplete && exists key :: key in scope.rows && RowLacks(scope.rows[key], scope.plan))
  }

  ghost predicate RowLacks(row: seq<Cell>, plan: Plan) {
    !RowComplete(row, plan) && !RowConflicts(row, plan)
  }

  /** One iteration of the row loop. */
  method ReduceRow(ghost scope: Scope, ghost keys: set<string>, key: string, row: seq<Cell>, plan: Plan,
                   filters: seq<Filter>, buckets: Buckets) returns (outcome: Outcome<Buckets>)
    requires Wellformed(scope.rows) && keys <= scope.rows.Keys && key in scope.rows && key !in keys
    requires row == scope.rows[key] && plan == scope.plan && filters == scope.filters
    requires Grouped(scope, keys, buckets) && |buckets| <= MAXIMUM_BUCKETS
    ensures outcome.Err? ==> !RowComplete(row, plan) || |Tuples(scope, scope.rows.Keys)| > MAXIMUM_BUCKETS
    ensures outcome.Err? ==> ReductionFails(scope, outcome.code)
    ensures outcome.Ok? ==> RowComplete(row, plan) && |outcome.value| <= MAXIMUM_BUCKETS
    ensures outcome.Ok? ==> keys + {key} <= scope.rows.Keys && Grouped(scope, keys + {key}, outcome.value)
  {
    var read := ReadRow(row, plan);
    if read.Err? {
      return Err(read.code);
    }
    var facts := read.value;
    var located, name := LocateBucket(scope, keys, key, facts, buckets);
    if located.Err? {
      return Err(located.code);
    }
    var p := AddToBucket(scope, BucketRows(scope, keys, facts.values), key, row, facts, plan, filters,
                         name in buckets, located.value);
    GroupedAdd(scope, keys, key, buckets, p);
    outcome := Ok(buckets[name := p]);
  }

  /** The row loop: visit the rows in any order and group them. */
  method ReduceRows(rows: Rows, plan: Plan, filters: seq<Filter>) returns (outcome: Outcome<Buckets>)
    requires Wellformed(rows)
    ensures outcome.Ok? <==>
            Complete(Scope(rows, plan, filters)) && |Tuples(Scope(rows, plan, filters), rows.Keys)| <= MAXIMUM_BUCKETS
    ensures outcome.Ok? ==> Grouped(Scope(rows, plan, filters), rows.Keys, outcome.value)
    ensures outcome.Err? ==> ReductionFails(Scope(rows, plan, filters), outcome.code)
  {
    ghost var scope := Scope(rows, plan, filters);
    var buckets: Buckets := map[];
    var remaining := rows.Keys;
    ghost var keys: set<string> := {};
    while remaining != {}
      invariant remaining <= rows.Keys && keys == rows.Keys - remaining
      invariant Grouped(scope, keys, buckets) && |buckets| <= MAXIMUM_BUCKETS
      invariant forall key :: key in keys ==> RowComplete(rows[key], plan)
      decreases remaining
    {
      var key :| key in remaining;
      var step := ReduceRow(scope, keys, key, rows[key], plan, filters, buckets);
      if step.Err? {
        return Err(step.code);
      }
      buckets := step.value;
      keys := keys + {key};
      remaining := remaining - {key};
    }
    assert keys == rows.Keys;
    FewTuples(scope, keys, buckets);
    return Ok(buckets);
  }
}
