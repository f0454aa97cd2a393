/** validateResult, the independent check of a reducer's result. */
module AnalyticRegistry {
  import opened Seqs
  import opened Decimals
  import opened AnalyticCells
  import opened AnalyticBuckets

  /** DefaultLimits().MaxBuckets */
  const MAX_BUCKETS := 128

  // ----- what the check demands -----

  /** The evidence known under its id is this one: the last cell with the id carries it. */
  ghost predicate Known(cells: seq<Cell>, ref: Evidence) {
    exists i :: KnownAt(cells, ref, i)
  }

  ghost predicate KnownAt(cells: seq<Cell>, ref: Evidence, i: int) {
    0 <= i < |cells| && cells[i].evidence == ref && forall j :: i < j < |cells| ==> cells[j].evidence.id != ref.id
  }

  ghost predicate AllKnown(cells: seq<Cell>, refs: seq<Evidence>) {
    forall e :: e in refs ==> Known(cells, e)
  }

  ghost predicate HeaderAccepted(result: Result, request: Request, maxBuckets: nat) {
    && ValidOpaque(result.function_) && result.function_ == request.spec.function_
    && result.order == request.spec.order && 0 < |result.buckets| <= maxBuckets
    && (result.metric == "" || ValidOpaque(result.metric)) && |result.groupBy| == |request.spec.groupBy|
    && forall g :: g in result.groupBy ==> ValidOpaque(g)
  }

  predicate LabelAccepted(bucket: Bucket, grouped: bool, dimensions: nat) {
    if grouped then
      |bucket.groupEvidence| == dimensions && |bucket.groupValues| == dimensions && bucket.key == GroupLabel(bucket.groupValues)
    else bucket.key == "__all__" && bucket.groupEvidence == [] && bucket.groupValues == []
  }

  predicate BucketHead(bucket: Bucket) {
    ValidOpaque(bucket.key) && IsDecimal(bucket.value) && bucket.count >= 1 && bucket.evidence != []
  }

  ghost predicate Disjoint(a: seq<Evidence>, b: seq<Evidence>) {
    forall e, f :: e in a && f in b ==> e.id != f.id
  }

  ghost predicate RefsAccepted(bucket: Bucket, cells: seq<Cell>) {
    && AllKnown(cells, bucket.evidence) && AllKnown(cells, bucket.filterEvidence) && AllKnown(cells, bucket.groupEvidence)
    && DistinctRefIds(bucket.evidence) && DistinctRefIds(bucket.filterEvidence) && DistinctRefIds(bucket.groupEvidence)
    && Disjoint(bucket.evidence, bucket.groupEvidence)
  }

  ghost predicate BucketAccepted(bucket: Bucket, request: Request, dimensions: nat) {
    && BucketHead(bucket) && LabelAccepted(bucket, request.spec.groupBy != [], dimensions)
    && (forall v :: v in bucket.groupValues ==> ValidOpaque(v))
    && RefsAccepted(bucket, request.cells)
  }

  ghost predicate Accepted(result: Result, request: Request, maxBuckets: nat) {
    && HeaderAccepted(result, request, maxBuckets)
    && forall b :: b in result.buckets ==> BucketAccepted(b, request, |result.groupBy|)
  }

  // ----- the check -----

  ghost predicate Indexes(known: map<string, Evidence>, cells: seq<Cell>) {
    forall ref: Evidence :: ValidEvidenceRef(ref, known) <==> Known(cells, ref)
  }

  /** validEvidenceRef */
  predicate ValidEvidenceRef(ref: Evidence, known: map<string, Evidence>) {
    ref.id in known && known[ref.id] == ref
  }

  method IndexEvidence(cells: seq<Cell>) returns (known: map<string, Evidence>)
    ensures Indexes(known, cells)
  {
    known := map[];
    for i := 0 to |cells|
      invariant Indexes(known, cells[..i])
    {
      KnownSnoc(cells, i);
      known := known[cells[i].evidence.id := cells[i].evidence];
    }
    WholePrefix(cells);
  }

  lemma KnownSnoc(cells: seq<Cell>, i: nat)
    requires i < |cells|
    ensures forall ref :: Known(cells[..i + 1], ref) <==>
                          ref == cells[i].evidence || (ref.id != cells[i].evidence.id && Known(cells[..i], ref))
  {
    var front, more := cells[..i], cells[..i + 1];
    forall ref: Evidence
      ensures Known(more, ref) <==> ref == cells[i].evidence || (ref.id != cells[i].evidence.id && Known(front, ref))
    {
      if ref == cells[i].evidence {
        assert KnownAt(more, ref, i);
      } else if ref.id == cells[i].evidence.id {
        forall j ensures !KnownAt(more, ref, j) {
          assert more[i].evidence.id == ref.id;
        }
      } else {
        forall j ensures KnownAt(more, ref, j) <==> KnownAt(front, ref, j) {
          KnownAtPrefix(cells, i, ref, j);
        }
      }
    }
  }

  lemma KnownAtPrefix(cells: seq<Cell>, i: nat, ref: Evidence, j: int)
    requires i < |cells| && ref.id != cells[i].evidence.id
    ensures KnownAt(cells[..i + 1], ref, j) <==> KnownAt(cells[..i], ref, j)
  {
    var front, more := cells[..i], cells[..i + 1];
    if KnownAt(more, ref, j) {
      forall k | j < k < |front| ensures front[k].evidence.id != ref.id {
        assert more[k] == front[k];
      }
    }
  }

  function Ids(refs: seq<Evidence>): set<string> {
    set e | e in refs :: e.id
  }

  ghost predicate FreshRefs(refs: seq<Evidence>, seen: set<string>) {
    DistinctRefIds(refs) && forall e :: e in refs ==> e.id !in seen
  }

  /** One of the three witness loops: every reference known, and no id seen before. */
  method CheckRefs(refs: seq<Evidence>, known: map<string, Evidence>, seen: set<string>, ghost cells: seq<Cell>)
    returns (ok: bool, after: set<string>)
    requires Indexes(known, cells)
    ensures ok <==> AllKnown(cells, refs) && FreshRefs(refs, seen)
    ensures ok ==> after == seen + Ids(refs)
  {
    after := seen;
    for i := 0 to |refs|
      invariant AllKnown(cells, refs[..i]) && FreshRefs(refs[..i], seen)
      invariant after == seen + Ids(refs[..i])
    {
      FreshSnoc(refs, i, seen);
      if !ValidEvidenceRef(refs[i], known) {
        return false, after;
      }
      if refs[i].id in after {
        return false, after;
      }
      after := after + {refs[i].id};
    }
    WholePrefix(refs);
    return true, after;
  }

  lemma FreshSnoc(refs: seq<Evidence>, i: nat, seen: set<string>)
    requires i < |refs| && FreshRefs(refs[..i], seen)
    ensures FreshRefs(refs[..i + 1], seen) <==> refs[i].id !in seen + Ids(refs[..i])
    ensures refs[i].id in seen + Ids(refs[..i]) ==> !FreshRefs(refs, seen)
    ensures Ids(refs[..i + 1]) == Ids(refs[..i]) + {refs[i].id}
    ensures forall e :: e in refs[..i + 1] <==> e in refs[..i] || e == refs[i]
    ensures refs[i] in refs
  {
    var front, more := refs[..i], refs[..i + 1];
    PrefixSnoc(refs, i);
    if refs[i].id in Ids(front) {
      var k :| 0 <= k < i && front[k].id == refs[i].id;
      assert more[k].id == more[i].id && refs[k].id == refs[i].id;
    } else {
      forall j | 0 <= j < i ensures more[j].id != more[i].id {
        assert front[j] in front;
      }
    }
    assert more[i] in more;
  }

  lemma SeenDisjoint(evidence: seq<Evidence>, groupEvidence: seq<Evidence>)
    ensures FreshRefs(groupEvidence, Ids(evidence)) <==> DistinctRefIds(groupEvidence) && Disjoint(evidence, groupEvidence)
  {
  }

  method CheckWitnesses(bucket: Bucket, known: map<string, Evidence>, ghost cells: seq<Cell>) returns (ok: bool)
    requires Indexes(known, cells)
    ensures ok <==> RefsAccepted(bucket, cells)
  {
    var seenRefs;
    ok, seenRefs := CheckRefs(bucket.evidence, known, {}, cells);
    if !ok {
      return;
    }
    var filterRefs;
    ok, filterRefs := CheckRefs(bucket.filterEvidence, known, {}, cells);
    if !ok {
      return;
    }
    SeenDisjoint(bucket.evidence, bucket.groupEvidence);
    ok, seenRefs := CheckRefs(bucket.groupEvidence, known, seenRefs, cells);
  }

  method AllOpaque(values: seq<string>) returns (ok: bool)
    ensures ok <==> forall v :: v in values ==> ValidOpaque(v)
  {
    for i := 0 to |values|
      invariant forall v :: v in values[..i] ==> ValidOpaque(v)
    {
      PrefixSnoc(values, i);
      if !ValidOpaque(values[i]) {
        assert values[i] in values;
        return false;
      }
    }
    WholePrefix(values);
    return true;
  }

  method CheckBucket(bucket: Bucket, request: Request, dimensions: nat, known: map<string, Evidence>) returns (ok: bool)
    requires Indexes(known, request.cells)
    ensures ok <==> BucketAccepted(bucket, request, dimensions)
  {
    if !BucketHead(bucket) || !LabelAccepted(bucket, |request.spec.groupBy| > 0, dimensions) {
      return false;
    }
    ok := AllOpaque(bucket.groupValues);
    if ok {
      ok := CheckWitnesses(bucket, known, request.cells);
    }
  }

  method CheckHeader(result: Result, request: Request, maxBuckets: nat) returns (ok: bool)
    ensures ok <==> HeaderAccepted(result, request, maxBuckets)
  {
    if !ValidOpaque(result.function_) || result.function_ != request.spec.function_
       || result.order != request.spec.order || |result.buckets| == 0 || |result.buckets| > maxBuckets {
      return false;
    }
    if (result.metric != "" && !ValidOpaque(result.metric)) || |result.groupBy| != |request.spec.groupBy| {
      return false;
    }
    ok := AllOpaque(result.groupBy);
  }

  /** validateResult */
  method ValidateResult(result: Result, request: Request, maxBuckets: nat) returns (ok: bool)
    ensures ok <==> Accepted(result, request, maxBuckets)
  {
    ok := CheckHeader(result, request, maxBuckets);
    if !ok {
      return;
    }
    var known := IndexEvidence(request.cells);
    for i := 0 to |result.buckets|
      invariant forall b :: b in result.buckets[..i] ==> BucketAccepted(b, request, |result.groupBy|)
    {
      PrefixSnoc(result.buckets, i);
      ok := CheckBucket(result.buckets[i], request, |result.groupBy|, known);
      if !ok {
        assert result.buckets[i] in result.buckets;
        return;
      }
    }
    WholePrefix(result.buckets);
    return true;
  }

  /** Every bucket of an accepted result has a decimal value, a count, witnesses and the label its values join to. */
  lemma AcceptedMeans(result: Result, request: Request, maxBuckets: nat, bucket: Bucket)
    requires Accepted(result, request, maxBuckets) && bucket in result.buckets
    ensures IsDecimal(bucket.value) && bucket.count >= 1 && bucket.evidence != [] && ValidOpaque(bucket.key)
    ensures request.spec.groupBy == [] ==> bucket.key == "__all__" && bucket.groupValues == [] && bucket.groupEvidence == []
    ensures request.spec.groupBy != [] ==>
              |bucket.groupValues| == |bucket.groupEvidence| == |request.spec.groupBy| && bucket.key == GroupLabel(bucket.groupValues)
    ensures forall e :: e in bucket.evidence + bucket.groupEvidence + bucket.filterEvidence ==> exists c :: c in request.cells && c.evidence == e
    ensures forall e, f :: e in bucket.evidence && f in bucket.groupEvidence ==> e.id != f.id
  {
    assert BucketAccepted(bucket, request, |result.groupBy|);
    forall e | e in bucket.evidence + bucket.groupEvidence + bucket.filterEvidence
      ensures exists c :: c in request.cells && c.evidence == e
    {
      assert Known(request.cells, e);
      var i :| KnownAt(request.cells, e, i);
      assert request.cells[i] in request.cells;
    }
  }
}
