/** The buckets of EvidenceAdapter.Aggregate while rows are added to them. */
module AnalyticBuckets {
  import opened GoText
  import opened Seqs
  import opened Sorting
  import opened Decimals
  import opened Rationals
  import opened AnalyticCells
  import opened AnalyticPlan
  import opened AnalyticSpec

  datatype Partial = Partial(value: Rat, count: nat, scale: nat, evidence: seq<Evidence>,
                             groupValues: seq<string>, groupEvidence: seq<Evidence>, filterEvidence: seq<Evidence>)

  ghost predicate Lists(refs: seq<Evidence>, all: set<Evidence>) {
    Distinct(refs) && forall e :: e in refs <==> e in all
  }

  ghost predicate HoldsSums(scope: Scope, keys: set<string>, p: Partial)
    requires keys <= scope.rows.Keys
  {
    && p.value.Lowest()
    && p.count == CountOver(scope, keys)
    && Lists(p.evidence, InputRefs(scope, keys))
    && Lists(p.filterEvidence, FilterRefs(scope, keys))
    && (!scope.plan.CountsRows() ==> p.value.Val() == TotalOver(scope, keys) && IsMaxScale(scope, keys, p.scale))
  }

  ghost predicate HoldsGroups(scope: Scope, keys: set<string>, refs: seq<Evidence>)
    requires keys <= scope.rows.Keys
  {
    && |refs| == |scope.plan.groups|
    && forall d :: 0 <= d < |refs| ==> IsLeastGroupRef(scope, keys, scope.plan.groups[d], refs[d])
  }

  ghost predicate Holds(scope: Scope, keys: set<string>, p: Partial)
    requires keys <= scope.rows.Keys
  {
    HoldsSums(scope, keys, p) && HoldsGroups(scope, keys, p.groupEvidence)
  }

  lemma {:induction false} PickDistinct(row: seq<Cell>, test: Cell -> bool)
    requires DistinctIds(row)
    ensures DistinctIds(Pick(row, test))
  {
    if row == [] {
    } else {
      var front, last := row[..|row| - 1], row[|row| - 1];
      PickDistinct(front, test);
      PickElements(front, test);
      forall c | c in Pick(front, test) ensures c.evidence.id != last.evidence.id {
        var i :| 0 <= i < |front| && front[i] == c;
        assert row[i] == c;
      }
    }
  }

  lemma CellsOrdered(row: seq<Cell>)
    requires DistinctIds(row)
    ensures TotalOn(row, CellById) && Distinct(row)
  {
    forall c, d | c in row && d in row && c != d ensures CellById(c, d) || CellById(d, c) {
      var i :| 0 <= i < |row| && row[i] == c;
      var j :| 0 <= j < |row| && row[j] == d;
      LessIsTotal(c.evidence.id, d.evidence.id);
    }
  }

  /** The witness of a counted row: its cell with the smallest evidence id. */
  lemma RowInputsOfRow(row: seq<Cell>, plan: Plan)
    requires DistinctIds(row)
    ensures var inputs := RowInputs(row, plan);
            && (forall c :: c in inputs ==> c in row) && DistinctIds(inputs)
            && (plan.CountsRows() && row != [] ==>
                  |inputs| == 1 && forall c :: c in row ==> c == inputs[0] || CellById(inputs[0], c))
  {
    if plan.CountsRows() {
      CellsOrdered(row);
      IdOrders();
      SortSorts(row, CellById);
      var sorted := Sort(row, CellById);
      if sorted != [] {
        HeadIn(sorted);
        HeadIsLeast(sorted, CellById);
        assert sorted == [sorted[0]] + sorted[1..];
      }
    } else {
      PickElements(row, (c: Cell) => c.numeric && TermsEqual(c.column, plan.metric));
      PickDistinct(row, (c: Cell) => c.numeric && TermsEqual(c.column, plan.metric));
    }
  }

  lemma SameIdInCells(cells: seq<Cell>, c: Cell, d: Cell)
    requires DistinctIds(cells) && c in cells && d in cells && c.evidence.id == d.evidence.id
    ensures c == d
  {
    var i :| 0 <= i < |cells| && cells[i] == c;
    var j :| 0 <= j < |cells| && cells[j] == d;
  }

  /** In well-formed rows an evidence id belongs to one cell. */
  lemma SameIdSameCell(rows: Rows, j: string, k: string, c: Cell, d: Cell)
    requires Wellformed(rows) && j in rows && k in rows && c in rows[j] && d in rows[k]
    requires c.evidence.id == d.evidence.id
    ensures c == d && j == k
  {
    assert j != k ==> Apart(rows, j, k);
    SameIdInCells(rows[j], c, d);
  }

  ghost predicate DistinctRefIds(refs: seq<Evidence>) {
    forall i, j :: 0 <= i < j < |refs| ==> refs[i].id != refs[j].id
  }

  ghost predicate HasId(refs: seq<Evidence>, id: string) {
    exists i :: 0 <= i < |refs| && refs[i].id == id
  }

  /** Evidence of cells that satisfy some equality filter. */
  ghost predicate FilterEvidence(refs: seq<Evidence>, cells: seq<Cell>, filters: seq<Filter>) {
    forall e :: e in refs ==> exists c :: c in cells && CellIsFiltered(c, filters) && e == c.evidence
  }

  lemma IdsKept(before: seq<Evidence>, added: seq<Evidence>)
    ensures forall id :: HasId(before, id) ==> HasId(before + added, id)
  {
    forall id | HasId(before, id) ensures HasId(before + added, id) {
      var k :| 0 <= k < |before| && before[k].id == id;
      assert (before + added)[k].id == id;
    }
  }

  /** appendFilterEvidence: the cells that satisfy an equality filter, once each. */
  method AppendFilterEvidence(existing: seq<Evidence>, cells: seq<Cell>, filters: seq<Filter>)
    returns (refs: seq<Evidence>, ghost added: seq<Evidence>)
    requires DistinctRefIds(existing)
    ensures refs == existing + added && DistinctRefIds(refs)
    ensures FilterEvidence(added, cells, filters)
    ensures forall c :: c in cells && CellIsFiltered(c, filters) ==> HasId(refs, c.evidence.id)
  {
    refs, added := existing, [];
    for i := 0 to |filters|
      invariant refs == existing + added && DistinctRefIds(refs)
      invariant FilterEvidence(added, cells, filters)
      invariant forall c :: c in cells && CellIsFiltered(c, filters[..i]) ==> HasId(refs, c.evidence.id)
    {
      var filter := filters[i];
      PrefixSnoc(filters, i);
      if IsEquality(filter) {
        ghost var more;
        refs, more := AppendMatches(refs, cells, filters, filter);
        added := added + more;
      }
    }
    WholePrefix(filters);
  }

  /** One filter of appendFilterEvidence. */
  method AppendMatches(before: seq<Evidence>, cells: seq<Cell>, ghost filters: seq<Filter>, filter: Filter)
    returns (refs: seq<Evidence>, ghost more: seq<Evidence>)
    requires DistinctRefIds(before) && filter in filters && IsEquality(filter)
    ensures refs == before + more && DistinctRefIds(refs) && FilterEvidence(more, cells, filters)
    ensures forall c :: c in cells && CellMatches(c, filter) ==> HasId(refs, c.evidence.id)
    ensures forall id :: HasId(before, id) ==> HasId(refs, id)
  {
    refs, more := before, [];
    for j := 0 to |cells|
      invariant refs == before + more && DistinctRefIds(refs) && FilterEvidence(more, cells, filters)
      invariant forall c :: c in cells[..j] && CellMatches(c, filter) ==> HasId(refs, c.evidence.id)
    {
      var cell := cells[j];
      PrefixSnoc(cells, j);
      if CellMatches(cell, filter) {
        var seen := exists k :: 0 <= k < |refs| && refs[k].id == cell.evidence.id;
        if !seen {
          assert CellIsFiltered(cell, filters);
          IdsKept(refs, [cell.evidence]);
          refs, more := refs + [cell.evidence], more + [cell.evidence];
          assert refs[|refs| - 1].id == cell.evidence.id;
        }
        assert HasId(refs, cell.evidence.id);
      }
    }
    WholePrefix(cells);
    IdsKept(before, more);
  }

  // ----- one more row -----

  function EvidenceOf(cells: seq<Cell>): seq<Evidence> {
    seq(|cells|, i requires 0 <= i < |cells| => cells[i].evidence)
  }

  lemma EvidenceElements(cells: seq<Cell>)
    ensures forall e :: e in EvidenceOf(cells) <==> exists c :: c in cells && e == c.evidence
    ensures DistinctIds(cells) ==> DistinctRefIds(EvidenceOf(cells))
  {
    forall c | c in cells ensures c.evidence in EvidenceOf(cells) {
      var i :| 0 <= i < |cells| && cells[i] == c;
      assert EvidenceOf(cells)[i] == c.evidence;
    }
  }

  ghost predicate IsLargest(scale: nat, start: nat, cells: seq<Cell>) {
    && start <= scale && (forall c :: c in cells ==> Scale(c.value) <= scale)
    && (scale == start || exists c :: c in cells && Scale(c.value) == scale)
  }

  /** The body of the number loop: add, count, widen the scale, and keep the evidence. */
  method AddNumber(p: Partial, cell: Cell) returns (q: Partial)
    requires p.value.Lowest() && IsDecimal(cell.value)
    ensures q.value.Lowest() && q.value.Val() == p.value.Val() + CellValue(cell)
    ensures q == p.(value := q.value, count := p.count + 1, scale := Max(p.scale, Scale(cell.value)),
                 evidence := p.evidence + [cell.evidence])
  {
    var value := FromDecimal(cell.value);
    q := p.(value := Add(p.value, value), count := p.count + 1,
    scale := Max(p.scale, DecimalScale(cell.value)), evidence := p.evidence + [cell.evidence]);
  }

  lemma LargestSnoc(scale: nat, start: nat, cells: seq<Cell>, cell: Cell)
    requires IsLargest(scale, start, cells)
    ensures IsLargest(Max(scale, Scale(cell.value)), start, cells + [cell])
  {
    if Scale(cell.value) <= scale && scale != start {
      var c :| c in cells && Scale(c.value) == scale;
      assert c in cells + [cell];
    }
    assert cell in cells + [cell];
  }

  lemma EvidenceSnoc(cells: seq<Cell>, cell: Cell)
    ensures EvidenceOf(cells + [cell]) == EvidenceOf(cells) + [cell.evidence]
  {
  }

  /** q is p with the numbers added. */
  ghost predicate Extends(p: Partial, q: Partial, numbers: seq<Cell>) {
    && p.value.den > 0 && q.value.Lowest() && q.value.Val() == p.value.Val() + SumOf(numbers)
    && IsLargest(q.scale, p.scale, numbers)
    && q == p.(value := q.value, count := p.count + |numbers|, scale := q.scale,
            evidence := p.evidence + EvidenceOf(numbers))
  }

  lemma ExtendsNothing(p: Partial)
    requires p.value.Lowest()
    ensures Extends(p, p, [])
  {
    assert p.evidence + EvidenceOf([]) == p.evidence;
  }

  lemma ExtendsSnoc(p: Partial, q: Partial, numbers: seq<Cell>, cell: Cell, r: Partial)
    requires Extends(p, q, numbers) && r.value.Lowest() && r.value.Val() == q.value.Val() + CellValue(cell)
    requires r == q.(value := r.value, count := q.count + 1, scale := Max(q.scale, Scale(cell.value)),
                  evidence := q.evidence + [cell.evidence])
    ensures Extends(p, r, numbers + [cell])
  {
    LargestSnoc(q.scale, p.scale, numbers, cell);
    EvidenceSnoc(numbers, cell);
    SumSnoc(numbers, cell);
    Concat(p.evidence, EvidenceOf(numbers), [cell.evidence]);
  }

  lemma SumSnoc(numbers: seq<Cell>, cell: Cell)
    ensures SumOf(numbers + [cell]) == SumOf(numbers) + CellValue(cell)
  {
    assert (numbers + [cell])[..|numbers|] == numbers;
  }

  /** The number loop over the metric cells of one row. */
  method AddNumbers(p: Partial, numbers: seq<Cell>) returns (q: Partial)
    requires p.value.Lowest() && forall c :: c in numbers ==> IsDecimal(c.value)
    ensures Extends(p, q, numbers)
  {
    q := p;
    ExtendsNothing(p);
    for i := 0 to |numbers|
      invariant Extends(p, q, numbers[..i])
    {
      var r := AddNumber(q, numbers[i]);
      ExtendsSnoc(p, q, numbers[..i], numbers[i], r);
      PrefixSnoc(numbers, i);
      q := r;
    }
    WholePrefix(numbers);
  }

  lemma InputsAdd(scope: Scope, keys: set<string>, key: string)
    requires keys <= scope.rows.Keys && key in scope.rows
    ensures forall c :: IsInput(scope, keys + {key}, c)
                        <==> IsInput(scope, keys, c) || c in RowInputs(scope.rows[key], scope.plan)
    ensures InputRefs(scope, keys + {key})
         == InputRefs(scope, keys) + set c | c in RowInputs(scope.rows[key], scope.plan) :: c.evidence
    ensures FilterRefs(scope, keys + {key})
         == FilterRefs(scope, keys) + set c | c in scope.rows[key] && CellIsFiltered(c, scope.filters) :: c.evidence
  {
    forall c
      ensures IsInput(scope, keys + {key}, c)
         <==> IsInput(scope, keys, c) || c in RowInputs(scope.rows[key], scope.plan)
    {
      if IsInput(scope, keys + {key}, c) {
        var k :| k in keys + {key} && c in RowInputs(scope.rows[k], scope.plan);
      }
      if c in RowInputs(scope.rows[key], scope.plan) {
        assert key in keys + {key};
      }
    }
  }

  /** The evidence kept so far comes from cells of the rows so far. */
  ghost predicate FromRows(scope: Scope, keys: set<string>, refs: seq<Evidence>)
    requires keys <= scope.rows.Keys
  {
    forall e :: e in refs ==> exists k, c :: k in keys && c in scope.rows[k] && e == c.evidence
  }

  lemma KeptFromRows(scope: Scope, keys: set<string>, p: Partial)
    requires Wellformed(scope.rows) && keys <= scope.rows.Keys && HoldsSums(scope, keys, p)
    ensures FromRows(scope, keys, p.evidence) && FromRows(scope, keys, p.filterEvidence)
  {
    forall e | e in p.evidence
      ensures exists k, c :: k in keys && c in scope.rows[k] && e == c.evidence
    {
      var k, c :| k in keys && c in RowInputs(scope.rows[k], scope.plan) && e == c.evidence;
      RowInputsOfRow(scope.rows[k], scope.plan);
      assert c in scope.rows[k];
    }
  }

  /** Evidence of other rows and evidence of this row have different ids. */
  lemma FreshRow(scope: Scope, keys: set<string>, key: string, refs: seq<Evidence>)
    requires Wellformed(scope.rows) && keys <= scope.rows.Keys && key in scope.rows && key !in keys
    requires FromRows(scope, keys, refs)
    ensures forall e, c :: e in refs && c in scope.rows[key] ==> e.id != c.evidence.id
  {
    forall e | e in refs ensures forall c :: c in scope.rows[key] ==> e.id != c.evidence.id {
      var k, d := CellOfRef(scope, keys, refs, e);
      assert Apart(scope.rows, k, key);
    }
  }

  /** The cell a reference was taken from. */
  lemma CellOfRef(scope: Scope, keys: set<string>, refs: seq<Evidence>, e: Evidence) returns (k: string, c: Cell)
    requires keys <= scope.rows.Keys && FromRows(scope, keys, refs) && e in refs
    ensures k in keys && c in scope.rows[k] && c.evidence == e
  {
    k, c :| k in keys && c in scope.rows[k] && e == c.evidence;
  }

  /** Distinct evidence of the rows has distinct ids. */
  lemma DistinctByIds(scope: Scope, keys: set<string>, refs: seq<Evidence>)
    requires Wellformed(scope.rows) && keys <= scope.rows.Keys
    requires FromRows(scope, keys, refs) && Distinct(refs)
    ensures DistinctRefIds(refs)
  {
    forall i, j | 0 <= i < j < |refs| ensures refs[i].id != refs[j].id {
      SameIdSameRef(scope, keys, refs, refs[i], refs[j]);
    }
  }

  lemma SameIdSameRef(scope: Scope, keys: set<string>, refs: seq<Evidence>, a: Evidence, b: Evidence)
    requires Wellformed(scope.rows) && keys <= scope.rows.Keys && FromRows(scope, keys, refs)
    requires a in refs && b in refs
    ensures a.id == b.id ==> a == b
  {
    var k, c := CellOfRef(scope, keys, refs, a);
    var l, d := CellOfRef(scope, keys, refs, b);
    if a.id == b.id {
      SameIdSameCell(scope.rows, k, l, c, d);
    }
  }

  lemma DistinctAppend(a: seq<Evidence>, b: seq<Evidence>)
    requires DistinctRefIds(a) && DistinctRefIds(b)
    requires forall e, f :: e in a && f in b ==> e.id != f.id
    ensures Distinct(a + b)
  {
    forall i, j | 0 <= i < j < |a + b| ensures (a + b)[i] != (a + b)[j] {
      if i < |a| <= j {
        assert a[i] in a && b[j - |a|] in b;
      }
    }
  }

  lemma EvidenceAdd(scope: Scope, keys: set<string>, key: string, p: Partial)
    requires Wellformed(scope.rows) && keys <= scope.rows.Keys && key in scope.rows && key !in keys
    requires HoldsSums(scope, keys, p)
    ensures Lists(p.evidence + EvidenceOf(RowInputs(scope.rows[key], scope.plan)), InputRefs(scope, keys + {key}))
  {
    var inputs := RowInputs(scope.rows[key], scope.plan);
    KeptFromRows(scope, keys, p);
    FreshRow(scope, keys, key, p.evidence);
    DistinctByIds(scope, keys, p.evidence);
    RowInputsOfRow(scope.rows[key], scope.plan);
    EvidenceElements(inputs);
    DistinctAppend(p.evidence, EvidenceOf(inputs));
    InputsAdd(scope, keys, key);
  }

  lemma FilterAdd(scope: Scope, keys: set<string>, key: string, p: Partial, added: seq<Evidence>)
    requires Wellformed(scope.rows) && keys <= scope.rows.Keys && key in scope.rows && key !in keys
    requires HoldsSums(scope, keys, p) && DistinctRefIds(p.filterEvidence + added) && FilterEvidence(added, scope.rows[key], scope.filters)
    requires forall c :: c in scope.rows[key] && CellIsFiltered(c, scope.filters)
                         ==> HasId(p.filterEvidence + added, c.evidence.id)
    ensures Lists(p.filterEvidence + added, FilterRefs(scope, keys + {key}))
  {
    KeptFromRows(scope, keys, p);
    FreshRow(scope, keys, key, p.filterEvidence);
    forall c | c in scope.rows[key] && CellIsFiltered(c, scope.filters) ensures c.evidence in added {
      FilteredIsListed(scope, key, p.filterEvidence, added, c);
    }
    InputsAdd(scope, keys, key);
  }

  lemma FilteredIsListed(scope: Scope, key: string, before: seq<Evidence>, added: seq<Evidence>, c: Cell)
    requires Wellformed(scope.rows) && key in scope.rows && FilterEvidence(added, scope.rows[key], scope.filters)
    requires forall e :: e in before ==> e.id != c.evidence.id
    requires c in scope.rows[key] && HasId(before + added, c.evidence.id)
    ensures c.evidence in added
  {
    var i :| 0 <= i < |before + added| && (before + added)[i].id == c.evidence.id;
    var ref := (before + added)[i];
    assert ref in added;
    var d :| d in scope.rows[key] && CellIsFiltered(d, scope.filters) && ref == d.evidence;
    SameIdSameCell(scope.rows, key, key, c, d);
  }

  lemma MaxScaleAdd(scope: Scope, keys: set<string>, key: string, old_: nat, scale: nat)
    requires keys <= scope.rows.Keys && key in scope.rows
    requires IsMaxScale(scope, keys, old_) && IsLargest(scale, old_, RowInputs(scope.rows[key], scope.plan))
    ensures IsMaxScale(scope, keys + {key}, scale)
  {
    InputsAdd(scope, keys, key);
  }

  /** A partial bucket after the input cells of one more row, before its filter evidence. */
  ghost predicate TakesInputs(scope: Scope, row: seq<Cell>, p: Partial, q: Partial) {
    var inputs := RowInputs(row, scope.plan);
    && q == p.(value := q.value, count := p.count + |inputs|, scale := q.scale, evidence := p.evidence + EvidenceOf(inputs))
    && q.value.Lowest()
    && (!scope.plan.CountsRows() ==>
          p.value.den > 0 && q.value.Val() == p.value.Val() + SumOf(inputs) && IsLargest(q.scale, p.scale, inputs))
  }

  lemma SumsAdd(scope: Scope, keys: set<string>, key: string, p: Partial, q: Partial, refs: seq<Evidence>)
    requires Wellformed(scope.rows) && keys <= scope.rows.Keys && key in scope.rows && key !in keys
    requires HoldsSums(scope, keys, p) && TakesInputs(scope, scope.rows[key], p, q)
    requires Lists(refs, FilterRefs(scope, keys + {key}))
    ensures HoldsSums(scope, keys + {key}, q.(filterEvidence := refs))
  {
    FoldsAdd(scope, keys, key);
    EvidenceAdd(scope, keys, key, p);
    if !scope.plan.CountsRows() {
      MaxScaleAdd(scope, keys, key, p.scale, q.scale);
    }
  }

  /** Take the inputs of a row: its numbers, or one witness when rows are counted. */
  method TakeInputs(ghost scope: Scope, row: seq<Cell>, numbers: seq<Cell>, countRows: bool, p: Partial) returns (q: Partial)
    requires row != [] && DistinctIds(row) && (forall c :: c in row ==> ValidCell(c)) && p.value.Lowest()
    requires numbers == MetricCells(row, scope.plan.metric) && countRows == scope.plan.CountsRows()
    ensures TakesInputs(scope, row, p, q)
  {
    RowInputsOfRow(row, scope.plan);
    if countRows {
      var ordered := Sort(row, CellById);
      q := p.(count := p.count + 1, evidence := p.evidence + [ordered[0].evidence]);
      assert EvidenceOf(RowInputs(row, scope.plan)) == [ordered[0].evidence];
    } else {
      NumbersAreDecimals(row, scope.plan.metric);
      q := AddNumbers(p, numbers);
    }
  }

  /** One more row of the bucket: the sums, witnesses and filter proofs extend by exactly its cells. */
  method AddRow(ghost scope: Scope, ghost keys: set<string>, key: string, row: seq<Cell>, numbers: seq<Cell>,
                countRows: bool, filters: seq<Filter>, p: Partial) returns (q: Partial)
    requires Wellformed(scope.rows) && keys <= scope.rows.Keys && key in scope.rows && key !in keys
    requires row == scope.rows[key] && numbers == MetricCells(row, scope.plan.metric)
    requires countRows == scope.plan.CountsRows() && filters == scope.filters
    requires HoldsSums(scope, keys, p)
    ensures HoldsSums(scope, keys + {key}, q)
    ensures q.groupValues == p.groupValues && q.groupEvidence == p.groupEvidence
  {
    q := TakeInputs(scope, row, numbers, countRows, p);
    KeptFromRows(scope, keys, p);
    DistinctByIds(scope, keys, p.filterEvidence);
    var refs, added := AppendFilterEvidence(q.filterEvidence, row, filters);
    FilterAdd(scope, keys, key, p, added);
    SumsAdd(scope, keys, key, p, q, refs);
    q := q.(filterEvidence := refs);
  }

  lemma NumbersAreDecimals(row: seq<Cell>, metric: string)
    requires forall c :: c in row ==> ValidCell(c)
    ensures forall c :: c in MetricCells(row, metric) ==> IsDecimal(c.value)
  {
    PickElements(row, (c: Cell) => c.numeric && TermsEqual(c.column, metric));
  }

  /** Keep the smallest evidence id of every dimension. */
  method MergeGroupEvidence(bucket: seq<Evidence>, row: seq<Evidence>) returns (merged: seq<Evidence>)
    requires |bucket| == |row|
    ensures |merged| == |bucket| && forall d :: 0 <= d < |row| ==> merged[d] == Smaller(bucket[d], row[d])
  {
    merged := bucket;
    for d := 0 to |row|
      invariant |merged| == |bucket|
      invariant forall e :: 0 <= e < d ==> merged[e] == Smaller(bucket[e], row[e])
      invariant forall e :: d <= e < |bucket| ==> merged[e] == bucket[e]
    {
      if row[d].id != "" && (merged[d].id == "" || Less(row[d].id, merged[d].id)) {
        merged := merged[d := row[d]];
      }
    }
  }

  lemma GroupsAdd(scope: Scope, keys: set<string>, key: string, bucket: seq<Evidence>, row: seq<Evidence>, merged: seq<Evidence>)
    requires Wellformed(scope.rows) && keys <= scope.rows.Keys && key in scope.rows && key !in keys
    requires HoldsGroups(scope, keys, bucket) && |row| == |merged| == |scope.plan.groups|
    requires forall d :: 0 <= d < |row| ==> RowOffers(scope.rows[key], scope.plan.groups[d], row[d])
    requires forall d :: 0 <= d < |row| ==> merged[d] == Smaller(bucket[d], row[d])
    ensures HoldsGroups(scope, keys + {key}, merged)
  {
    forall d | 0 <= d < |row| ensures IsLeastGroupRef(scope, keys + {key}, scope.plan.groups[d], merged[d]) {
      LeastGroupRefAdd(scope, keys, key, scope.plan.groups[d], bucket[d], row[d]);
    }
  }

  function Smaller(old_: Evidence, ref: Evidence): Evidence {
    if ref.id != "" && (old_.id == "" || Less(ref.id, old_.id)) then ref else old_
  }

  /** The cell behind the witness a row offers. */
  lemma OfferedCell(row: seq<Cell>, group: string, ref: Evidence) returns (c: Cell)
    requires RowOffers(row, group, ref)
    ensures c in row && c.evidence == ref && !c.numeric && TermsEqual(c.column, group)
  {
    PickElements(row, (c: Cell) => !c.numeric && TermsEqual(c.column, group));
    var cells := GroupCells(row, group);
    c := cells[|cells| - 1];
    assert c in cells;
  }

  lemma ValidIdIsNamed(c: Cell)
    requires ValidCell(c)
    ensures c.evidence.id != ""
  {
  }

  lemma GroupRefsAdd(scope: Scope, keys: set<string>, key: string, group: string, ref: Evidence)
    requires keys <= scope.rows.Keys && key in scope.rows && RowOffers(scope.rows[key], group, ref)
    ensures forall other :: IsGroupRef(scope, keys + {key}, group, other)
                            <==> other == ref || IsGroupRef(scope, keys, group, other)
  {
    assert key in keys + {key};
    forall other | IsGroupRef(scope, keys + {key}, group, other)
      ensures other == ref || IsGroupRef(scope, keys, group, other)
    {
      var l :| l in keys + {key} && RowOffers(scope.rows[l], group, other);
    }
    forall other | IsGroupRef(scope, keys, group, other)
      ensures IsGroupRef(scope, keys + {key}, group, other)
    {
      var l :| l in keys && RowOffers(scope.rows[l], group, other);
      assert l in keys + {key};
    }
  }

  lemma OffersOfTwoRows(scope: Scope, keys: set<string>, key: string, group: string, a: Evidence, b: Evidence)
    requires Wellformed(scope.rows) && keys <= scope.rows.Keys && key in scope.rows && key !in keys
    requires IsGroupRef(scope, keys, group, a) && RowOffers(scope.rows[key], group, b)
    ensures a.id != "" && b.id != "" && a.id != b.id
  {
    var k :| k in keys && RowOffers(scope.rows[k], group, a);
    var c := OfferedCell(scope.rows[k], group, a);
    var d := OfferedCell(scope.rows[key], group, b);
    ValidIdIsNamed(c);
    ValidIdIsNamed(d);
    assert Apart(scope.rows, k, key);
  }

  lemma LeastGroupRefAdd(scope: Scope, keys: set<string>, key: string, group: string, old_: Evidence, ref: Evidence)
    requires Wellformed(scope.rows) && keys <= scope.rows.Keys && key in scope.rows && key !in keys
    requires IsLeastGroupRef(scope, keys, group, old_) && RowOffers(scope.rows[key], group, ref)
    ensures IsLeastGroupRef(scope, keys + {key}, group, Smaller(old_, ref))
  {
    OffersOfTwoRows(scope, keys, key, group, old_, ref);
    GroupRefsAdd(scope, keys, key, group, ref);
    LeastOfMore(scope, keys, keys + {key}, group, old_, ref);
  }

  lemma LeastOfMore(scope: Scope, keys: set<string>, more: set<string>, group: string, old_: Evidence, ref: Evidence)
    requires keys <= scope.rows.Keys && more <= scope.rows.Keys
    requires old_.id != "" && ref.id != "" && old_.id != ref.id
    requires IsLeastGroupRef(scope, keys, group, old_)
    requires forall other :: IsGroupRef(scope, more, group, other) <==> other == ref || IsGroupRef(scope, keys, group, other)
    ensures IsLeastGroupRef(scope, more, group, Smaller(old_, ref))
  {
    forall other | IsGroupRef(scope, more, group, other)
      ensures other == Smaller(old_, ref) || Less(Smaller(old_, ref).id, other.id)
    {
      SmallerIsLeast(old_, ref, other);
    }
  }

  lemma SmallerIsLeast(old_: Evidence, ref: Evidence, other: Evidence)
    requires old_.id != "" && ref.id != "" && old_.id != ref.id
    requires other == ref || other == old_ || Less(old_.id, other.id)
    ensures other == Smaller(old_, ref) || Less(Smaller(old_, ref).id, other.id)
  {
    LessIsTotal(old_.id, ref.id);
    if Less(ref.id, old_.id) && Less(old_.id, other.id) {
      LessIsTransitive(ref.id, old_.id, other.id);
    }
  }
}
