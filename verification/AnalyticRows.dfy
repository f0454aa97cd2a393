/** The row loop of EvidenceAdapter.Aggregate: one row's labels, witnesses and numbers. */
module AnalyticRows {
  import opened AnalyticCells
  import opened AnalyticPlan
  import opened AnalyticSpec

  datatype RowFacts = RowFacts(values: seq<string>, evidence: seq<Evidence>, numbers: seq<Cell>)

  /** What the row loop knows about one group column after some of the row's cells. */
  datatype GroupSlot = GroupSlot(found: bool, value: string, evidence: Evidence)

  const NO_EVIDENCE := Evidence("", "", "", "", "", "", "")

  ghost predicate Tracks(slot: GroupSlot, row: seq<Cell>, group: string) {
    if GroupCells(row, group) == [] then slot == GroupSlot(false, "", NO_EVIDENCE)
    else slot == GroupSlot(true, LabelOf(row, group), GroupRef(row, group)) && Agree(row, group)
  }

  /** One cell against every group column. */
  method VisitCell(cell: Cell, groups: seq<string>, slots: seq<GroupSlot>) returns (conflict: bool, next: seq<GroupSlot>)
    requires !cell.numeric && |slots| == |groups|
    ensures conflict <==> exists d :: 0 <= d < |groups| && Clashes(cell, groups[d], slots[d])
    ensures !conflict ==> |next| == |groups|
    ensures !conflict ==> forall d :: 0 <= d < |groups| ==> next[d] == Visited(cell, groups[d], slots[d])
  {
    next := slots;
    for d := 0 to |groups|
      invariant |next| == |groups|
      invariant forall e :: 0 <= e < d ==> next[e] == Visited(cell, groups[e], slots[e]) && !Clashes(cell, groups[e], slots[e])
      invariant forall e :: d <= e < |groups| ==> next[e] == slots[e]
    {
      if TermsEqual(cell.column, groups[d]) {
        if next[d].found && next[d].value != cell.value {
          assert Clashes(cell, groups[d], slots[d]);
          return true, next;
        }
        next := next[d := GroupSlot(true, cell.value, cell.evidence)];
      }
    }
    conflict := false;
  }

  predicate Clashes(cell: Cell, group: string, slot: GroupSlot) {
    TermsEqual(cell.column, group) && slot.found && slot.value != cell.value
  }

  function Visited(cell: Cell, group: string, slot: GroupSlot): GroupSlot {
    if TermsEqual(cell.column, group) then GroupSlot(true, cell.value, cell.evidence) else slot
  }

  lemma TracksNext(slot: GroupSlot, row: seq<Cell>, i: nat, group: string)
    requires i < |row| && Tracks(slot, row[..i], group)
    ensures row[i].numeric ==> Tracks(slot, row[..i + 1], group)
    ensures !row[i].numeric && !Clashes(row[i], group, slot)
            ==> Tracks(Visited(row[i], group, slot), row[..i + 1], group)
  {
    PickSnoc(row, i, (c: Cell) => !c.numeric && TermsEqual(c.column, group));
  }

  /** A label already seen and another one: the row does not agree on the group. */
  lemma ClashDisagrees(slot: GroupSlot, row: seq<Cell>, i: nat, group: string)
    requires i < |row| && Tracks(slot, row[..i], group) && !row[i].numeric && Clashes(row[i], group, slot)
    ensures !Agree(row, group)
  {
    var test := (c: Cell) => !c.numeric && TermsEqual(c.column, group);
    PickElements(row, test);
    PickElements(row[..i], test);
    var earlier := GroupCells(row[..i], group);
    var last := earlier[|earlier| - 1];
    assert last in earlier && last in row[..i] && last in row;
    assert last in GroupCells(row, group) && row[i] in GroupCells(row, group);
  }

  ghost predicate TracksAll(slots: seq<GroupSlot>, row: seq<Cell>, groups: seq<string>) {
    |slots| == |groups| && forall d :: 0 <= d < |groups| ==> Tracks(slots[d], row, groups[d])
  }

  /** The cell loop: collect the metric cells and the last cell of every group column. */
  method ScanRow(row: seq<Cell>, plan: Plan) returns (conflict: bool, slots: seq<GroupSlot>, numbers: seq<Cell>)
    ensures conflict ==> exists g :: g in plan.groups && !Agree(row, g)
    ensures !conflict ==> TracksAll(slots, row, plan.groups) && numbers == MetricCells(row, plan.metric)
  {
    var groups := plan.groups;
    slots := seq(|groups|, _ => GroupSlot(false, "", NO_EVIDENCE));
    numbers := [];
    for i := 0 to |row|
      invariant TracksAll(slots, row[..i], groups)
      invariant numbers == MetricCells(row[..i], plan.metric)
    {
      var cell := row[i];
      PickSnoc(row, i, (c: Cell) => c.numeric && TermsEqual(c.column, plan.metric));
      forall d | 0 <= d < |groups| { TracksNext(slots[d], row, i, groups[d]); }
      if cell.numeric {
        if TermsEqual(cell.column, plan.metric) {
          numbers := numbers + [cell];
        }
      } else {
        var clash, next := VisitCell(cell, groups, slots);
        if clash {
          ghost var d :| 0 <= d < |groups| && Clashes(cell, groups[d], slots[d]);
          ClashDisagrees(slots[d], row, i, groups[d]);
          assert groups[d] in plan.groups;
          return true, slots, numbers;
        }
        slots := next;
      }
    }
    assert row[..|row|] == row;
    conflict := false;
  }

  /** The labels, group witnesses and metric cells of a row. */
  ghost predicate IsFacts(row: seq<Cell>, plan: Plan, facts: RowFacts) {
    && facts.values == RowTuple(row, plan.groups)
    && |facts.evidence| == |plan.groups|
    && (forall d :: 0 <= d < |plan.groups| ==> RowOffers(row, plan.groups[d], facts.evidence[d]))
    && facts.numbers == MetricCells(row, plan.metric)
  }

  /** The row carries two labels for one group column. */
  ghost predicate RowConflicts(row: seq<Cell>, plan: Plan) {
    exists g :: g in plan.groups && !Agree(row, g)
  }

  /** The body of the row loop of Aggregate, up to the bucket lookup. */
  method ReadRow(row: seq<Cell>, plan: Plan) returns (outcome: Outcome<RowFacts>)
    requires forall c :: c in row ==> ValidCell(c)
    ensures outcome.Ok? <==> RowComplete(row, plan)
    ensures outcome.Ok? ==> IsFacts(row, plan, outcome.value)
    ensures outcome.Err? ==> outcome.code == if RowConflicts(row, plan) then Conflict else Incomplete
  {
    var groups := plan.groups;
    var conflict, slots, numbers := ScanRow(row, plan);
    if conflict {
      ghost var g :| g in plan.groups && !Agree(row, g);
      assert !LabelledBy(row, g);
      return Err(Conflict);
    }
    if !plan.CountsRows() && numbers == [] {
      return Err(Incomplete);
    }
    var labelled := AllFound(row, groups, slots);
    if !labelled {
      return Err(Incomplete);
    }
    return Ok(RowFacts(seq(|groups|, d requires 0 <= d < |groups| => slots[d].value),
                       seq(|groups|, d requires 0 <= d < |groups| => slots[d].evidence), numbers));
  }

  /** The check that no group column is missing or empty. */
  method AllFound(ghost row: seq<Cell>, groups: seq<string>, slots: seq<GroupSlot>) returns (labelled: bool)
    requires (forall c :: c in row ==> ValidCell(c)) && TracksAll(slots, row, groups)
    ensures labelled <==> Labelled(row, groups)
    ensures labelled ==> forall d :: 0 <= d < |slots| ==> slots[d].found
  {
    for d := 0 to |groups|
      invariant forall e :: 0 <= e < d ==> slots[e].found
    {
      FoundHasLabel(slots[d], row, groups[d]);
      if !slots[d].found || slots[d].value == "" {
        assert groups[d] in groups && !LabelledBy(row, groups[d]);
        return false;
      }
    }
    forall g | g in groups ensures LabelledBy(row, g) {
      var d :| 0 <= d < |groups| && groups[d] == g;
      assert Tracks(slots[d], row, groups[d]);
    }
    return true;
  }

  lemma FoundHasLabel(slot: GroupSlot, row: seq<Cell>, group: string)
    requires (forall c :: c in row ==> ValidCell(c)) && Tracks(slot, row, group)
    ensures slot.found ==> slot.value != ""
  {
    PickElements(row, (c: Cell) => !c.numeric && TermsEqual(c.column, group));
    var cells := GroupCells(row, group);
    if slot.found {
      assert cells[|cells| - 1] in cells;
    }
  }
}
