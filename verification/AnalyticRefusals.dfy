/** The two kinds of request the reducer answers and validateResult refuses, on one-cell inputs. */
module AnalyticRefusals {
  import opened Sorting
  import opened AnalyticCells
  import opened AnalyticPlan
  import opened AnalyticSpec
  import opened AnalyticFinish
  import opened AnalyticRegistry
  import opened AnalyticAgreement

  /** One text cell, aggregated without a named metric. */
  function Lone(c: Cell, function_: string, groupBy: seq<string>): Request {
    Request(true, true, true, AggregateSpec(function_, "", groupBy, "", 0), [], [c])
  }

  function LonePlan(c: Cell, groupBy: seq<string>): Plan {
    Plan("COUNT", "", if groupBy == [] then [] else [TermIdentity(c.column)])
  }

  function LoneScope(c: Cell, groupBy: seq<string>): Scope {
    Scope(map[c.rowKey := [c]], LonePlan(c, groupBy), [])
  }

  lemma LoneRows(c: Cell)
    ensures Filtered(RowsOf([c]), []) == map[c.rowKey := [c]]
  {
    RowOfSnoc([], c, c.rowKey);
    assert [] + [c] == [c];
    assert RowOf([], c.rowKey) == [];
    assert RowsOf([c]).Keys == {c.rowKey};
    assert RowPasses([c], []);
  }

  lemma LoneColumns(c: Cell)
    requires !c.numeric
    ensures Columns(map[c.rowKey := [c]], true) == {} && Columns(map[c.rowKey := [c]], false) == {TermIdentity(c.column)}
  {
    var rows := map[c.rowKey := [c]];
    assert c in rows[c.rowKey];
  }

  lemma LoneResolves(c: Cell, function_: string, groupBy: seq<string>)
    requires !c.numeric && (function_ == "COUNT" || function_ == "SUM") && (groupBy == [] || groupBy == [c.column])
    ensures ResolvesTo(AggregateSpec(function_, "", groupBy, "", 0), map[c.rowKey := [c]], LonePlan(c, groupBy))
  {
    LoneColumns(c);
    assert AllResolve(groupBy, {TermIdentity(c.column)});
  }

  lemma LoneLabel(c: Cell)
    requires ValidCell(c) && !c.numeric
    ensures GroupCells([c], TermIdentity(c.column)) == [c]
  {
    TermIdentityIsIdempotent(c.column);
    assert GroupCells([c], TermIdentity(c.column)) == GroupCells([], TermIdentity(c.column)) + [c];
  }

  lemma LoneIsWellformed(c: Cell, groupBy: seq<string>)
    requires ValidCell(c)
    ensures Wellformed(LoneScope(c, groupBy).rows)
  {
  }

  lemma LoneIsComplete(c: Cell, groupBy: seq<string>)
    requires ValidCell(c) && !c.numeric
    ensures Complete(LoneScope(c, groupBy))
  {
    LoneLabel(c);
    forall g | g in LonePlan(c, groupBy).groups ensures LabelledBy([c], g) { }
  }

  lemma LoneTuples(c: Cell, groupBy: seq<string>)
    ensures var scope := LoneScope(c, groupBy);
            Tuples(scope, scope.rows.Keys) == {TupleOf(scope, c.rowKey)}
            && BucketRows(scope, scope.rows.Keys, TupleOf(scope, c.rowKey)) == {c.rowKey}
  {
  }

  lemma LoneScopeOf(c: Cell, function_: string, groupBy: seq<string>)
    ensures ScopeOf(Lone(c, function_, groupBy), LonePlan(c, groupBy)) == LoneScope(c, groupBy)
  {
    LoneRows(c);
  }

  lemma LoneAdmitted(c: Cell, function_: string, groupBy: seq<string>)
    requires ValidCell(c) && (function_ == "COUNT" || function_ == "SUM") && (groupBy == [] || groupBy == [c.column])
    ensures Admitted(Lone(c, function_, groupBy))
  {
    assert PairwiseDifferent(groupBy);
  }

  /** Such a request reduces. */
  lemma LoneReduces(c: Cell, function_: string, groupBy: seq<string>)
    requires ValidCell(c) && !c.numeric
    requires (function_ == "COUNT" || function_ == "SUM") && (groupBy == [] || groupBy == [c.column])
    ensures Reduces(Lone(c, function_, groupBy), LonePlan(c, groupBy))
  {
    LoneScopeOf(c, function_, groupBy);
    LoneAdmitted(c, function_, groupBy);
    LoneResolves(c, function_, groupBy);
    LoneIsWellformed(c, groupBy);
    LoneIsComplete(c, groupBy);
    LoneTuples(c, groupBy);
    ReducesFrom(Lone(c, function_, groupBy), LonePlan(c, groupBy), LoneScope(c, groupBy), TupleOf(LoneScope(c, groupBy), c.rowKey));
  }

  lemma ReducesFrom(request: Request, plan: Plan, scope: Scope, tuple: seq<string>)
    requires Admitted(request) && scope == ScopeOf(request, plan) && scope.rows != map[]
    requires ResolvesTo(request.spec, scope.rows, plan) && Complete(scope)
    requires Tuples(scope, scope.rows.Keys) == {tuple}
    ensures Reduces(request, plan)
  {
  }

  lemma LoneClashes(c: Cell)
    requires ValidCell(c) && !c.numeric
    ensures Clashes(LoneScope(c, [c.column]), TupleOf(LoneScope(c, [c.column]), c.rowKey))
  {
    var scope := LoneScope(c, [c.column]);
    var row := scope.rows[c.rowKey];
    LoneLabel(c);
    LoneTuples(c, [c.column]);
    assert RowOffers(row, scope.plan.groups[0], c.evidence);
    assert Sort(row, CellById) == Insert(c, [], CellById) by {
      assert row[1..] == [];
    }
    assert RowInputs(row, scope.plan) == [c];
    assert c in RowInputs(scope.rows[c.rowKey], scope.plan);
    assert ClashesAt(scope, {c.rowKey}, 0, c.evidence);
  }

  /** The only tuple clashes, so every answer is refused. */
  lemma OnlyTupleClashes(scope: Scope, order: string, limit: int, result: Result, tuple: seq<string>)
    requires Wellformed(scope.rows) && Complete(scope) && scope.rows != map[] && IsAnswer(scope, order, limit, result)
    requires Tuples(scope, scope.rows.Keys) == {tuple} && Clashes(scope, tuple)
    ensures !BucketsFit(scope, result)
  {
    AnswerIsNotEmpty(scope, order, limit, result);
    var shown := ShownTuple(scope, order, limit, result, 0);
    assert result.buckets[0] in result.buckets && shown == tuple;
  }

  lemma LoneAnswerDoesNotFit(c: Cell, result: Result)
    requires ValidCell(c) && !c.numeric && IsAnswer(LoneScope(c, [c.column]), "", 0, result)
    ensures !BucketsFit(LoneScope(c, [c.column]), result)
  {
    LoneIsComplete(c, [c.column]);
    LoneTuples(c, [c.column]);
    LoneClashes(c);
    OnlyTupleClashes(LoneScope(c, [c.column]), "", 0, result, TupleOf(LoneScope(c, [c.column]), c.rowKey));
  }

  /** A grouped COUNT of one labelled cell reduces, and the check refuses its answer. */
  lemma GroupedCountIsRefused(c: Cell)
    requires ValidCell(c) && !c.numeric
    ensures Reduces(Lone(c, "COUNT", [c.column]), LonePlan(c, [c.column]))
    ensures forall result :: Answers(Lone(c, "COUNT", [c.column]), result) ==> !Accepted(result, Lone(c, "COUNT", [c.column]), MAX_BUCKETS)
  {
    LoneReduces(c, "COUNT", [c.column]);
    forall result | Answers(Lone(c, "COUNT", [c.column]), result)
      ensures !Accepted(result, Lone(c, "COUNT", [c.column]), MAX_BUCKETS)
    {
      GroupedAnswerIsRefused(c, result);
    }
  }

  lemma GroupedAnswerIsRefused(c: Cell, result: Result)
    requires ValidCell(c) && !c.numeric && Answers(Lone(c, "COUNT", [c.column]), result)
    ensures !Accepted(result, Lone(c, "COUNT", [c.column]), MAX_BUCKETS)
  {
    var request, plan := Lone(c, "COUNT", [c.column]), LonePlan(c, [c.column]);
    LoneReduces(c, "COUNT", [c.column]);
    AnswerUnder(request, plan, result);
    LoneScopeOf(c, "COUNT", [c.column]);
    LoneAnswerDoesNotFit(c, result);
    AnswerIsAccepted(request, plan, result);
  }

  lemma AnswerUnder(request: Request, plan: Plan, result: Result)
    requires Answers(request, result) && Reduces(request, plan)
    ensures IsAnswer(ScopeOf(request, plan), request.spec.order, request.spec.limit, result)
  {
    var other :| Reduces(request, other) && IsAnswer(ScopeOf(request, other), request.spec.order, request.spec.limit, result);
    ResolutionIsUnique(request.spec, ScopeOf(request, plan).rows, plan, other);
  }

  /** A SUM of one text cell reduces to a count, and the check refuses its answer. */
  lemma FallbackIsRefused(c: Cell)
    requires ValidCell(c) && !c.numeric
    ensures Reduces(Lone(c, "SUM", []), LonePlan(c, []))
    ensures forall result :: Answers(Lone(c, "SUM", []), result) ==> !Accepted(result, Lone(c, "SUM", []), MAX_BUCKETS)
  {
    LoneReduces(c, "SUM", []);
    forall result | Answers(Lone(c, "SUM", []), result) ensures !Accepted(result, Lone(c, "SUM", []), MAX_BUCKETS) {
      FallbackAnswerIsRefused(c, result);
    }
  }

  lemma FallbackAnswerIsRefused(c: Cell, result: Result)
    requires ValidCell(c) && !c.numeric && Answers(Lone(c, "SUM", []), result)
    ensures !Accepted(result, Lone(c, "SUM", []), MAX_BUCKETS)
  {
    LoneReduces(c, "SUM", []);
    AnswerUnder(Lone(c, "SUM", []), LonePlan(c, []), result);
    LoneColumns(c);
    AnswerIsAccepted(Lone(c, "SUM", []), LonePlan(c, []), result);
  }
}
