/** Runs of accepted catalog transitions: what they keep, and how long they can be. */
module CatalogRuns {
  import opened Sets
  import opened Sorting
  import opened Catalog

  ghost predicate IsRun(run: seq<Catalog>, checks: Checks) {
    run != [] && forall i {:trigger StepAt(run, checks, i)} :: 0 <= i < |run| - 1 ==> StepAt(run, checks, i)
  }

  ghost predicate StepAt(run: seq<Catalog>, checks: Checks, i: int)
    requires 0 <= i < |run| - 1
  {
    Transition(run[i], run[i + 1], checks)
  }

  /** The entry survives in a later snapshot: same key, same profile hash, and retired for good. */
  ghost predicate Survives(e: Entry, later: Catalog, f: Entry) {
    Has(later, f, e.profile.key) && f.profile.hash == e.profile.hash && (e.state == RETIRED ==> f.state == RETIRED)
  }

  /** No key disappears along a run, no profile hash changes and RETIRED is never left. */
  lemma {:induction false} EntriesSurvive(run: seq<Catalog>, checks: Checks, i: int, j: int, e: Entry) returns (f: Entry)
    requires IsRun(run, checks) && 0 <= i <= j < |run| && e in run[i].entries
    ensures Survives(e, run[j], f)
    decreases j
  {
    if i == j {
      f := e;
    } else {
      var g := EntriesSurvive(run, checks, i, j - 1, e);
      assert StepAt(run, checks, j - 1);
      assert KeepsEntry(g, run[j]);
      f :| Has(run[j], f, g.profile.key) && f.profile.hash == g.profile.hash && (g.state == RETIRED ==> f.state == RETIRED);
    }
  }

  /** The revision counts the steps, and the catalog stays the same one. */
  lemma {:induction false} RevisionCountsSteps(run: seq<Catalog>, checks: Checks, i: int, j: int)
    requires IsRun(run, checks) && 0 <= i <= j < |run|
    ensures run[j].revision == run[i].revision + (j - i) && run[j].id == run[i].id
    decreases j
  {
    if i == j {
    } else {
      RevisionCountsSteps(run, checks, i, j - 1);
      StepAdvances(run, checks, j);
    }
  }

  lemma StepAdvances(run: seq<Catalog>, checks: Checks, j: int)
    requires IsRun(run, checks) && 0 < j < |run|
    ensures run[j].revision == run[j - 1].revision + 1 && run[j].id == run[j - 1].id
  {
    assert StepAt(run, checks, j - 1);
  }

  lemma StepAbove(run: seq<Catalog>, checks: Checks, i: int, e: Entry, f: Entry)
    requires IsRun(run, checks) && 0 <= i < |run| - 1 && e in run[i].entries && f in run[i + 1].entries
    requires IsNew(run[i], f) && e.profile.key.datasetId == f.profile.key.datasetId
    ensures e.profile.key.version < f.profile.key.version
  {
    assert StepAt(run, checks, i);
    assert MayAppear(run[i], f);
  }

  /** Whatever appears after a snapshot lies above every version of its dataset in that snapshot. */
  lemma {:induction false} NewLieAbove(run: seq<Catalog>, checks: Checks, i: int, j: int, e: Entry, f: Entry)
    requires IsRun(run, checks) && 0 <= i < j < |run| && f in run[j].entries && IsNew(run[i], f)
    requires e in run[i].entries && e.profile.key.datasetId == f.profile.key.datasetId
    ensures e.profile.key.version < f.profile.key.version
    decreases j
  {
    var kept := EntriesSurvive(run, checks, i, j - 1, e);
    if g :| g in run[j - 1].entries && g.profile.key == f.profile.key {
      if i < j - 1 {
        NewLieAbove(run, checks, i, j - 1, e, g);
      }
    } else {
      StepAbove(run, checks, j - 1, kept, f);
    }
  }

  // ----- the bound -----

  function KeysOf(c: Catalog): set<Key> {
    KeySet(c.entries)
  }

  function KeySet(entries: seq<Entry>): set<Key> {
    set e | e in entries :: e.profile.key
  }

  function ActiveKeys(c: Catalog): set<Key> {
    set e | e in c.entries && e.state == ACTIVE :: e.profile.key
  }

  /** Twice the free places plus the active entries. */
  function Room(c: Catalog): int {
    2 * (MAX_ENTRIES - |c.entries|) + |ActiveKeys(c)|
  }

  lemma {:induction false} KeysCount(entries: seq<Entry>)
    requires DistinctKeys(entries)
    ensures |KeySet(entries)| == |entries|
  {
    if entries == [] {
    } else {
      var n := |entries| - 1;
      KeysCount(entries[..n]);
      KeySetSnoc(entries, n);
    }
  }

  lemma KeySetSnoc(entries: seq<Entry>, n: nat)
    requires DistinctKeys(entries) && n == |entries| - 1
    ensures KeySet(entries) == KeySet(entries[..n]) + {entries[n].profile.key}
    ensures entries[n].profile.key !in KeySet(entries[..n])
  {
    var front := entries[..n];
    assert entries == front + [entries[n]];
    forall e | e in front ensures e.profile.key != entries[n].profile.key {
      var i :| 0 <= i < |front| && front[i] == e;
      assert entries[i] == e;
    }
  }

  /** The keys of a step: the old ones stay, retired ones stay retired, new ones are active. */
  lemma StepKeys(previous: Catalog, next: Catalog, checks: Checks)
    requires Transition(previous, next, checks)
    ensures KeysOf(previous) <= KeysOf(next)
    ensures ActiveKeys(next) * KeysOf(previous) <= ActiveKeys(previous)
  {
    forall key | key in KeysOf(previous) ensures key in KeysOf(next) {
      var e :| e in previous.entries && e.profile.key == key;
      assert KeepsEntry(e, next);
    }
    forall key | key in ActiveKeys(next) && key in KeysOf(previous) ensures key in ActiveKeys(previous) {
      var f :| f in next.entries && f.state == ACTIVE && f.profile.key == key;
      var e :| e in previous.entries && e.profile.key == key;
      SameEntryKept(previous, next, checks, e, f);
    }
  }

  lemma SameEntryKept(previous: Catalog, next: Catalog, checks: Checks, e: Entry, f: Entry)
    requires Transition(previous, next, checks) && e in previous.entries && Has(next, f, e.profile.key)
    ensures f.profile.hash == e.profile.hash && (e.state == RETIRED ==> f.state == RETIRED)
    ensures f.state == ACTIVE ==> e.state == ACTIVE
  {
    assert KeepsEntry(e, next);
    var g :| Has(next, g, e.profile.key) && g.profile.hash == e.profile.hash && (e.state == RETIRED ==> g.state == RETIRED);
    var i :| 0 <= i < |next.entries| && next.entries[i] == f;
    KeysNameEntries(next, i);
    assert ValidEntry(e, checks);
    assert ACTIVE[0] != RETIRED[0];
  }

  /** If nothing is new then something was retired. */
  lemma StepChanges(previous: Catalog, next: Catalog, checks: Checks)
    requires Transition(previous, next, checks)
    ensures KeysOf(next) != KeysOf(previous) || ActiveKeys(next) * KeysOf(previous) != ActiveKeys(previous)
  {
    if f :| f in next.entries && IsNew(previous, f) {
      assert f.profile.key in KeysOf(next) && f.profile.key !in KeysOf(previous);
    } else {
      var e :| e in previous.entries && Retires(e, next);
      var f :| Has(next, f, e.profile.key) && f.state == RETIRED;
      RetiredIsInactive(next, f);
      assert e.profile.key in ActiveKeys(previous) && e.profile.key !in ActiveKeys(next);
    }
  }

  lemma RetiredIsInactive(c: Catalog, f: Entry)
    requires SortedBy(c.entries, EntryLess) && f in c.entries && f.state == RETIRED
    ensures f.profile.key !in ActiveKeys(c)
  {
    var i :| 0 <= i < |c.entries| && c.entries[i] == f;
    KeysNameEntries(c, i);
    assert ACTIVE[0] != RETIRED[0];
  }

  lemma Sizes(active: set<Key>, next: set<Key>, previousActive: set<Key>, previous: set<Key>)
    requires previous <= next && active <= next && previousActive <= previous && active * previous <= previousActive
    requires next != previous || active * previous != previousActive
    ensures 2 * (MAX_ENTRIES - |next|) + |active| < 2 * (MAX_ENTRIES - |previous|) + |previousActive|
  {
    SplitSize(active, previous);
    SplitSize(next, previous);
    assert next * previous == previous;
    SubsetSize(active - previous, next - previous);
    SubsetSize(active * previous, previousActive);
    SubsetSize(previous, next);
  }

  /** Every accepted transition uses up room. */
  lemma RoomShrinks(previous: Catalog, next: Catalog, checks: Checks)
    requires Transition(previous, next, checks)
    ensures Room(next) < Room(previous)
  {
    StepKeys(previous, next, checks);
    StepChanges(previous, next, checks);
    SortedHasDistinctKeys(previous.entries);
    SortedHasDistinctKeys(next.entries);
    KeysCount(previous.entries);
    KeysCount(next.entries);
    Sizes(ActiveKeys(next), KeysOf(next), ActiveKeys(previous), KeysOf(previous));
  }

  lemma RoomBounds(c: Catalog, checks: Checks)
    requires Valid(c, checks)
    ensures 0 <= Room(c) <= 127
  {
    SortedHasDistinctKeys(c.entries);
    KeysCount(c.entries);
    SubsetSize(ActiveKeys(c), KeysOf(c));
  }

  lemma StepShrinks(run: seq<Catalog>, checks: Checks, j: int)
    requires IsRun(run, checks) && 0 < j < |run|
    ensures Room(run[j]) < Room(run[j - 1]) && Valid(run[j], checks) && Valid(run[j - 1], checks)
  {
    assert StepAt(run, checks, j - 1);
    RoomShrinks(run[j - 1], run[j], checks);
  }

  lemma {:induction false} RoomAlong(run: seq<Catalog>, checks: Checks, j: int)
    requires IsRun(run, checks) && 0 <= j < |run|
    ensures Room(run[j]) <= Room(run[0]) - j
  {
    if j == 0 {
    } else {
      RoomAlong(run, checks, j - 1);
      StepShrinks(run, checks, j);
    }
  }

  /** No run of accepted transitions is longer than 127 steps. */
  lemma RunsAreShort(run: seq<Catalog>, checks: Checks)
    requires IsRun(run, checks)
    ensures |run| - 1 <= 127
  {
    if |run| > 1 {
      StepShrinks(run, checks, 1);
      StepShrinks(run, checks, |run| - 1);
      RoomAlong(run, checks, |run| - 1);
      RoomBounds(run[0], checks);
      RoomBounds(run[|run| - 1], checks);
    }
  }
}
