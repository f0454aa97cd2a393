/** Dataset profile catalogs: immutable snapshots and the transitions between them
    (internal/analytic/dataset_profile_catalog.go, dataset_profile_catalog_transition.go). */
module Catalog {
  import opened Permutations
  import opened Options
  import opened Seqs
  import opened GoText
  import opened Sorting

  const MAX_ENTRIES := 64
  const MAX_INT := 0x7fff_ffff_ffff_ffff
  const ACTIVE := "ACTIVE"
  const RETIRED := "RETIRED"

  datatype Key = Key(datasetId: string, version: int)

  datatype Profile = Profile(key: Key, hash: string, spec: string)

  datatype Entry = Entry(profile: Profile, state: string)

  datatype Catalog = Catalog(id: string, revision: int, entries: seq<Entry>, hash: string)

  /** The shape checks and the canonical hash of a snapshot. */
  datatype Checks = Checks(identity: string -> bool, hash: string -> bool, profile: Profile -> bool,
                           catalogHash: (string, int, seq<Entry>) -> string)

  /** profileKeyLess */
  predicate KeyLess(a: Key, b: Key) {
    Less(a.datasetId, b.datasetId) || (a.datasetId == b.datasetId && a.version < b.version)
  }

  predicate EntryLess(a: Entry, b: Entry) {
    KeyLess(a.profile.key, b.profile.key)
  }

  lemma KeyOrder()
    ensures forall a: Key :: !KeyLess(a, a)
    ensures forall a: Key, b: Key, c: Key :: KeyLess(a, b) && KeyLess(b, c) ==> KeyLess(a, c)
    ensures forall a: Key, b: Key :: a == b || KeyLess(a, b) || KeyLess(b, a)
    ensures StrictOrder(EntryLess)
  {
    LessIsStrictOrder();
  }

  predicate ValidEntry(e: Entry, checks: Checks) {
    checks.profile(e.profile) && (e.state == ACTIVE || e.state == RETIRED)
  }

  ghost predicate DistinctKeys(entries: seq<Entry>) {
    forall i, j :: 0 <= i < j < |entries| ==> entries[i].profile.key != entries[j].profile.key
  }

  // ----- normalization -----

  /** No entry stands before one with a smaller key. */
  ghost predicate WeaklySorted(s: seq<Entry>) {
    forall i, j :: 0 <= i < j < |s| ==> !EntryLess(s[j], s[i])
  }

  lemma {:induction false} InsertKeepsAll(x: Entry, s: seq<Entry>)
    ensures multiset(Insert(x, s, EntryLess)) == multiset(s) + multiset{x}
  {
    if s == [] || EntryLess(x, s[0]) {
    } else {
      InsertKeepsAll(x, s[1..]);
      assert s == [s[0]] + s[1..];
    }
  }

  lemma {:induction false} InsertWeakly(x: Entry, s: seq<Entry>)
    requires WeaklySorted(s)
    ensures WeaklySorted(Insert(x, s, EntryLess))
  {
    if s == [] {
    } else {
      if EntryLess(x, s[0]) {
        FirstIsLeast(x, s);
      } else {
        InsertWeakly(x, s[1..]);
        InsertElements(x, s[1..], EntryLess);
        TailNotBefore(s);
      }
    }
  }

  lemma FirstIsLeast(x: Entry, s: seq<Entry>)
    requires WeaklySorted(s) && s != [] && EntryLess(x, s[0])
    ensures WeaklySorted([x] + s)
  {
    KeyOrder();
    forall j | 0 <= j < |s| ensures !EntryLess(s[j], x) {
      assert j > 0 ==> !EntryLess(s[j], s[0]);
    }
  }

  lemma TailNotBefore(s: seq<Entry>)
    requires WeaklySorted(s) && s != []
    ensures forall y :: y in s[1..] ==> !EntryLess(y, s[0])
  {
    forall y | y in s[1..] ensures !EntryLess(y, s[0]) {
      var i :| 0 <= i < |s[1..]| && s[1..][i] == y;
      assert s[i + 1] == y;
    }
  }

  lemma {:induction false} SortWeakly(s: seq<Entry>)
    ensures WeaklySorted(Sort(s, EntryLess)) && multiset(Sort(s, EntryLess)) == multiset(s)
  {
    if s == [] {
    } else {
      SortWeakly(s[1..]);
      InsertWeakly(s[0], Sort(s[1..], EntryLess));
      InsertKeepsAll(s[0], Sort(s[1..], EntryLess));
      assert s == [s[0]] + s[1..];
    }
  }

  predicate NoAdjacentTwins(s: seq<Entry>) {
    forall i :: 0 < i < |s| ==> s[i - 1].profile.key != s[i].profile.key
  }

  /** In sorted entries equal keys stand side by side. */
  lemma AdjacentIsEnough(s: seq<Entry>)
    requires WeaklySorted(s)
    ensures NoAdjacentTwins(s) <==> SortedBy(s, EntryLess)
  {
    KeyOrder();
    if NoAdjacentTwins(s) {
      forall i, j | 0 <= i < j < |s| ensures EntryLess(s[i], s[j]) {
        AscendsTo(s, i, j);
      }
    }
  }

  lemma {:induction false} AscendsTo(s: seq<Entry>, i: int, j: int)
    requires WeaklySorted(s) && NoAdjacentTwins(s) && 0 <= i < j < |s|
    ensures EntryLess(s[i], s[j])
    decreases j
  {
    KeyOrder();
    assert EntryLess(s[j - 1], s[j]);
    if i == j - 1 {
    } else {
      AscendsTo(s, i, j - 1);
    }
  }

  /** Sorting reveals a duplicate key if and only if there is one. */
  lemma SortedIffDistinct(entries: seq<Entry>)
    ensures SortedBy(Sort(entries, EntryLess), EntryLess) <==> DistinctKeys(entries)
  {
    var sorted := Sort(entries, EntryLess);
    SortWeakly(entries);
    KeyOrder();
    if DistinctKeys(entries) {
      EntriesOrdered(entries);
      SortSorts(entries, EntryLess);
    } else {
      var i, j :| 0 <= i < j < |entries| && entries[i].profile.key == entries[j].profile.key;
      TwinsStay(entries, i, j);
    }
  }

  lemma EntriesOrdered(entries: seq<Entry>)
    requires DistinctKeys(entries)
    ensures TotalOn(entries, EntryLess) && Distinct(entries)
  {
    KeyOrder();
    forall a, b | a in entries && b in entries && a != b ensures EntryLess(a, b) || EntryLess(b, a) {
      var i :| 0 <= i < |entries| && entries[i] == a;
      var j :| 0 <= j < |entries| && entries[j] == b;
    }
  }

  /** Two entries with one key keep the sorted sequence from being strictly sorted. */
  lemma TwinsStay(entries: seq<Entry>, i: int, j: int)
    requires 0 <= i < j < |entries| && entries[i].profile.key == entries[j].profile.key
    ensures !SortedBy(Sort(entries, EntryLess), EntryLess)
  {
    var sorted := Sort(entries, EntryLess);
    SortWeakly(entries);
    KeyOrder();
    var x, y := TwoPlaces(entries, sorted, i, j);
    assert !EntryLess(sorted[x], sorted[y]) && !EntryLess(sorted[y], sorted[x]);
  }

  /** normalizeDatasetProfileCatalog: the entries in key order. */
  method Normalize(id: string, revision: int, entries: seq<Entry>, checks: Checks) returns (normalized: Option<seq<Entry>>)
    ensures normalized.Some? <==> checks.identity(id) && revision > 0 && 1 <= |entries| <= MAX_ENTRIES
                                  && (forall e :: e in entries ==> checks.profile(e.profile) && (e.state == "ACTIVE" || e.state == "RETIRED"))
                                  && DistinctKeys(entries)
    ensures normalized.Some? ==> multiset(normalized.value) == multiset(entries) && SortedBy(normalized.value, EntryLess)
    ensures normalized.Some? ==> normalized.value == Sort(entries, EntryLess)
  {
    if !checks.identity(id) || revision <= 0 || |entries| < 1 || |entries| > MAX_ENTRIES {
      return None;
    }
    for i := 0 to |entries|
      invariant forall e :: e in entries[..i] ==> ValidEntry(e, checks)
    {
      PrefixSnoc(entries, i);
      if !ValidEntry(entries[i], checks) {
        assert entries[i] in entries;
        return None;
      }
    }
    WholePrefix(entries);
    var values := Sort(entries, EntryLess);
    SortWeakly(entries);
    AdjacentIsEnough(values);
    SortedIffDistinct(entries);
    for index := 1 to |values|
      invariant forall i :: 0 < i < index ==> values[i - 1].profile.key != values[i].profile.key
    {
      if values[index - 1].profile.key == values[index].profile.key {
        assert !NoAdjacentTwins(values);
        return None;
      }
    }
    assert NoAdjacentTwins(values);
    return Some(values);
  }

  // ----- valid catalogs -----

  /** A snapshot as it was sealed: valid entries in strict key order under the hash of exactly them. */
  ghost predicate Valid(c: Catalog, checks: Checks) {
    && checks.hash(c.hash) && checks.identity(c.id) && c.revision > 0 && 1 <= |c.entries| <= MAX_ENTRIES
    && (forall e :: e in c.entries ==> ValidEntry(e, checks))
    && SortedBy(c.entries, EntryLess) && checks.catalogHash(c.id, c.revision, c.entries) == c.hash
  }

  lemma SortedHasDistinctKeys(entries: seq<Entry>)
    requires SortedBy(entries, EntryLess)
    ensures DistinctKeys(entries) && Sort(entries, EntryLess) == entries
  {
    KeyOrder();
    forall i, j | 0 <= i < j < |entries| ensures entries[i].profile.key != entries[j].profile.key {
      assert EntryLess(entries[i], entries[j]);
    }
    EntriesOrdered(entries);
    SortSorts(entries, EntryLess);
    SortedIsUnique(Sort(entries, EntryLess), entries, EntryLess);
  }

  predicate SameEntry(a: Entry, b: Entry) {
    a.state == b.state && a.profile.key == b.profile.key && a.profile.hash == b.profile.hash
  }

  /** catalogEntriesEqual */
  method EntriesEqual(left: seq<Entry>, right: seq<Entry>) returns (equal: bool)
    ensures equal <==> |left| == |right|
                       && forall i {:trigger left[i]} {:trigger right[i]} :: 0 <= i < |left| ==>
                                                                               left[i].state == right[i].state && left[i].profile.key == right[i].profile.key && left[i].profile.hash == right[i].profile.hash
  {
    if |left| != |right| {
      return false;
    }
    for i := 0 to |left|
      invariant forall j :: 0 <= j < i ==> SameEntry(left[j], right[j])
    {
      if !SameEntry(left[i], right[i]) {
        return false;
      }
    }
    return true;
  }

  /** Entries with the keys of their own sorted order are in that order. */
  lemma SameKeysSorted(entries: seq<Entry>, sorted: seq<Entry>)
    requires SortedBy(sorted, EntryLess) && |entries| == |sorted|
    requires forall i :: 0 <= i < |entries| ==> SameEntry(entries[i], sorted[i])
    ensures SortedBy(entries, EntryLess)
  {
    forall i, j | 0 <= i < j < |entries| ensures EntryLess(entries[i], entries[j]) {
      assert EntryLess(sorted[i], sorted[j]);
    }
  }

  /** DatasetProfileCatalog.Valid: normalize again and compare. */
  method CheckValid(c: Catalog, checks: Checks) returns (valid: bool)
    ensures valid <==> Valid(c, checks)
  {
    if !checks.hash(c.hash) {
      return false;
    }
    if SortedBy(c.entries, EntryLess) {
      SortedHasDistinctKeys(c.entries);
    }
    var normalized := Normalize(c.id, c.revision, c.entries, checks);
    if normalized.None? {
      return false;
    }
    var equal := EntriesEqual(c.entries, normalized.value);
    if equal {
      SameKeysSorted(c.entries, normalized.value);
      SortedHasDistinctKeys(c.entries);
    }
    return equal && checks.catalogHash(c.id, c.revision, normalized.value) == c.hash;
  }

  predicate ValidKey(key: Key, checks: Checks) {
    checks.identity(key.datasetId) && key.version > 0
  }

  ghost predicate Has(c: Catalog, e: Entry, key: Key) {
    e in c.entries && e.profile.key == key
  }

  /** sort.Search for the first entry whose key is not below the given one. */
  method Search(entries: seq<Entry>, key: Key) returns (index: int)
    requires SortedBy(entries, EntryLess)
    ensures 0 <= index <= |entries|
    ensures forall i :: 0 <= i < index ==> KeyLess(entries[i].profile.key, key)
    ensures forall i :: index <= i < |entries| ==> !KeyLess(entries[i].profile.key, key)
  {
    KeyOrder();
    var low, high := 0, |entries|;
    while low < high
      invariant 0 <= low <= high <= |entries|
      invariant forall i :: 0 <= i < low ==> KeyLess(entries[i].profile.key, key)
      invariant forall i :: high <= i < |entries| ==> !KeyLess(entries[i].profile.key, key)
      decreases high - low
    {
      var middle := (low + high) / 2;
      if KeyLess(entries[middle].profile.key, key) {
        forall i | 0 <= i < middle ensures KeyLess(entries[i].profile.key, key) {
          assert EntryLess(entries[i], entries[middle]);
        }
        low := middle + 1;
      } else {
        forall i | middle < i < |entries| ensures !KeyLess(entries[i].profile.key, key) {
          assert EntryLess(entries[middle], entries[i]);
        }
        high := middle;
      }
    }
    index := low;
  }

  /** Inspect: the one entry of a valid snapshot with this key. */
  method Inspect(c: Catalog, key: Key, checks: Checks) returns (entry: Option<Entry>)
    ensures entry.Some? <==> checks.identity(key.datasetId) && key.version > 0 && Valid(c, checks) && exists e :: Has(c, e, key)
    ensures entry.Some? ==> forall e :: Has(c, e, key) <==> e == entry.value
  {
    var valid := CheckValid(c, checks);
    if !ValidKey(key, checks) || !valid {
      return None;
    }
    var index := Search(c.entries, key);
    KeyOrder();
    if index == |c.entries| || c.entries[index].profile.key != key {
      forall e | e in c.entries ensures e.profile.key != key {
        var i :| 0 <= i < |c.entries| && c.entries[i] == e;
        if index < i {
          assert EntryLess(c.entries[index], c.entries[i]);
        }
      }
      return None;
    }
    KeysNameEntries(c, index);
    assert Has(c, c.entries[index], key);
    return Some(c.entries[index]);
  }

  lemma KeysNameEntries(c: Catalog, index: int)
    requires SortedBy(c.entries, EntryLess) && 0 <= index < |c.entries|
    ensures forall e :: e in c.entries && e.profile.key == c.entries[index].profile.key ==> e == c.entries[index]
  {
    SortedHasDistinctKeys(c.entries);
  }

  /** ResolveActive: the profile of an ACTIVE entry under its exact hash. */
  method ResolveActive(c: Catalog, key: Key, expectedHash: string, checks: Checks) returns (profile: Option<Profile>)
    ensures profile.Some? <==> checks.identity(key.datasetId) && key.version > 0 && checks.hash(expectedHash) && Valid(c, checks)
                               && exists e :: Has(c, e, key) && e.state == ACTIVE && e.profile.hash == expectedHash
    ensures profile.Some? ==> Entry(profile.value, ACTIVE) in c.entries && profile.value.key == key && profile.value.hash == expectedHash
  {
    if !ValidKey(key, checks) || !checks.hash(expectedHash) {
      return None;
    }
    var entry := Inspect(c, key, checks);
    if entry.None? || entry.value.state != ACTIVE || entry.value.profile.hash != expectedHash || !checks.profile(entry.value.profile) {
      return None;
    }
    assert Has(c, entry.value, key);
    return Some(entry.value.profile);
  }

  // ----- transitions -----

  ghost predicate KeepsEntry(e: Entry, next: Catalog) {
    exists f :: Has(next, f, e.profile.key) && f.profile.hash == e.profile.hash && (e.state == RETIRED ==> f.state == RETIRED)
  }

  ghost predicate IsNew(previous: Catalog, f: Entry) {
    forall e :: e in previous.entries ==> e.profile.key != f.profile.key
  }

  /** A new entry is ACTIVE and above every earlier version of its dataset. */
  ghost predicate MayAppear(previous: Catalog, f: Entry) {
    && f.state == ACTIVE
    && forall e :: e in previous.entries && e.profile.key.datasetId == f.profile.key.datasetId ==> e.profile.key.version < f.profile.key.version
  }

  ghost predicate Retires(e: Entry, next: Catalog) {
    e.state == ACTIVE && exists f :: Has(next, f, e.profile.key) && f.state == RETIRED
  }

  /** Something is retired or something is new. */
  ghost predicate Changes(previous: Catalog, next: Catalog) {
    || (exists e :: e in previous.entries && Retires(e, next))
    || (exists f :: f in next.entries && IsNew(previous, f))
  }

  ghost predicate Transition(previous: Catalog, next: Catalog, checks: Checks) {
    && Valid(previous, checks) && Valid(next, checks)
    && previous.id == next.id && previous.revision != MAX_INT && next.revision == previous.revision + 1
    && (forall e :: e in previous.entries ==> KeepsEntry(e, next))
    && (forall f :: f in next.entries && IsNew(previous, f) ==> MayAppear(previous, f))
    && Changes(previous, next)
  }

  ghost predicate IndexesKeys(byKey: map<Key, Entry>, entries: seq<Entry>) {
    && (forall e :: e in entries ==> e.profile.key in byKey && byKey[e.profile.key] == e)
    && forall key :: key in byKey ==> byKey[key] in entries && byKey[key].profile.key == key
  }

  method IndexByKey(entries: seq<Entry>) returns (byKey: map<Key, Entry>)
    requires DistinctKeys(entries)
    ensures IndexesKeys(byKey, entries)
  {
    byKey := map[];
    for i := 0 to |entries|
      invariant IndexesKeys(byKey, entries[..i])
    {
      PrefixSnoc(entries, i);
      forall e | e in entries[..i] ensures e.profile.key != entries[i].profile.key {
        var j :| 0 <= j < i && entries[j] == e;
      }
      byKey := byKey[entries[i].profile.key := entries[i]];
    }
    WholePrefix(entries);
  }

  ghost predicate IsMaximum(maxima: map<string, int>, entries: seq<Entry>) {
    && (forall e :: e in entries ==> e.profile.key.datasetId in maxima && e.profile.key.version <= maxima[e.profile.key.datasetId])
    && forall d :: d in maxima ==> exists e :: e in entries && e.profile.key.datasetId == d && e.profile.key.version == maxima[d]
  }

  method Maxima(entries: seq<Entry>) returns (maxima: map<string, int>)
    ensures IsMaximum(maxima, entries)
  {
    maxima := map[];
    for i := 0 to |entries|
      invariant IsMaximum(maxima, entries[..i])
    {
      PrefixSnoc(entries, i);
      var key := entries[i].profile.key;
      if key.datasetId !in maxima || key.version > maxima[key.datasetId] {
        maxima := maxima[key.datasetId := key.version];
      }
    }
    WholePrefix(entries);
  }

  /** The loop over the previous entries: nothing lost, nothing revived; changed: something retired. */
  method CheckKept(previous: Catalog, next: Catalog, nextByKey: map<Key, Entry>) returns (ok: bool, changed: bool)
    requires IndexesKeys(nextByKey, next.entries)
    requires forall e :: e in previous.entries || e in next.entries ==> e.state == ACTIVE || e.state == RETIRED
    ensures ok <==> forall e :: e in previous.entries ==> KeepsEntry(e, next)
    ensures ok ==> (changed <==> exists e :: e in previous.entries && Retires(e, next))
  {
    ok, changed := true, false;
    for i := 0 to |previous.entries|
      invariant forall e :: e in previous.entries[..i] ==> KeepsEntry(e, next)
      invariant changed <==> exists e :: e in previous.entries[..i] && Retires(e, next)
    {
      var entry := previous.entries[i];
      PrefixSnoc(previous.entries, i);
      assert entry in previous.entries;
      KeptByIndex(nextByKey, next, entry);
      if entry.profile.key !in nextByKey || nextByKey[entry.profile.key].profile.hash != entry.profile.hash {
        return false, changed;
      }
      var after := nextByKey[entry.profile.key];
      if entry.state == RETIRED && after.state == ACTIVE {
        return false, changed;
      }
      if entry.state == ACTIVE && after.state == RETIRED {
        changed := true;
      }
    }
    WholePrefix(previous.entries);
  }

  lemma KeptByIndex(byKey: map<Key, Entry>, c: Catalog, e: Entry)
    requires IndexesKeys(byKey, c.entries) && forall f :: f in c.entries ==> f.state == ACTIVE || f.state == RETIRED
    requires e.state == ACTIVE || e.state == RETIRED
    ensures var key := e.profile.key;
            && (KeepsEntry(e, c) <==> key in byKey && byKey[key].profile.hash == e.profile.hash && !(e.state == RETIRED && byKey[key].state == ACTIVE))
            && (Retires(e, c) <==> key in byKey && e.state == ACTIVE && byKey[key].state == RETIRED)
  {
    var key := e.profile.key;
    assert ACTIVE != RETIRED by {
      assert ACTIVE[0] == 'A' && RETIRED[0] == 'R';
    }
    if key in byKey {
      assert Has(c, byKey[key], key);
    }
    forall f | Has(c, f, key) ensures key in byKey && byKey[key] == f { }
  }

  /** The loop over the next entries: every new one may appear; changed: there is one. */
  method CheckNew(previous: Catalog, next: Catalog, previousByKey: map<Key, Entry>, maxima: map<string, int>) returns (ok: bool, changed: bool)
    requires IndexesKeys(previousByKey, previous.entries) && IsMaximum(maxima, previous.entries)
    ensures ok <==> forall f :: f in next.entries && IsNew(previous, f) ==> MayAppear(previous, f)
    ensures ok ==> (changed <==> exists f :: f in next.entries && IsNew(previous, f))
  {
    ok, changed := true, false;
    for i := 0 to |next.entries|
      invariant forall f :: f in next.entries[..i] && IsNew(previous, f) ==> MayAppear(previous, f)
      invariant changed <==> exists f :: f in next.entries[..i] && IsNew(previous, f)
    {
      var entry := next.entries[i];
      PrefixSnoc(next.entries, i);
      assert entry in next.entries;
      NewIsUnindexed(previousByKey, previous, entry);
      if entry.profile.key !in previousByKey {
        AppearsAboveMaximum(maxima, previous, entry);
        if entry.state != ACTIVE {
          return false, changed;
        }
        if entry.profile.key.datasetId in maxima && entry.profile.key.version <= maxima[entry.profile.key.datasetId] {
          return false, changed;
        }
        changed := true;
      }
    }
    WholePrefix(next.entries);
  }

  lemma NewIsUnindexed(byKey: map<Key, Entry>, c: Catalog, e: Entry)
    requires IndexesKeys(byKey, c.entries)
    ensures IsNew(c, e) <==> e.profile.key !in byKey
  {
  }

  lemma AppearsAboveMaximum(maxima: map<string, int>, c: Catalog, e: Entry)
    requires IsMaximum(maxima, c.entries)
    ensures MayAppear(c, e) <==> e.state == ACTIVE && (e.profile.key.datasetId in maxima ==> maxima[e.profile.key.datasetId] < e.profile.key.version)
  {
    var key := e.profile.key;
    if key.datasetId in maxima {
      var m :| m in c.entries && m.profile.key.datasetId == key.datasetId && m.profile.key.version == maxima[key.datasetId];
    }
  }

  ghost predicate Adjacent(previous: Catalog, next: Catalog, checks: Checks) {
    && Valid(previous, checks) && Valid(next, checks)
    && previous.id == next.id && previous.revision != MAX_INT && next.revision == previous.revision + 1
  }

  method CheckAdjacent(previous: Catalog, next: Catalog, checks: Checks) returns (ok: bool)
    ensures ok <==> Adjacent(previous, next, checks)
  {
    var previousValid := CheckValid(previous, checks);
    var nextValid := CheckValid(next, checks);
    ok := previousValid && nextValid && previous.id == next.id && previous.revision != MAX_INT && next.revision == previous.revision + 1;
  }

  method CheckEntries(previous: Catalog, next: Catalog) returns (ok: bool)
    requires DistinctKeys(previous.entries) && DistinctKeys(next.entries)
    requires forall e :: e in previous.entries || e in next.entries ==> e.state == ACTIVE || e.state == RETIRED
    ensures ok <==> (forall e :: e in previous.entries ==> KeepsEntry(e, next))
                    && (forall f :: f in next.entries && IsNew(previous, f) ==> MayAppear(previous, f))
                    && Changes(previous, next)
  {
    var previousByKey := IndexByKey(previous.entries);
    var nextByKey := IndexByKey(next.entries);
    var previousMaxByDataset := Maxima(previous.entries);
    var retired, added;
    ok, retired := CheckKept(previous, next, nextByKey);
    if !ok {
      return;
    }
    ok, added := CheckNew(previous, next, previousByKey, previousMaxByDataset);
    if !ok {
      return;
    }
    return retired || added;
  }

  /** ValidateDatasetProfileCatalogTransition */
  method ValidateTransition(previous: Catalog, next: Catalog, checks: Checks) returns (ok: bool)
    ensures ok <==> Transition(previous, next, checks)
  {
    ok := CheckAdjacent(previous, next, checks);
    if ok {
      SortedHasDistinctKeys(previous.entries);
      SortedHasDistinctKeys(next.entries);
      ok := CheckEntries(previous, next);
    }
  }

  /** In a sealed catalog the versions of one dataset ascend, and datasets stand in the order of their bytes. */
  lemma VersionsAscend(c: Catalog, checks: Checks, i: int, j: int)
    requires Valid(c, checks) && 0 <= i < j < |c.entries|
    ensures var a, b := c.entries[i].profile.key, c.entries[j].profile.key;
            Precedes(a.datasetId, b.datasetId) || (a.datasetId == b.datasetId && a.version < b.version)
  {
    assert EntryLess(c.entries[i], c.entries[j]);
    LessExactly(c.entries[i].profile.key.datasetId, c.entries[j].profile.key.datasetId);
  }
}
