/** The immutable version history of one source object (internal/ingestion/pipeline.go). */
module Versions {
  import opened Options
  import opened GoText
  import opened Seqs
  import opened Decimals
  import opened Octets
  import Utf8

  datatype Observation = Observation(key: string, hash: string)

  datatype VersionState = Pending | Current | Superseded

  /** A source_version row with its retention row; open: ACTIVE, queryable and extraction allowed. */
  datatype Version = Version(id: string, key: string, hash: string, state: VersionState, open: bool)

  datatype Fault = NoFault | VersionKey | IdentityConflict | VersionClosed | NotWritable

  // ----- keys -----

  /** The control characters U+0080 to U+009F in UTF-8: C2 80 to C2 9F. */
  predicate HighControlAt(s: string, i: nat)
    requires i < |s|
  {
    s[i] == 0xc2 as char && i + 1 < |s| && 0x80 as char <= s[i + 1] <= 0x9f as char
  }

  predicate IsControlAt(s: string, i: nat)
    requires i < |s|
  {
    s[i] < 0x20 as char || s[i] == 0x7f as char || HighControlAt(s, i)
  }

  /** The bytes of a code point as a Go string holds them. */
  function BytesOf(bytes: seq<byte>): string {
    seq(|bytes|, i requires 0 <= i < |bytes| => bytes[i] as int as char)
  }

  /** What is refused are the control characters of Unicode: U+0000 to U+001F and U+007F to U+009F. */
  lemma ControlsExactly(c: int)
    requires Utf8.IsScalar(c)
    ensures var s := BytesOf(Utf8.EncodeRune(c));
            (exists i :: 0 <= i < |s| && IsControlAt(s, i)) <==> c < 0x20 || 0x7f <= c <= 0x9f
  {
    var b, s := Utf8.EncodeRune(c), BytesOf(Utf8.EncodeRune(c));
    forall i | 0 <= i < |s| ensures s[i] as int == b[i] as int { }
    if c < 0x80 {
      assert IsControlAt(s, 0) <==> c < 0x20 || c == 0x7f;
    } else if c < 0x800 {
      assert !IsControlAt(s, 1);
      assert IsControlAt(s, 0) <==> c <= 0x9f;
    } else if c < 0x1_0000 {
      assert !IsControlAt(s, 0) && !IsControlAt(s, 1) && !IsControlAt(s, 2);
    } else {
      assert !IsControlAt(s, 0) && !IsControlAt(s, 1) && !IsControlAt(s, 2) && !IsControlAt(s, 3);
    }
  }

  /** validSourceVersionKey */
  method CheckVersionKey(value: string, contentHash: string) returns (valid: bool)
    ensures valid <==> ValidVersionKey(value, contentHash)
  {
    if value == "" || TrimSpace(value) != value || '\r' in value || '\n' in value || '\t' in value {
      return false;
    }
    if value == "hash:" + contentHash {
      return true;
    }
    if !HasPrefix(value, "native:") {
      return false;
    }
    var tail := value[7..];
    if |tail| < 1 || |tail| > 248 {
      return false;
    }
    for i := 0 to |tail|
      invariant forall j :: 0 <= j < i ==> !IsControlAt(tail, j)
    {
      if IsControlAt(tail, i) {
        return false;
      }
    }
    return true;
  }

  predicate CleanLine(value: string) {
    value != "" && TrimSpace(value) == value && '\r' !in value && '\n' !in value && '\t' !in value
  }

  /** The keys a connector may supply: its own native name, or the hash of the content. */
  predicate ValidVersionKey(value: string, contentHash: string) {
    && CleanLine(value)
    && (value == "hash:" + contentHash
        || (HasPrefix(value, "native:") && 1 <= |value| - 7 <= 248
            && forall i :: 0 <= i < |value| - 7 ==> !IsControlAt(value[7..], i)))
  }

  /** A collision-free digest in hexadecimal: injective and without colons. */
  ghost predicate CollisionFree(digest: string -> string) {
    && (forall a, b :: digest(a) == digest(b) ==> a == b)
    && (forall a :: ':' !in digest(a))
  }

  /** The prefix of the keys minted for returns to a connector key. */
  function ObservationPrefix(digest: string -> string, key: string): string {
    "observation:" + "sha256:" + digest(key) + ":"
  }

  /** The row is an observation of this connector key. */
  predicate Names(digest: string -> string, rowKey: string, key: string) {
    rowKey == key || HasPrefix(rowKey, ObservationPrefix(digest, key))
  }

  predicate IsMinted(key: string) {
    HasPrefix(key, "observation:")
  }

  /** A minted key is no connector key. */
  lemma MintedIsNoConnectorKey(digest: string -> string, key: string, id: string, other: string, hash: string)
    requires ValidVersionKey(other, hash)
    ensures ObservationPrefix(digest, key) + id != other
    ensures IsMinted(ObservationPrefix(digest, key) + id) && !IsMinted(other)
  {
    var minted := ObservationPrefix(digest, key) + id;
    assert minted[..12] == "observation:";
    assert minted[0] == 'o';
    if HasPrefix(other, "native:") {
      assert other[0] == 'n';
    } else {
      assert other[0] == 'h';
    }
  }

  lemma FirstColon(a: string, b: string, s: string, t: string)
    requires ':' !in a && ':' !in b && a + ":" + s == b + ":" + t
    ensures a == b && s == t
  {
    var u, v := a + ":" + s, b + ":" + t;
    IndexOfAt(u, ':', |a|);
    IndexOfAt(v, ':', |b|);
    assert a == u[..|a|] && b == v[..|a|];
    assert s == u[|a| + 1..] && t == v[|a| + 1..];
  }

  /** Minted keys determine the connector key and the version they follow. */
  lemma MintedIsInjective(digest: string -> string, k: string, i: string, l: string, j: string)
    requires CollisionFree(digest) && ObservationPrefix(digest, k) + i == ObservationPrefix(digest, l) + j
    ensures k == l && i == j
  {
    var head := "observation:" + "sha256:";
    var a, b := digest(k) + ":" + i, digest(l) + ":" + j;
    assert ObservationPrefix(digest, k) + i == head + a;
    assert ObservationPrefix(digest, l) + j == head + b;
    assert a == (head + a)[|head|..] && b == (head + b)[|head|..];
    FirstColon(digest(k), digest(l), i, j);
  }

  lemma MintedKeysDiffer(digest: string -> string, k: string, i: string, l: string, j: string)
    requires CollisionFree(digest) && i != j
    ensures ObservationPrefix(digest, k) + i != ObservationPrefix(digest, l) + j
  {
    if ObservationPrefix(digest, k) + i == ObservationPrefix(digest, l) + j {
      MintedIsInjective(digest, k, i, l, j);
      assert false;
    }
  }

  lemma PrefixIsMinted(digest: string -> string, key: string, rowKey: string)
    ensures HasPrefix(rowKey, ObservationPrefix(digest, key)) ==> IsMinted(rowKey)
  {
    assert HasPrefix(ObservationPrefix(digest, key), "observation:");
  }

  lemma MintedNamesOne(digest: string -> string, k: string, i: string, l: string)
    requires CollisionFree(digest) && HasPrefix(ObservationPrefix(digest, k) + i, ObservationPrefix(digest, l))
    ensures k == l
  {
    var full, p := ObservationPrefix(digest, k) + i, ObservationPrefix(digest, l);
    assert full == p + full[|p|..];
    MintedIsInjective(digest, k, i, l, full[|p|..]);
  }

  // ----- the history of a stream -----

  /** The stream with consecutive repeats removed. */
  function WithoutRepeats(stream: seq<Observation>): seq<Observation> {
    if stream == [] then []
    else
      var front, last := stream[..|stream| - 1], stream[|stream| - 1];
      if front != [] && front[|front| - 1].key == last.key then WithoutRepeats(front)
      else WithoutRepeats(front) + [last]
  }

  /** Nothing kept repeats its predecessor, and the last observation is kept. */
  lemma {:induction false} KeptEnds(stream: seq<Observation>)
    ensures var kept := WithoutRepeats(stream);
            && (stream == [] <==> kept == [])
            && (stream != [] ==> kept[|kept| - 1].key == stream[|stream| - 1].key)
            && (forall i :: 0 < i < |kept| ==> kept[i - 1].key != kept[i].key)
  {
    if stream == [] {
    } else {
      KeptEnds(stream[..|stream| - 1]);
    }
  }

  ghost predicate Observed(stream: seq<Observation>, key: string) {
    exists i :: 0 <= i < |stream| && stream[i].key == key
  }

  /** What is kept was observed, and every key observed is kept. */
  lemma {:induction false} KeptElements(stream: seq<Observation>)
    ensures forall o :: o in WithoutRepeats(stream) ==> o in stream
    ensures forall key :: Observed(stream, key) ==> Observed(WithoutRepeats(stream), key)
  {
    if stream == [] {
    } else {
      var front, last := stream[..|stream| - 1], stream[|stream| - 1];
      KeptElements(front);
      KeptEnds(front);
      SplitAt(stream, |stream| - 1);
      ObservedSnoc(front, last);
      ObservedSnoc(WithoutRepeats(front), last);
      assert stream == front + [last];
    }
  }

  lemma ObservedSnoc(front: seq<Observation>, last: Observation)
    ensures forall key :: Observed(front + [last], key) <==> Observed(front, key) || key == last.key
  {
    forall key ensures Observed(front + [last], key) <==> Observed(front, key) || key == last.key {
      if Observed(front, key) {
        var i :| 0 <= i < |front| && front[i].key == key;
        assert (front + [last])[i].key == key;
      }
      assert (front + [last])[|front|] == last;
    }
  }

  /** A version key always comes with one content hash. */
  ghost predicate Consistent(stream: seq<Observation>) {
    forall a, b :: a in stream && b in stream && a.key == b.key ==> a.hash == b.hash
  }

  ghost predicate FirstAt(kept: seq<Observation>, i: int) {
    0 <= i < |kept| && forall j :: 0 <= j < i ==> kept[j].key != kept[i].key
  }

  /** The key of the i-th version: the connector's for a first occurrence, else one that names the version before. */
  ghost predicate KeyIs(digest: string -> string, kept: seq<Observation>, rows: seq<Version>, i: int)
    requires 0 <= i < |kept| == |rows|
  {
    if FirstAt(kept, i) then rows[i].key == kept[i].key
    else i > 0 && rows[i].key == ObservationPrefix(digest, kept[i].key) + rows[i - 1].id
  }

  ghost predicate RowIs(digest: string -> string, kept: seq<Observation>, rows: seq<Version>, i: int)
    requires 0 <= i < |kept| == |rows|
  {
    && rows[i].hash == kept[i].hash && KeyIs(digest, kept, rows, i)
    && rows[i].state == (if i == |rows| - 1 then Current else Superseded)
  }

  ghost predicate DistinctVersions(rows: seq<Version>) {
    forall i, j :: 0 <= i < j < |rows| ==> rows[i].id != rows[j].id
  }

  /** The rows are the history of the observations kept: one version each, only the last one current. */
  ghost predicate IsHistory(digest: string -> string, kept: seq<Observation>, rows: seq<Version>) {
    && |rows| == |kept| && DistinctVersions(rows)
    && forall i {:trigger RowIs(digest, kept, rows, i)} :: 0 <= i < |kept| ==> RowIs(digest, kept, rows, i)
  }

  ghost predicate ValidKeys(kept: seq<Observation>) {
    forall o :: o in kept ==> ValidVersionKey(o.key, o.hash)
  }

  /** A row is found under exactly the connector key of its observation. */
  lemma RowNames(digest: string -> string, kept: seq<Observation>, rows: seq<Version>, i: int, key: string, hash: string)
    requires CollisionFree(digest) && IsHistory(digest, kept, rows) && ValidKeys(kept)
    requires 0 <= i < |rows| && ValidVersionKey(key, hash)
    ensures Names(digest, rows[i].key, key) <==> kept[i].key == key
    ensures rows[i].key == key <==> kept[i].key == key && FirstAt(kept, i)
  {
    assert RowIs(digest, kept, rows, i);
    assert kept[i] in kept;
    if FirstAt(kept, i) {
      MintedIsNoConnectorKey(digest, key, "", kept[i].key, kept[i].hash);
      PrefixIsMinted(digest, key, kept[i].key);
    } else {
      MintedIsNoConnectorKey(digest, kept[i].key, rows[i - 1].id, key, hash);
      if HasPrefix(rows[i].key, ObservationPrefix(digest, key)) {
        MintedNamesOne(digest, kept[i].key, rows[i - 1].id, key);
      }
    }
  }

  /** All keys of a history differ, minted or not. */
  lemma KeysDiffer(digest: string -> string, kept: seq<Observation>, rows: seq<Version>, i: int, j: int)
    requires CollisionFree(digest) && IsHistory(digest, kept, rows) && ValidKeys(kept)
    requires 0 <= i < j < |rows|
    ensures rows[i].key != rows[j].key
  {
    assert RowIs(digest, kept, rows, i) && RowIs(digest, kept, rows, j);
    assert kept[i] in kept && kept[j] in kept;
    RowNames(digest, kept, rows, i, kept[j].key, kept[j].hash);
    if !FirstAt(kept, j) {
      if FirstAt(kept, i) {
        MintedIsNoConnectorKey(digest, kept[j].key, rows[j - 1].id, kept[i].key, kept[i].hash);
      } else {
        MintedKeysDiffer(digest, kept[i].key, rows[i - 1].id, kept[j].key, rows[j - 1].id);
      }
    }
  }

  /** The key minted next is not in use, whatever key is observed again. */
  lemma MintedIsFresh(digest: string -> string, kept: seq<Observation>, rows: seq<Version>, key: string, i: int)
    requires CollisionFree(digest) && IsHistory(digest, kept, rows) && ValidKeys(kept)
    requires 0 <= i < |rows|
    ensures rows[i].key != ObservationPrefix(digest, key) + rows[|rows| - 1].id
  {
    assert RowIs(digest, kept, rows, i) && kept[i] in kept;
    if FirstAt(kept, i) {
      MintedIsNoConnectorKey(digest, key, rows[|rows| - 1].id, kept[i].key, kept[i].hash);
    } else {
      MintedKeysDiffer(digest, kept[i].key, rows[i - 1].id, key, rows[|rows| - 1].id);
    }
  }

  // ----- adding to a history -----

  lemma {:induction false} FirstIndex(kept: seq<Observation>, key: string) returns (i: int)
    requires Observed(kept, key)
    ensures FirstAt(kept, i) && kept[i].key == key
  {
    i :| 0 <= i < |kept| && kept[i].key == key;
    if j :| 0 <= j < i && kept[j].key == key {
      i := FirstIndex(kept[..i], key);
    }
  }

  lemma FirstAtSnoc(kept: seq<Observation>, o: Observation)
    ensures forall i :: 0 <= i < |kept| ==> (FirstAt(kept + [o], i) <==> FirstAt(kept, i))
    ensures FirstAt(kept + [o], |kept|) <==> !Observed(kept, o.key)
  {
    var more := kept + [o];
    assert more[|kept|] == o;
    forall i | 0 <= i < |kept| ensures FirstAt(more, i) <==> FirstAt(kept, i) {
      assert forall j :: 0 <= j <= i ==> more[j] == kept[j];
    }
    forall j | 0 <= j < |kept| ensures more[j] == kept[j] { }
  }

  /** The rows after a version is created and published: the prior current is superseded. */
  function Published(rows: seq<Version>, row: Version): seq<Version> {
    (if rows == [] then [] else rows[..|rows| - 1] + [rows[|rows| - 1].(state := Superseded)]) + [row.(state := Current)]
  }

  lemma HistorySnoc(digest: string -> string, kept: seq<Observation>, rows: seq<Version>, o: Observation, row: Version)
    requires IsHistory(digest, kept, rows) && forall i :: 0 <= i < |rows| ==> rows[i].id != row.id
    requires row.hash == o.hash
    requires if Observed(kept, o.key) then row.key == ObservationPrefix(digest, o.key) + rows[|rows| - 1].id else row.key == o.key
    ensures IsHistory(digest, kept + [o], Published(rows, row))
  {
    var more, next := kept + [o], Published(rows, row);
    FirstAtSnoc(kept, o);
    assert |next| == |rows| + 1 && next[|rows|] == row.(state := Current);
    assert forall i :: 0 <= i < |rows| ==> next[i] == rows[i].(state := Superseded) by {
      forall i | 0 <= i < |rows| ensures next[i] == rows[i].(state := Superseded) {
        assert RowIs(digest, kept, rows, i);
      }
    }
    forall i | 0 <= i < |more| ensures RowIs(digest, more, next, i) {
      if i < |rows| {
        assert RowIs(digest, kept, rows, i);
        assert more[i] == kept[i];
      } else {
        assert more[i] == o;
      }
    }
  }

  /** A version keeps its identity for good, and a superseded one stays superseded. */
  predicate SameVersion(before: Version, after: Version) {
    && after == before.(state := after.state)
    && (before.state == Superseded ==> after.state == Superseded)
  }

  lemma PublishedKeeps(rows: seq<Version>, row: Version)
    ensures (rows + [row])[..|rows|] == rows
    ensures |Published(rows, row)| == |rows| + 1 && Published(rows, row)[|rows|] == row.(state := Current)
    ensures forall i :: 0 <= i < |rows| ==> SameVersion(rows[i], Published(rows, row)[i])
  {
  }

  // ----- one source object -----

  predicate IsCurrent(kept: seq<Observation>, key: string) {
    kept != [] && kept[|kept| - 1].key == key
  }

  /** What the observation of a key and hash comes to after the given history. */
  function Verdict(kept: seq<Observation>, rows: seq<Version>, key: string, hash: string, first: int, writable: bool): Fault
    requires |kept| == |rows| && first < |rows|
  {
    if IsCurrent(kept, key) then
      if kept[|kept| - 1].hash == hash then NoFault else IdentityConflict
    else if first < 0 then NoFault
    else if kept[first].hash != hash then IdentityConflict
    else if !rows[first].open then VersionClosed
    else if !writable then NotWritable
    else NoFault
  }

  /** The index of the first observation of a key, or -1. */
  ghost predicate IsFirst(kept: seq<Observation>, key: string, first: int) {
    if first < 0 then !Observed(kept, key) else FirstAt(kept, first) && kept[first].key == key
  }

  /** The rows tell the stream. */
  ghost predicate Tells(digest: string -> string, stream: seq<Observation>, rows: seq<Version>) {
    ValidKeys(stream) && Consistent(stream) && IsHistory(digest, WithoutRepeats(stream), rows)
  }

  /** The observation a key's verdict compares hashes with. */
  function Compared(kept: seq<Observation>, key: string, first: int): Observation
    requires 0 <= first < |kept|
  {
    if IsCurrent(kept, key) then kept[|kept| - 1] else kept[first]
  }

  /** The observation, if any, that the verdict compares with is one of the stream. */
  lemma EarlierIsKept(stream: seq<Observation>, key: string, first: int)
    requires IsFirst(WithoutRepeats(stream), key, first) && Observed(stream, key) && first < |WithoutRepeats(stream)|
    ensures first >= 0 && Compared(WithoutRepeats(stream), key, first) in stream
    ensures Compared(WithoutRepeats(stream), key, first).key == key
  {
    KeptElements(stream);
    assert Compared(WithoutRepeats(stream), key, first) in WithoutRepeats(stream);
  }

  lemma NeverObserved(stream: seq<Observation>, key: string)
    requires !Observed(stream, key)
    ensures forall a :: a in stream ==> a.key != key
    ensures !Observed(WithoutRepeats(stream), key)
  {
    KeptElements(stream);
    var kept := WithoutRepeats(stream);
    forall i | 0 <= i < |kept| ensures kept[i].key != key {
      assert kept[i] in kept && kept[i] in stream;
      var j :| 0 <= j < |stream| && stream[j] == kept[i];
    }
  }

  lemma ConsistentSnoc(stream: seq<Observation>, o: Observation)
    requires Consistent(stream)
    ensures Consistent(stream + [o]) <==> forall a :: a in stream && a.key == o.key ==> a.hash == o.hash
  {
    assert o in stream + [o];
  }

  lemma ConsistentWith(stream: seq<Observation>, same: Observation, o: Observation)
    requires Consistent(stream) && same in stream && same.key == o.key
    ensures Consistent(stream + [o]) <==> same.hash == o.hash
  {
    ConsistentSnoc(stream, o);
  }

  lemma ConflictIsDifference(kept: seq<Observation>, rows: seq<Version>, key: string, hash: string, first: int, writable: bool)
    requires |kept| == |rows| && 0 <= first < |rows|
    ensures Verdict(kept, rows, key, hash, first, writable) == IdentityConflict <==> Compared(kept, key, first).hash != hash
  {
  }

  /** A key is refused for its hash exactly when the stream would give it two. */
  lemma ConflictIsInconsistency(digest: string -> string, stream: seq<Observation>, rows: seq<Version>, o: Observation, first: int, writable: bool)
    requires Tells(digest, stream, rows) && first < |rows| && IsFirst(WithoutRepeats(stream), o.key, first)
    ensures Verdict(WithoutRepeats(stream), rows, o.key, o.hash, first, writable) == IdentityConflict <==> !Consistent(stream + [o])
  {
    ConsistentSnoc(stream, o);
    if Observed(stream, o.key) {
      EarlierIsKept(stream, o.key, first);
      ConsistentWith(stream, Compared(WithoutRepeats(stream), o.key, first), o);
      ConflictIsDifference(WithoutRepeats(stream), rows, o.key, o.hash, first, writable);
    } else {
      NeverObserved(stream, o.key);
    }
  }

  lemma KeptSnoc(stream: seq<Observation>, o: Observation)
    ensures WithoutRepeats(stream + [o]) == WithoutRepeats(stream) + if IsCurrent(WithoutRepeats(stream), o.key) then [] else [o]
  {
    var more := stream + [o];
    assert more[..|more| - 1] == stream && more[|more| - 1] == o;
    KeptEnds(stream);
  }

  lemma RepeatTells(digest: string -> string, stream: seq<Observation>, rows: seq<Version>, o: Observation)
    requires Tells(digest, stream, rows) && ValidVersionKey(o.key, o.hash) && Consistent(stream + [o])
    requires IsCurrent(WithoutRepeats(stream), o.key)
    ensures Tells(digest, stream + [o], rows)
  {
    KeptSnoc(stream, o);
    assert WithoutRepeats(stream + [o]) == WithoutRepeats(stream);
  }

  /** The key a new version gets: the connector's own, or for a return one naming the version it follows. */
  function NextKey(digest: string -> string, rows: seq<Version>, key: string, again: bool): string {
    if again && rows != [] then ObservationPrefix(digest, key) + rows[|rows| - 1].id else key
  }

  lemma CreatedTells(digest: string -> string, stream: seq<Observation>, rows: seq<Version>, o: Observation, row: Version, first: int)
    requires Tells(digest, stream, rows) && ValidVersionKey(o.key, o.hash) && Consistent(stream + [o])
    requires !IsCurrent(WithoutRepeats(stream), o.key) && IsFirst(WithoutRepeats(stream), o.key, first)
    requires row.hash == o.hash && forall i :: 0 <= i < |rows| ==> rows[i].id != row.id
    requires row.key == NextKey(digest, rows, o.key, first >= 0)
    ensures Tells(digest, stream + [o], Published(rows, row))
  {
    KeptSnoc(stream, o);
    if first >= 0 {
      assert Observed(WithoutRepeats(stream), o.key);
    }
    HistorySnoc(digest, WithoutRepeats(stream), rows, o, row);
  }

  /** The observation goes back to a key that was observed, but not last. */
  ghost predicate Returning(stream: seq<Observation>, key: string) {
    stream != [] && stream[|stream| - 1].key != key && Observed(stream, key)
  }

  /** Retention of the version under this external key is closed. */
  ghost predicate HasClosed(rows: seq<Version>, key: string) {
    exists i :: 0 <= i < |rows| && rows[i].key == key && !rows[i].open
  }

  /** What the next observation of a stream comes to. */
  ghost function FaultOf(stream: seq<Observation>, rows: seq<Version>, o: Observation, writable: bool): Fault {
    if !ValidVersionKey(o.key, o.hash) then VersionKey
    else if !Consistent(stream + [o]) then IdentityConflict
    else if !Returning(stream, o.key) then NoFault
    else if HasClosed(rows, o.key) then VersionClosed
    else if !writable then NotWritable
    else NoFault
  }

  /** The rows after it: unchanged by a refusal or a repeat, else one version more. */
  ghost function NextRows(digest: string -> string, stream: seq<Observation>, rows: seq<Version>, o: Observation, newId: string, writable: bool): seq<Version> {
    if FaultOf(stream, rows, o, writable) != NoFault || (stream != [] && stream[|stream| - 1].key == o.key) then rows
    else Published(rows, Version(newId, NextKey(digest, rows, o.key, Observed(stream, o.key)), o.hash, Pending, true))
  }

  /** The first observation of a key is observed, and only then is there a row under the key itself. */
  lemma FirstIsObserved(digest: string -> string, stream: seq<Observation>, rows: seq<Version>, o: Observation, first: int)
    requires CollisionFree(digest) && Tells(digest, stream, rows) && ValidVersionKey(o.key, o.hash)
    requires first < |rows| && IsFirst(WithoutRepeats(stream), o.key, first)
    ensures first >= 0 <==> Observed(stream, o.key)
    ensures HasClosed(rows, o.key) <==> first >= 0 && !rows[first].open
  {
    var kept := WithoutRepeats(stream);
    KeptElements(stream);
    if !Observed(stream, o.key) {
      NeverObserved(stream, o.key);
    }
    if first >= 0 {
      RowNames(digest, kept, rows, first, o.key, o.hash);
    }
    forall i | 0 <= i < |rows| ensures rows[i].key == o.key <==> i == first {
      RowNames(digest, kept, rows, i, o.key, o.hash);
    }
  }

  lemma VerdictIsFault(digest: string -> string, stream: seq<Observation>, rows: seq<Version>, o: Observation, first: int, writable: bool)
    requires CollisionFree(digest) && Tells(digest, stream, rows) && ValidVersionKey(o.key, o.hash)
    requires first < |rows| && IsFirst(WithoutRepeats(stream), o.key, first)
    ensures Verdict(WithoutRepeats(stream), rows, o.key, o.hash, first, writable) == FaultOf(stream, rows, o, writable)
  {
    ConflictIsInconsistency(digest, stream, rows, o, first, writable);
    FirstIsObserved(digest, stream, rows, o, first);
    KeptEnds(stream);
  }

  /** ensureVersion and publication make exactly the next rows. */
  lemma EnsuredIsNext(digest: string -> string, stream: seq<Observation>, rows: seq<Version>, o: Observation, newId: string, first: int, writable: bool)
    requires CollisionFree(digest) && Tells(digest, stream, rows) && ValidVersionKey(o.key, o.hash)
    requires first < |rows| && IsFirst(WithoutRepeats(stream), o.key, first)
    ensures var fault := Verdict(WithoutRepeats(stream), rows, o.key, o.hash, first, writable);
            && fault == FaultOf(stream, rows, o, writable) && (fault == NoFault ==> Consistent(stream + [o]))
            && NextRows(digest, stream, rows, o, newId, writable) ==
               if fault != NoFault || IsCurrent(WithoutRepeats(stream), o.key) then rows
               else Published(rows, Version(newId, NextKey(digest, rows, o.key, first >= 0), o.hash, Pending, true))
  {
    VerdictIsFault(digest, stream, rows, o, first, writable);
    FirstIsObserved(digest, stream, rows, o, first);
    KeptEnds(stream);
  }

  /** The rows after an accepted observation tell the longer stream, under ids already drawn and the new one. */
  lemma NextTells(digest: string -> string, stream: seq<Observation>, rows: seq<Version>, o: Observation, newId: string, writable: bool)
    requires CollisionFree(digest) && Tells(digest, stream, rows) && FaultOf(stream, rows, o, writable) == NoFault
    requires forall i :: 0 <= i < |rows| ==> rows[i].id != newId
    ensures Tells(digest, stream + [o], NextRows(digest, stream, rows, o, newId, writable))
  {
    KeptEnds(stream);
    KeptElements(stream);
    if IsCurrent(WithoutRepeats(stream), o.key) {
      RepeatTells(digest, stream, rows, o);
    } else {
      var first := -1;
      if Observed(WithoutRepeats(stream), o.key) {
        first := FirstIndex(WithoutRepeats(stream), o.key);
      }
      FirstIsObserved(digest, stream, rows, o, first);
      CreatedTells(digest, stream, rows, o, Version(newId, NextKey(digest, rows, o.key, first >= 0), o.hash, Pending, true), first);
    }
  }

  // ----- a whole stream -----

  /** The rows after a stream, each version under the id drawn for its observation. */
  ghost function RowsAfter(digest: string -> string, stream: seq<Observation>, ids: seq<string>): seq<Version>
    requires |ids| == |stream|
  {
    if stream == [] then []
    else
      var n := |stream| - 1;
      NextRows(digest, stream[..n], RowsAfter(digest, stream[..n], ids[..n]), stream[n], ids[n], true)
  }

  ghost predicate AllOpen(rows: seq<Version>) {
    forall i :: 0 <= i < |rows| ==> rows[i].open
  }

  ghost predicate DistinctIds(ids: seq<string>) {
    forall i, j :: 0 <= i < j < |ids| ==> ids[i] != ids[j]
  }

  ghost predicate IdsFrom(rows: seq<Version>, ids: seq<string>) {
    forall i :: 0 <= i < |rows| ==> rows[i].id in ids
  }

  lemma ConsistentPrefix(stream: seq<Observation>, n: nat)
    requires Consistent(stream) && ValidKeys(stream) && n <= |stream|
    ensures Consistent(stream[..n]) && ValidKeys(stream[..n])
  {
    forall o | o in stream[..n] ensures o in stream { }
  }

  lemma OpenIsAccepted(stream: seq<Observation>, rows: seq<Version>, o: Observation)
    requires Consistent(stream + [o]) && ValidVersionKey(o.key, o.hash) && AllOpen(rows)
    ensures FaultOf(stream, rows, o, true) == NoFault
  {
  }

  lemma NextKeeps(digest: string -> string, stream: seq<Observation>, rows: seq<Version>, o: Observation, newId: string, ids: seq<string>)
    requires AllOpen(rows) && IdsFrom(rows, ids)
    ensures AllOpen(NextRows(digest, stream, rows, o, newId, true)) && IdsFrom(NextRows(digest, stream, rows, o, newId, true), ids + [newId])
  {
  }

  /** The versions a whole stream of valid keys with consistent hashes leaves are the stream without repeats. */
  lemma {:induction false} WholeStreamIsHistory(digest: string -> string, stream: seq<Observation>, ids: seq<string>)
    requires CollisionFree(digest) && ValidKeys(stream) && Consistent(stream) && |ids| == |stream| && DistinctIds(ids)
    ensures Tells(digest, stream, RowsAfter(digest, stream, ids))
    ensures AllOpen(RowsAfter(digest, stream, ids)) && IdsFrom(RowsAfter(digest, stream, ids), ids)
  {
    if stream == [] {
      assert WithoutRepeats(stream) == [];
    } else {
      var n := |stream| - 1;
      ConsistentPrefix(stream, n);
      WholeStreamIsHistory(digest, stream[..n], ids[..n]);
      StreamGrows(digest, stream, ids, n);
    }
  }

  lemma StreamGrows(digest: string -> string, stream: seq<Observation>, ids: seq<string>, n: nat)
    requires CollisionFree(digest) && ValidKeys(stream) && Consistent(stream) && |ids| == |stream| == n + 1 && DistinctIds(ids)
    requires Tells(digest, stream[..n], RowsAfter(digest, stream[..n], ids[..n]))
    requires AllOpen(RowsAfter(digest, stream[..n], ids[..n])) && IdsFrom(RowsAfter(digest, stream[..n], ids[..n]), ids[..n])
    ensures Tells(digest, stream, RowsAfter(digest, stream, ids))
    ensures AllOpen(RowsAfter(digest, stream, ids)) && IdsFrom(RowsAfter(digest, stream, ids), ids)
  {
    PrefixSnoc(stream, n);
    PrefixSnoc(ids, n);
    WholePrefix(stream);
    WholePrefix(ids);
    StreamStep(digest, stream[..n], RowsAfter(digest, stream[..n], ids[..n]), stream[n], ids, n);
  }

  /** One accepted observation over open rows. */
  lemma StreamStep(digest: string -> string, stream: seq<Observation>, rows: seq<Version>, o: Observation, ids: seq<string>, n: nat)
    requires n < |ids| && DistinctIds(ids) && ValidKeys(stream + [o]) && Consistent(stream + [o])
    requires CollisionFree(digest) && Tells(digest, stream, rows) && AllOpen(rows) && IdsFrom(rows, ids[..n])
    ensures FaultOf(stream, rows, o, true) == NoFault
    ensures var next := NextRows(digest, stream, rows, o, ids[n], true);
            Tells(digest, stream + [o], next) && AllOpen(next) && IdsFrom(next, ids[..n] + [ids[n]])
  {
    assert o in stream + [o];
    OpenIsAccepted(stream, rows, o);
    IdIsFresh(rows, ids, n);
    NextTells(digest, stream, rows, o, ids[n], true);
    NextKeeps(digest, stream, rows, o, ids[n], ids[..n]);
  }

  /** No observation of such a stream is refused while retention is open and writable. */
  lemma WholeStreamIsAccepted(digest: string -> string, stream: seq<Observation>, ids: seq<string>, n: nat)
    requires CollisionFree(digest) && ValidKeys(stream) && Consistent(stream) && |ids| == |stream| && DistinctIds(ids) && n < |stream|
    ensures FaultOf(stream[..n], RowsAfter(digest, stream[..n], ids[..n]), stream[n], true) == NoFault
  {
    ConsistentPrefix(stream, n);
    ConsistentPrefix(stream, n + 1);
    PrefixSnoc(stream, n);
    WholeStreamIsHistory(digest, stream[..n], ids[..n]);
    StreamStep(digest, stream[..n], RowsAfter(digest, stream[..n], ids[..n]), stream[n], ids, n);
  }

  lemma IdIsFresh(rows: seq<Version>, ids: seq<string>, n: nat)
    requires DistinctIds(ids) && n < |ids| && IdsFrom(rows, ids[..n])
    ensures forall i :: 0 <= i < |rows| ==> rows[i].id != ids[n]
  {
  }

  /** The source_object row of one object and the source_version rows it owns, oldest first. */
  class SourceObject {
    const digest: string -> string
    var rows: seq<Version>
    var currentVersionId: Option<string>
    ghost var stream: seq<Observation>

    constructor (digest: string -> string)
      requires CollisionFree(digest)
      ensures Valid() && stream == [] && rows == []
    {
      this.digest, rows, currentVersionId, stream := digest, [], None, [];
    }

    ghost predicate Valid()
      reads this
    {
      && CollisionFree(digest) && Tells(digest, stream, rows)
      && currentVersionId == (if rows == [] then None else Some(rows[|rows| - 1].id))
    }

    lemma KeptIsValid()
      requires Valid()
      ensures ValidKeys(WithoutRepeats(stream)) && (rows == [] <==> stream == [])
    {
      KeptElements(stream);
      KeptEnds(stream);
    }

    /** The row with an external version key, or -1. */
    method FindKey(key: string) returns (found: int)
      ensures -1 <= found < |rows|
      ensures found >= 0 ==> rows[found].key == key
      ensures found < 0 ==> forall i :: 0 <= i < |rows| ==> rows[i].key != key
    {
      found := -1;
      for i := 0 to |rows|
        invariant forall j :: 0 <= j < i ==> rows[j].key != key
      {
        if rows[i].key == key {
          return i;
        }
      }
    }

    lemma FoundIsFirst(key: string, hash: string, found: int)
      requires Valid() && ValidVersionKey(key, hash) && -1 <= found < |rows|
      requires if found < 0 then forall i :: 0 <= i < |rows| ==> rows[i].key != key else rows[found].key == key
      ensures IsFirst(WithoutRepeats(stream), key, found)
    {
      var kept := WithoutRepeats(stream);
      KeptIsValid();
      if found < 0 {
        if Observed(kept, key) {
          var i := FirstIndex(kept, key);
          RowNames(digest, kept, rows, i, key, hash);
          assert false;
        }
      } else {
        RowNames(digest, kept, rows, found, key, hash);
      }
    }

    lemma LastNames(key: string, hash: string)
      requires Valid() && ValidVersionKey(key, hash) && rows != []
      ensures Names(digest, rows[|rows| - 1].key, key) <==> WithoutRepeats(stream)[|rows| - 1].key == key
      ensures rows[|rows| - 1].state == Current && rows[|rows| - 1].hash == WithoutRepeats(stream)[|rows| - 1].hash
    {
      KeptIsValid();
      RowNames(digest, WithoutRepeats(stream), rows, |rows| - 1, key, hash);
      assert RowIs(digest, WithoutRepeats(stream), rows, |rows| - 1);
    }

    lemma RowAt(i: int)
      requires Valid() && 0 <= i < |rows|
      ensures rows[i].hash == WithoutRepeats(stream)[i].hash
      ensures rows[i].state == if i == |rows| - 1 then Current else Superseded
    {
      assert RowIs(digest, WithoutRepeats(stream), rows, i);
    }

    /** The comparison with the current version. */
    method CheckCurrent(versionKey: string, contentHash: string) returns (isCurrent: bool, fault: Fault)
      requires Valid() && ValidVersionKey(versionKey, contentHash)
      ensures isCurrent <==> IsCurrent(WithoutRepeats(stream), versionKey)
      ensures isCurrent ==> rows != [] && fault == Verdict(WithoutRepeats(stream), rows, versionKey, contentHash, -1, true)
    {
      KeptIsValid();
      isCurrent, fault := false, NoFault;
      if currentVersionId.Some? {
        var current := rows[|rows| - 1];
        LastNames(versionKey, contentHash);
        if current.key == versionKey || HasPrefix(current.key, ObservationPrefix(digest, versionKey)) {
          isCurrent := true;
          if current.hash != contentHash || current.state != Current {
            fault := IdentityConflict;
          }
        }
      }
    }

    /** The checks on an earlier version with the connector's key. */
    method CheckPrior(found: int, versionKey: string, contentHash: string, writable: bool) returns (fault: Fault)
      requires Valid() && 0 <= found < |rows| && !IsCurrent(WithoutRepeats(stream), versionKey)
      requires WithoutRepeats(stream)[found].key == versionKey
      ensures fault == Verdict(WithoutRepeats(stream), rows, versionKey, contentHash, found, writable)
    {
      RowAt(found);
      var prior := rows[found];
      if prior.hash != contentHash {
        return IdentityConflict;
      }
      if !prior.open {
        return VersionClosed;
      }
      if !writable {
        return NotWritable;
      }
      if prior.state != Superseded {
        return VersionClosed;
      }
      return NoFault;
    }

    /** ensureVersion: the current version again, or a new PENDING one. newId is fresh;
        writable: app.assert_version_writable holds the retention fence. */
    method EnsureVersion(versionKey: string, contentHash: string, newId: string, writable: bool)
      returns (fault: Fault, versionId: string, created: bool, ghost first: int)
      requires Valid()
      modifies this`rows
      ensures fault == VersionKey <==> !ValidVersionKey(versionKey, contentHash)
      ensures fault != VersionKey ==> first < |old(rows)| == |WithoutRepeats(stream)| && IsFirst(WithoutRepeats(stream), versionKey, first)
      ensures fault != VersionKey ==> fault == Verdict(WithoutRepeats(stream), old(rows), versionKey, contentHash, first, writable)
      ensures created <==> fault == NoFault && !IsCurrent(WithoutRepeats(stream), versionKey)
      ensures !created ==> rows == old(rows) && (fault == NoFault ==> currentVersionId == Some(versionId))
      ensures created ==> versionId == newId && rows == old(rows) + [Version(newId, NextKey(digest, old(rows), versionKey, first >= 0), contentHash, Pending, true)]
    {
      created, versionId, first := false, "", -1;
      var valid := CheckVersionKey(versionKey, contentHash);
      if !valid {
        return VersionKey, versionId, created, first;
      }
      var isCurrent;
      isCurrent, fault := CheckCurrent(versionKey, contentHash);
      var found := FindKey(versionKey);
      FoundIsFirst(versionKey, contentHash, found);
      first := found;
      if isCurrent {
        if fault == NoFault {
          versionId := currentVersionId.value;
        }
        return;
      }
      if found >= 0 {
        fault := CheckPrior(found, versionKey, contentHash, writable);
        if fault != NoFault {
          return;
        }
      }
      fault, created, versionId := NoFault, true, newId;
      var key := versionKey;
      if found >= 0 && currentVersionId.Some? {
        key := ObservationPrefix(digest, versionKey) + currentVersionId.value;
      }
      rows := rows + [Version(newId, key, contentHash, Pending, true)];
    }

    /** Publication of a newly created version: the prior current is superseded, this one becomes current. */
    method Publish(versionId: string)
      requires rows != [] && rows[|rows| - 1].id == versionId
      requires currentVersionId == if |rows| == 1 then None else Some(rows[|rows| - 2].id)
      modifies this`rows, this`currentVersionId
      ensures rows == Published(old(rows)[..|old(rows)| - 1], old(rows)[|old(rows)| - 1])
      ensures currentVersionId == Some(versionId)
    {
      var last := |rows| - 1;
      if currentVersionId.Some? {
        rows := rows[last - 1 := rows[last - 1].(state := Superseded)];
      }
      rows := rows[last := rows[last].(state := Current)];
      currentVersionId := Some(versionId);
    }

    /** One ingestion of the object, as one transaction: ensureVersion, then publication of what was created.
        The history stays the stream without repeats, and an observation is refused exactly when its key is
        malformed, its key came with another hash before, or it returns to a closed or unwritable version. */
    method Observe(o: Observation, newId: string, writable: bool) returns (fault: Fault)
      requires Valid() && forall i :: 0 <= i < |rows| ==> rows[i].id != newId
      modifies this
      ensures Valid() && stream == if fault == NoFault then old(stream) + [o] else old(stream)
      ensures fault == FaultOf(old(stream), old(rows), o, writable)
      ensures rows == NextRows(digest, old(stream), old(rows), o, newId, writable)
      ensures |old(rows)| <= |rows| && forall i :: 0 <= i < |old(rows)| ==> SameVersion(old(rows)[i], rows[i])
    {
      ghost var before := rows;
      var versionId, created;
      ghost var first;
      fault, versionId, created, first := EnsureVersion(o.key, o.hash, newId, writable);
      if fault == VersionKey {
        return;
      }
      EnsuredIsNext(digest, stream, before, o, newId, first, writable);
      if fault != NoFault {
        return;
      }
      if created {
        Cutover(o, before, first, versionId);
      } else {
        RepeatTells(digest, stream, before, o);
      }
      stream := stream + [o];
    }

    /** Publish the version just created. */
    method Cutover(ghost o: Observation, ghost before: seq<Version>, ghost first: int, versionId: string)
      requires CollisionFree(digest) && Tells(digest, stream, before) && ValidVersionKey(o.key, o.hash) && Consistent(stream + [o])
      requires !IsCurrent(WithoutRepeats(stream), o.key) && IsFirst(WithoutRepeats(stream), o.key, first)
      requires currentVersionId == (if before == [] then None else Some(before[|before| - 1].id))
      requires forall i :: 0 <= i < |before| ==> before[i].id != versionId
      requires rows == before + [Version(versionId, NextKey(digest, before, o.key, first >= 0), o.hash, Pending, true)]
      modifies this`rows, this`currentVersionId
      ensures rows == Published(before, Version(versionId, NextKey(digest, before, o.key, first >= 0), o.hash, Pending, true))
      ensures |rows| == |before| + 1 && Tells(digest, stream + [o], rows) && currentVersionId == Some(rows[|rows| - 1].id)
      ensures forall i :: 0 <= i < |before| ==> SameVersion(before[i], rows[i])
    {
      ghost var row := rows[|before|];
      CreatedTells(digest, stream, before, o, row, first);
      PublishedKeeps(before, row);
      Publish(versionId);
    }

    /** A retention closure of one version, which the history does not depend on. */
    method CloseRetention(i: nat)
      requires Valid() && i < |rows|
      modifies this`rows
      ensures Valid() && rows == old(rows)[i := old(rows)[i].(open := false)]
    {
      ghost var before := rows;
      rows := rows[i := rows[i].(open := false)];
      ClosedIsHistory(digest, WithoutRepeats(stream), before, i);
    }
  }

  lemma ClosedIsHistory(digest: string -> string, kept: seq<Observation>, rows: seq<Version>, i: nat)
    requires IsHistory(digest, kept, rows) && i < |rows|
    ensures IsHistory(digest, kept, rows[i := rows[i].(open := false)])
  {
    var next := rows[i := rows[i].(open := false)];
    forall j | 0 <= j < |kept| ensures RowIs(digest, kept, next, j) {
      assert RowIs(digest, kept, rows, j);
    }
  }
}
