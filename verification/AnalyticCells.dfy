/** The inputs and outputs of the analytic reducer and the texts it compares. */
module AnalyticCells {
  import opened Seqs
  import opened GoText
  import opened Numerals
  import opened Decimals

  const MAXIMUM_CELLS := 256
  const MAXIMUM_BUCKETS := 128
  const MAXIMUM_GROUP_DIMENSIONS := 4

  datatype ErrorCode = InvalidRequest | Unsupported | Incomplete | Conflict | ToolResult

  /** Evidence and EvidenceRef carry the same fields; evidenceRef copies one to the other. */
  datatype Evidence = Evidence(id: string, sourceObject: string, sourceVersion: string, extraction: string,
                               textHash: string, anchorHash: string, contentHash: string)

  datatype Cell = Cell(evidence: Evidence, rowKey: string, column: string, value: string, numeric: bool)

  datatype Filter = Filter(name: string, value: string)

  datatype AggregateSpec = AggregateSpec(function_: string, metric: string, groupBy: seq<string>, order: string, limit: int)

  /** identified: workspace id and plan hash are well-formed; live: the context is not done;
      filtersValid: ValidateFilters accepts the filters. */
  datatype Request = Request(identified: bool, live: bool, filtersValid: bool,
                             spec: AggregateSpec, filters: seq<Filter>, cells: seq<Cell>)
  {
    predicate Guarded() {
      identified && live && filtersValid
    }
  }

  datatype Bucket = Bucket(key: string, value: string, count: int, evidence: seq<Evidence>,
                           groupValues: seq<string>, groupEvidence: seq<Evidence>, filterEvidence: seq<Evidence>)

  datatype Result = Result(function_: string, metric: string, groupBy: seq<string>, order: string, buckets: seq<Bucket>)

  datatype Outcome<T> = Ok(value: T) | Err(code: ErrorCode)

  predicate ValidOpaque(value: string) {
    && value != "" && |value| <= 256 && Trimmed(value)
    && '\r' !in value && '\n' !in value && '\0' !in value
  }

  /** hmacDigestPattern */
  predicate ValidKeyedDigest(value: string) {
    var prefix := "hmac-sha256:k";
    HasPrefix(value, prefix) &&
    var tail := value[|prefix|..];
    var colon := IndexOf(tail, ':');
    && 1 <= colon <= 9 && AllDigits(tail[..colon]) && tail[0] != '0'
    && colon < |tail| && |tail[colon + 1..]| == 64 && LowerHex(tail[colon + 1..])
  }

  predicate ValidDigest(value: string) {
    ValidKeyedDigest(value) || IsSha256(value)
  }

  predicate ValidEvidence(value: Evidence) {
    && ValidOpaque(value.id) && ValidOpaque(value.sourceObject) && ValidOpaque(value.sourceVersion)
    && ValidOpaque(value.extraction) && ValidDigest(value.contentHash)
    && ValidKeyedDigest(value.textHash) && ValidKeyedDigest(value.anchorHash)
  }

  predicate ValidCell(cell: Cell) {
    && ValidEvidence(cell.evidence) && ValidOpaque(cell.rowKey) && ValidOpaque(cell.column) && ValidOpaque(cell.value)
    && (cell.numeric ==> IsDecimal(cell.value))
  }

  /** aggregateTermIdentity: the SQL column is folded, a JSON pointer after '[' is not. */
  function TermIdentity(value: string): string {
    var trimmed := TrimSpace(value);
    var open := IndexOf(trimmed, '[');
    ToLower(trimmed[..open]) + trimmed[open..]
  }

  lemma TermIdentityIsIdempotent(value: string)
    ensures TermIdentity(TermIdentity(value)) == TermIdentity(value)
    ensures Trimmed(value) && value != "" ==> TermIdentity(value) != ""
  {
    var trimmed := TrimSpace(value);
    var open := IndexOf(trimmed, '[');
    var identity := TermIdentity(value);
    assert |identity| == |trimmed|;
    assert forall i :: 0 <= i < |trimmed| ==> identity[i] == if i < open then LowerChar(trimmed[i]) else trimmed[i];
    assert Trimmed(identity);
    IndexOfAt(identity, '[', open);
    assert ToLower(identity[..open]) == identity[..open];
  }

  predicate TermsEqual(left: string, right: string) {
    TermIdentity(left) == TermIdentity(right)
  }

  /** temporalColumn; the Cyrillic words are written as their UTF-8 bytes. */
  predicate TemporalColumn(column: string) {
    var lower := ToLower(column);
    || Contains(lower, "date") || Contains(lower, "time") || Contains(lower, "timestamp")
    || Contains(lower, "\U{d0}\U{b4}\U{d0}\U{b0}\U{d1}\U{82}\U{d0}\U{b0}")
    || Contains(lower, "\U{d0}\U{b2}\U{d1}\U{80}\U{d0}\U{b5}\U{d0}\U{bc}\U{d1}\U{8f}")
    || HasSuffix(lower, "_at") || HasSuffix(lower, "_on")
  }

  predicate IsEquality(filter: Filter) {
    HasPrefix(filter.name, "equals:")
  }

  predicate CellMatches(cell: Cell, filter: Filter)
    requires IsEquality(filter)
  {
    TermsEqual(cell.column, filter.name[7..]) && EqualFold(cell.value, filter.value)
  }

  /** compositeGroupKey: each value behind its length. */
  function CompositeKey(values: seq<string>): string {
    if values == [] then ""
    else Print(|values[0]|) + ":" + values[0] + "|" + CompositeKey(values[1..])
  }

  function BucketKey(values: seq<string>): string {
    if values == [] then "__all__" else CompositeKey(values)
  }

  lemma NumeralPrefix(m: nat, n: nat, s: string, t: string)
    requires Print(m) + ":" + s == Print(n) + ":" + t
    ensures m == n && s == t
  {
    PrintIsCanonical(m);
    PrintIsCanonical(n);
    var a, b := Print(m) + ":" + s, Print(n) + ":" + t;
    IndexOfAt(a, ':', |Print(m)|);
    IndexOfAt(b, ':', |Print(n)|);
    assert Print(m) == a[..|Print(m)|] == b[..|Print(n)|] == Print(n);
    assert s == a[|Print(m)| + 1..] && t == b[|Print(n)| + 1..];
    PrintIsInjective(m, n);
  }

  /** Two lists of strings with one key are one list, whatever bytes the strings hold. */
  lemma {:induction false} CompositeKeyIsInjective(a: seq<string>, b: seq<string>)
    requires CompositeKey(a) == CompositeKey(b)
    ensures a == b
  {
    if a == [] || b == [] {
    } else {
      var s, t := a[0] + "|" + CompositeKey(a[1..]), b[0] + "|" + CompositeKey(b[1..]);
      assert CompositeKey(a) == Print(|a[0]|) + ":" + s;
      assert CompositeKey(b) == Print(|b[0]|) + ":" + t;
      NumeralPrefix(|a[0]|, |b[0]|, s, t);
      assert a[0] == s[..|a[0]|] && b[0] == t[..|b[0]|];
      assert CompositeKey(a[1..]) == s[|a[0]| + 1..] && CompositeKey(b[1..]) == t[|b[0]| + 1..];
      CompositeKeyIsInjective(a[1..], b[1..]);
      assert a == [a[0]] + a[1..] && b == [b[0]] + b[1..];
    }
  }

  /** The bucket key names the group tuple, and no tuple is named __all__. */
  lemma BucketKeyIsInjective(a: seq<string>, b: seq<string>)
    ensures BucketKey(a) == BucketKey(b) <==> a == b
    ensures CompositeKey(a) != "__all__"
  {
    if a != [] {
      PrintIsCanonical(|a[0]|);
      assert IsDigit(CompositeKey(a)[0]);
    }
    if b != [] {
      PrintIsCanonical(|b[0]|);
      assert IsDigit(CompositeKey(b)[0]);
    }
    assert "__all__"[0] == '_';
    if BucketKey(a) == BucketKey(b) && a != [] && b != [] {
      CompositeKeyIsInjective(a, b);
    }
  }

  function Join(values: seq<string>, separator: string): string {
    if values == [] then ""
    else if |values| == 1 then values[0]
    else values[0] + separator + Join(values[1..], separator)
  }

  /** compositeGroupLabel */
  function GroupLabel(values: seq<string>): string {
    if values == [] then "__all__" else if |values| == 1 then values[0] else Join(values, " / ")
  }

  // ----- what these texts are -----

  ghost predicate IsHex64(s: string) {
    |s| == 64 && forall c :: c in s ==> IsHexDigit(c)
  }

  ghost predicate IsKeyVersion(s: string) {
    1 <= |s| <= 9 && AllDigits(s) && s[0] != '0'
  }

  /** A keyed digest is hmac-sha256, a key version of up to nine digits, and 64 hexadecimal digits. */
  lemma KeyedDigestParts(value: string) returns (version: string, hex: string)
    requires ValidKeyedDigest(value)
    ensures value == "hmac-sha256:k" + (version + ":" + hex) && IsKeyVersion(version) && IsHex64(hex)
  {
    var prefix := "hmac-sha256:k";
    var tail := value[|prefix|..];
    var colon := IndexOf(tail, ':');
    version, hex := tail[..colon], tail[colon + 1..];
    LowerHexExactly(hex);
    assert tail == version + ":" + hex && value == prefix + tail;
  }

  /** And every such text is one. */
  lemma KeyedDigestOf(version: string, hex: string)
    requires IsKeyVersion(version) && IsHex64(hex)
    ensures ValidKeyedDigest("hmac-sha256:k" + (version + ":" + hex))
  {
    var prefix, tail := "hmac-sha256:k", version + ":" + hex;
    TailOf(prefix, tail);
    IndexOfAt(tail, ':', |version|);
    LowerHexExactly(hex);
    assert tail[..|version|] == version && tail[|version| + 1..] == hex;
  }

  lemma TailOf(prefix: string, tail: string)
    ensures prefix <= prefix + tail && (prefix + tail)[|prefix|..] == tail
  {
  }

  /** A term is its column without surrounding white space and in lower case, and its JSON pointer as it stands. */
  lemma TermIdentityExactly(before: string, column: string, pointer: string, after: string)
    requires AllSpaces(before) && AllSpaces(after) && Trimmed(column + pointer) && column + pointer != ""
    requires '[' !in column && (pointer == "" || pointer[0] == '[')
    ensures TermIdentity(before + (column + pointer) + after) == ToLower(column) + pointer
  {
    var text := column + pointer;
    TrimSpaceOf(before, text, after);
    IndexOfAt(text, '[', |column|);
    assert text[..|column|] == column && text[|column|..] == pointer;
  }

  const CYRILLIC_DATE := "\U{d0}\U{b4}\U{d0}\U{b0}\U{d1}\U{82}\U{d0}\U{b0}"
  const CYRILLIC_TIME := "\U{d0}\U{b2}\U{d1}\U{80}\U{d0}\U{b5}\U{d0}\U{bc}\U{d1}\U{8f}"

  lemma StampIsTime(s: string)
    requires HasWord(s, "timestamp")
    ensures HasWord(s, "time")
  {
    var before, after :| s == before + "timestamp" + after;
    assert "timestamp" == "time" + "stamp";
    assert s == before + "time" + ("stamp" + after);
  }

  /** A column is temporal when it names a date or a time, or ends in _at or _on, in any case. */
  lemma TemporalExactly(column: string)
    ensures TemporalColumn(column) <==>
            var lower := ToLower(column);
            || HasWord(lower, "date") || HasWord(lower, "time") || HasWord(lower, CYRILLIC_DATE) || HasWord(lower, CYRILLIC_TIME)
            || HasEnd(lower, "_at") || HasEnd(lower, "_on")
  {
    var lower := ToLower(column);
    ContainsExactly(lower, "date");
    ContainsExactly(lower, "time");
    ContainsExactly(lower, "timestamp");
    ContainsExactly(lower, CYRILLIC_DATE);
    ContainsExactly(lower, CYRILLIC_TIME);
    HasSuffixExactly(lower, "_at");
    HasSuffixExactly(lower, "_on");
    if HasWord(lower, "timestamp") {
      StampIsTime(lower);
    }
  }

  /** An equality filter on a column admits the cells of that column, in any spelling, with its value, in any case. */
  lemma EqualityFilter(column: string, value: string, cell: Cell)
    ensures IsEquality(Filter("equals:" + column, value))
    ensures CellMatches(cell, Filter("equals:" + column, value)) <==>
            TermIdentity(cell.column) == TermIdentity(column) && ToLower(cell.value) == ToLower(value)
  {
    assert ("equals:" + column)[7..] == column;
  }

  lemma IsEqualityExactly(filter: Filter)
    ensures IsEquality(filter) <==> exists column :: filter.name == "equals:" + column
  {
    if IsEquality(filter) {
      assert filter.name == "equals:" + filter.name[7..];
    }
  }

  /** The key of a list is the keys of its parts, one behind the other. */
  lemma {:induction false} CompositeKeyOfSum(a: seq<string>, b: seq<string>)
    ensures CompositeKey(a + b) == CompositeKey(a) + CompositeKey(b)
  {
    if a == [] {
      assert a + b == b;
    } else {
      CompositeKeyOfSum(a[1..], b);
      assert (a + b)[1..] == a[1..] + b && (a + b)[0] == a[0];
      Concat(Print(|a[0]|) + ":" + a[0] + "|", CompositeKey(a[1..]), CompositeKey(b));
    }
  }

  lemma CompositeKeyOfOne(value: string)
    ensures CompositeKey([value]) == Print(|value|) + ":" + value + "|"
  {
    assert [value][1..] == [];
    assert CompositeKey([]) == "";
  }

  /** Joined parts are parts joined. */
  lemma {:induction false} JoinOfSum(a: seq<string>, b: seq<string>, separator: string)
    requires a != [] && b != []
    ensures Join(a + b, separator) == Join(a, separator) + separator + Join(b, separator)
  {
    if |a| == 1 {
      assert (a + b)[1..] == b;
    } else {
      JoinOfSum(a[1..], b, separator);
      assert (a + b)[1..] == a[1..] + b;
    }
  }

  /** A label: __all__ for no group, else the values joined by a slash between spaces. */
  lemma GroupLabelExactly(values: seq<string>, more: seq<string>)
    ensures GroupLabel([]) == "__all__" && (|values| == 1 ==> GroupLabel(values) == values[0])
    ensures values != [] && more != [] ==> GroupLabel(values + more) == GroupLabel(values) + " / " + GroupLabel(more)
  {
    if values != [] && more != [] {
      JoinOfSum(values, more, " / ");
    }
  }

  /** Every name of a cell is opaque, its digests are keyed but for the content's, and a number is a decimal. */
  lemma ValidCellExactly(cell: Cell)
    ensures ValidCell(cell) <==>
            var e := cell.evidence;
            && (forall t :: t in [e.id, e.sourceObject, e.sourceVersion, e.extraction, cell.rowKey, cell.column, cell.value] ==> ValidOpaque(t))
            && (forall d :: d in [e.textHash, e.anchorHash] ==> ValidKeyedDigest(d))
            && (ValidKeyedDigest(e.contentHash) || IsSha256(e.contentHash)) && (cell.numeric ==> IsDecimal(cell.value))
  {
  }

  /** At most 256 bytes on one line, none of them white space at an end or a NUL. */
  lemma ValidOpaqueExactly(value: string)
    ensures ValidOpaque(value) <==>
            && 1 <= |value| <= 256 && !IsSpace(value[0]) && !IsSpace(value[|value| - 1])
            && forall c :: c in value ==> c as int != 0 && c as int != 10 && c as int != 13
  {
  }
}
