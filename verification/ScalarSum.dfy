/** reduceScalarSum (internal/analyticsource/scalar_sum.go): the exact sum of one measure over a snapshot. */
module ScalarSum {
  import opened Permutations
  import opened GoText
  import opened Options
  import opened Seqs
  import opened Sorting
  import opened Numerals
  import opened Decimals
  import opened ScalarDecimals

  /** A value entry of a row; text: its value when that is a string. */
  datatype Entry = Entry(ordinal: int, logicalType: string, valueTag: string, typeFingerprint: string, text: Option<string>)

  datatype Row = Row(values: seq<Entry>, canonical: string, hash: string)

  datatype Snapshot = Snapshot(coverageComplete: bool, rowCount: int, decodedBytes: int, snapshotHash: string, rows: seq<Row>)

  datatype ScalarRead = ScalarRead(measureOrdinal: int, identityOrdinals: seq<int>, snapshot: Snapshot)

  /** Canonical JSON and the hashes over it. */
  datatype Codec = Codec(canonicalJson: seq<Entry> -> string, hash: string -> string, setHash: seq<Row> -> string)

  datatype Sum = Sum(value: string, contributingRows: int, snapshotHash: string)

  // ----- the request -----

  ghost predicate ValidOrdinals(read: ScalarRead) {
    && read.measureOrdinal > 0 && read.identityOrdinals != [] && Distinct(read.identityOrdinals)
    && forall o :: o in read.identityOrdinals ==> o > 0 && o != read.measureOrdinal
  }

  method CheckOrdinals(read: ScalarRead) returns (ok: bool, selected: set<int>)
    ensures ok <==> ValidOrdinals(read)
    ensures ok ==> selected == Ordinals(read)
  {
    selected := {};
    if read.measureOrdinal <= 0 || |read.identityOrdinals| == 0 {
      return false, selected;
    }
    for i := 0 to |read.identityOrdinals|
      invariant selected == set o | o in read.identityOrdinals[..i]
      invariant forall j, k :: 0 <= j < k < i ==> read.identityOrdinals[j] != read.identityOrdinals[k]
      invariant forall o :: o in read.identityOrdinals[..i] ==> o > 0 && o != read.measureOrdinal
    {
      var ordinal := read.identityOrdinals[i];
      PrefixSnoc(read.identityOrdinals, i);
      if ordinal <= 0 || ordinal == read.measureOrdinal || ordinal in selected {
        OrdinalRefused(read, i);
        return false, selected;
      }
      selected := selected + {ordinal};
    }
    WholePrefix(read.identityOrdinals);
    return true, selected;
  }

  lemma OrdinalRefused(read: ScalarRead, i: nat)
    requires i < |read.identityOrdinals|
    requires var o := read.identityOrdinals[i]; o <= 0 || o == read.measureOrdinal || o in read.identityOrdinals[..i]
    ensures !ValidOrdinals(read)
  {
    var o := read.identityOrdinals[i];
    if o in read.identityOrdinals[..i] {
      var j :| 0 <= j < i && read.identityOrdinals[j] == o;
    }
    assert o in read.identityOrdinals;
  }

  function Ordinals(read: ScalarRead): set<int> {
    set o | o in read.identityOrdinals
  }

  // ----- the snapshot -----

  function ByteCount(rows: seq<Row>): nat {
    if rows == [] then 0 else ByteCount(rows[..|rows| - 1]) + |rows[|rows| - 1].canonical|
  }

  ghost predicate SnapshotOk(snapshot: Snapshot, codec: Codec) {
    && snapshot.coverageComplete && snapshot.rowCount == |snapshot.rows| > 0
    && (forall row :: row in snapshot.rows ==> row.canonical != "" && row.hash != "")
    && snapshot.decodedBytes == ByteCount(snapshot.rows) && IsSha256(snapshot.snapshotHash)
    && codec.setHash(snapshot.rows) == snapshot.snapshotHash
  }

  method CheckSnapshot(snapshot: Snapshot, codec: Codec) returns (ok: bool)
    ensures ok <==> SnapshotOk(snapshot, codec)
  {
    if !snapshot.coverageComplete || snapshot.rowCount <= 0 || |snapshot.rows| == 0 || snapshot.rowCount != |snapshot.rows| {
      return false;
    }
    var decodedBytes := 0;
    for i := 0 to |snapshot.rows|
      invariant forall row :: row in snapshot.rows[..i] ==> row.canonical != "" && row.hash != ""
      invariant decodedBytes == ByteCount(snapshot.rows[..i])
    {
      var row := snapshot.rows[i];
      PrefixSnoc(snapshot.rows, i);
      assert snapshot.rows[..i + 1][..i] == snapshot.rows[..i];
      if |row.canonical| == 0 || row.hash == "" {
        assert row in snapshot.rows;
        return false;
      }
      decodedBytes := decodedBytes + |row.canonical|;
    }
    WholePrefix(snapshot.rows);
    return decodedBytes == snapshot.decodedBytes && IsSha256(snapshot.snapshotHash)
           && codec.setHash(snapshot.rows) == snapshot.snapshotHash;
  }

  // ----- one row -----

  /** Unique positive ordinals. */
  ghost predicate ValidRow(values: seq<Entry>) {
    && (forall e :: e in values ==> e.ordinal > 0)
    && forall i, j :: 0 <= i < j < |values| ==> values[i].ordinal != values[j].ordinal
  }

  ghost predicate HasMeasure(values: seq<Entry>, ordinal: int, measure: Entry) {
    measure in values && measure.ordinal == ordinal
  }

  function Selected(values: seq<Entry>, ordinals: set<int>): seq<Entry> {
    if values == [] then []
    else Selected(values[..|values| - 1], ordinals) + if values[|values| - 1].ordinal in ordinals then [values[|values| - 1]] else []
  }

  predicate ByOrdinal(a: Entry, b: Entry) {
    a.ordinal < b.ordinal
  }

  /** The identity entries of a row by ordinal: the key of the subject it measures. */
  function Grain(values: seq<Entry>, ordinals: set<int>): seq<Entry> {
    Sort(Selected(values, ordinals), ByOrdinal)
  }

  /** The number a measure entry carries: an INT without a negative zero, or a NUMERIC. */
  function MeasureNumber(e: Entry): Option<(int, nat)> {
    if e.valueTag == "NULL" || e.text.None? then None
    else
      var text := e.text.value;
      if e.logicalType == "INT" && e.valueTag == "INT" && Canonical(Unsigned(text)) && text != "-0" then
        Some((Signed(Negative(text), Value(Unsigned(text))), 0))
      else if e.logicalType == "NUMERIC" && e.valueTag == "NUMERIC" && IsDecimal(text) then NumericCoefficient(text)
      else None
  }

  /** The number is the one its text denotes, at the text's own scale. */
  lemma MeasureIsExact(e: Entry)
    ensures MeasureNumber(e).Some? ==>
              var (c, s) := MeasureNumber(e).value;
              e.text.Some? && IsDecimal(e.text.value) && s == Scale(e.text.value)
              && Exact(e.text.value) == c as real / Pow10(s) as real
  {
    if MeasureNumber(e).Some? {
      var text := e.text.value;
      if e.logicalType == "INT" && e.valueTag == "INT" && Canonical(Unsigned(text)) {
        IntegerText(text);
      } else {
        NumericCoefficientIsExact(text);
      }
    }
  }

  lemma IntegerText(text: string)
    requires Canonical(Unsigned(text))
    ensures IsDecimal(text) && Scale(text) == 0 && Coefficient(text) == Signed(Negative(text), Value(Unsigned(text)))
  {
    IndexOfAt(Unsigned(text), '.', |Unsigned(text)|);
    assert Whole(text) == Unsigned(text) && Fraction(text) == "";
    assert Whole(text) + Fraction(text) == Unsigned(text);
  }

  ghost predicate RowOk(row: Row, read: ScalarRead, codec: Codec, measure: Entry) {
    && codec.canonicalJson(row.values) == row.canonical && codec.hash(row.canonical) == row.hash
    && ValidRow(row.values) && HasMeasure(row.values, read.measureOrdinal, measure)
    && |Selected(row.values, Ordinals(read))| == |Ordinals(read)|
    && (forall e :: e in Selected(row.values, Ordinals(read)) ==> e.valueTag != "NULL")
    && MeasureNumber(measure).Some?
  }

  lemma MeasureIsUnique(values: seq<Entry>, ordinal: int, a: Entry, b: Entry)
    requires ValidRow(values) && HasMeasure(values, ordinal, a) && HasMeasure(values, ordinal, b)
    ensures a == b
  {
    var i :| 0 <= i < |values| && values[i] == a;
    var j :| 0 <= j < |values| && values[j] == b;
  }

  lemma SelectedSnoc(values: seq<Entry>, i: nat, ordinals: set<int>)
    requires i < |values|
    ensures Selected(values[..i + 1], ordinals) == Selected(values[..i], ordinals) + if values[i].ordinal in ordinals then [values[i]] else []
  {
    assert values[..i + 1][..i] == values[..i];
  }

  /** The loop over the entries of a row. */
  method ScanEntries(values: seq<Entry>, measureOrdinal: int, ordinals: set<int>)
    returns (ok: bool, measureFound: bool, measure: Entry, identity: seq<Entry>)
    ensures ok <==> ValidRow(values)
    ensures ok ==> identity == Selected(values, ordinals)
    ensures ok && measureFound ==> HasMeasure(values, measureOrdinal, measure)
    ensures ok && !measureFound ==> forall e :: e in values ==> e.ordinal != measureOrdinal
  {
    var seen: set<int> := {};
    ok, measureFound, measure, identity := true, false, Entry(0, "", "", "", None), [];
    for i := 0 to |values|
      invariant ValidRow(values[..i]) && seen == set e | e in values[..i] :: e.ordinal
      invariant identity == Selected(values[..i], ordinals)
      invariant measureFound ==> HasMeasure(values[..i], measureOrdinal, measure)
      invariant !measureFound ==> forall e :: e in values[..i] ==> e.ordinal != measureOrdinal
    {
      var entry := values[i];
      PrefixSnoc(values, i);
      SelectedSnoc(values, i, ordinals);
      if entry.ordinal <= 0 || entry.ordinal in seen {
        RowRefused(values, i);
        return false, measureFound, measure, identity;
      }
      RowSnoc(values, i);
      seen := seen + {entry.ordinal};
      if entry.ordinal == measureOrdinal {
        measure, measureFound := entry, true;
      }
      if entry.ordinal in ordinals {
        identity := identity + [entry];
      }
    }
    WholePrefix(values);
  }

  lemma RowRefused(values: seq<Entry>, i: nat)
    requires i < |values|
    requires values[i].ordinal <= 0 || exists e :: e in values[..i] && e.ordinal == values[i].ordinal
    ensures !ValidRow(values)
  {
    if values[i].ordinal > 0 {
      var e :| e in values[..i] && e.ordinal == values[i].ordinal;
      var j :| 0 <= j < i && values[j] == e;
    } else {
      assert values[i] in values;
    }
  }

  lemma RowSnoc(values: seq<Entry>, i: nat)
    requires i < |values| && ValidRow(values[..i]) && values[i].ordinal > 0
    requires forall e :: e in values[..i] ==> e.ordinal != values[i].ordinal
    ensures ValidRow(values[..i + 1])
  {
    var more := values[..i + 1];
    forall j, k | 0 <= j < k < |more| ensures more[j].ordinal != more[k].ordinal {
      if k == i {
        assert values[..i][j] in values[..i];
      } else {
        assert more[j] == values[..i][j] && more[k] == values[..i][k];
      }
    }
  }

  method AnyNull(entries: seq<Entry>) returns (found: bool)
    ensures found <==> exists e :: e in entries && e.valueTag == "NULL"
  {
    for i := 0 to |entries|
      invariant forall e :: e in entries[..i] ==> e.valueTag != "NULL"
    {
      PrefixSnoc(entries, i);
      if entries[i].valueTag == "NULL" {
        return true;
      }
    }
    WholePrefix(entries);
    return false;
  }

  /** The entry with the measure's ordinal. */
  ghost function MeasureOf(row: Row, ordinal: int): Entry {
    if exists e :: HasMeasure(row.values, ordinal, e) then
      var e :| HasMeasure(row.values, ordinal, e); e
    else Entry(0, "", "", "", None)
  }

  ghost predicate RowFine(row: Row, read: ScalarRead, codec: Codec) {
    RowOk(row, read, codec, MeasureOf(row, read.measureOrdinal))
  }

  function GrainKey(row: Row, read: ScalarRead, codec: Codec): string {
    codec.canonicalJson(Grain(row.values, Ordinals(read)))
  }

  /** The checks on one row: its measure entry and its grain. */
  method CheckRow(row: Row, read: ScalarRead, ordinals: set<int>, codec: Codec) returns (ok: bool, measure: Entry, grain: string)
    requires ordinals == Ordinals(read)
    ensures ok <==> RowFine(row, read, codec)
    ensures ok ==> measure == MeasureOf(row, read.measureOrdinal) && grain == GrainKey(row, read, codec)
  {
    measure, grain := Entry(0, "", "", "", None), "";
    var canonical := codec.canonicalJson(row.values);
    if canonical != row.canonical || codec.hash(canonical) != row.hash {
      return false, measure, grain;
    }
    var found, identity;
    ok, found, measure, identity := ScanEntries(row.values, read.measureOrdinal, ordinals);
    if !ok {
      return;
    }
    if !found || |identity| != |ordinals| {
      return false, measure, grain;
    }
    MeasureIsUnique(row.values, read.measureOrdinal, measure, MeasureOf(row, read.measureOrdinal));
    var hasNull := AnyNull(identity);
    if hasNull || MeasureNumber(measure).None? {
      return false, measure, grain;
    }
    grain := codec.canonicalJson(Sort(identity, ByOrdinal));
  }

  // ----- all rows -----

  /** The column a measure belongs to: its type, tag, fingerprint and scale. */
  datatype Column = Column(logicalType: string, valueTag: string, typeFingerprint: string, scale: int)

  function ColumnOf(measure: Entry): Column {
    Column(measure.logicalType, measure.valueTag, measure.typeFingerprint,
           if MeasureNumber(measure).Some? then MeasureNumber(measure).value.1 else -1)
  }

  ghost predicate Uniform(rows: seq<Row>, ordinal: int) {
    forall i, j :: 0 <= i < |rows| && 0 <= j < |rows| ==> ColumnOf(MeasureOf(rows[i], ordinal)) == ColumnOf(MeasureOf(rows[j], ordinal))
  }

  ghost predicate DistinctGrains(rows: seq<Row>, read: ScalarRead, codec: Codec) {
    forall i, j :: 0 <= i < j < |rows| ==> GrainKey(rows[i], read, codec) != GrainKey(rows[j], read, codec)
  }

  ghost predicate RowsOk(rows: seq<Row>, read: ScalarRead, codec: Codec) {
    && (forall i :: 0 <= i < |rows| ==> RowFine(rows[i], read, codec))
    && Uniform(rows, read.measureOrdinal) && DistinctGrains(rows, read, codec)
  }

  /** The reads that reduce: nothing about them depends on the order of the rows but the snapshot hash. */
  ghost predicate Reducible(read: ScalarRead, codec: Codec) {
    ValidOrdinals(read) && SnapshotOk(read.snapshot, codec) && RowsOk(read.snapshot.rows, read, codec)
  }

  /** The number a row measures. */
  ghost function RowNumber(row: Row, ordinal: int): real {
    var number := MeasureNumber(MeasureOf(row, ordinal));
    if number.Some? then number.value.0 as real / Pow10(number.value.1) as real else 0.0
  }

  function Added(rows: seq<Row>, number: Row -> real): real {
    if rows == [] then 0.0 else Added(rows[..|rows| - 1], number) + number(rows[|rows| - 1])
  }

  /** The exact sum of the measure cells. */
  ghost function Total(rows: seq<Row>, ordinal: int): real {
    Added(rows, (row: Row) => RowNumber(row, ordinal))
  }

  // ----- the row loop -----

  /** What the loop learns of a row. */
  datatype Fact = Fact(fine: bool, column: Column, coefficient: int, grain: string)

  ghost predicate FactIs(fact: Fact, row: Row, read: ScalarRead, codec: Codec) {
    && fact.fine == RowFine(row, read, codec) && fact.grain == GrainKey(row, read, codec)
    && fact.column == ColumnOf(MeasureOf(row, read.measureOrdinal))
    && (fact.fine ==> MeasureNumber(MeasureOf(row, read.measureOrdinal)) == Some((fact.coefficient, fact.column.scale)))
  }

  ghost predicate FactsOf(facts: seq<Fact>, rows: seq<Row>, read: ScalarRead, codec: Codec) {
    && |facts| == |rows|
    && forall i {:trigger FactIs(facts[i], rows[i], read, codec)} :: 0 <= i < |rows| ==> FactIs(facts[i], rows[i], read, codec)
  }

  lemma {:induction false} FactsExist(rows: seq<Row>, read: ScalarRead, codec: Codec) returns (facts: seq<Fact>)
    ensures FactsOf(facts, rows, read, codec)
  {
    facts := [];
    if rows == [] {
    } else {
      var n := |rows| - 1;
      var front := FactsExist(rows[..n], read, codec);
      var measure := MeasureOf(rows[n], read.measureOrdinal);
      var fact := Fact(RowFine(rows[n], read, codec), ColumnOf(measure),
                       if MeasureNumber(measure).Some? then MeasureNumber(measure).value.0 else 0, GrainKey(rows[n], read, codec));
      facts := front + [fact];
      forall i | 0 <= i < |rows| ensures FactIs(facts[i], rows[i], read, codec) {
        if i < n {
          assert FactIs(front[i], rows[..n][i], read, codec);
        }
      }
    }
  }

  ghost predicate FactsFine(facts: seq<Fact>) {
    && (forall i :: 0 <= i < |facts| ==> facts[i].fine && facts[i].column == facts[0].column)
    && forall i, j :: 0 <= i < j < |facts| ==> facts[i].grain != facts[j].grain
  }

  function Coefficients(facts: seq<Fact>): int {
    if facts == [] then 0 else Coefficients(facts[..|facts| - 1]) + facts[|facts| - 1].coefficient
  }

  ghost predicate Grains(grains: set<string>, facts: seq<Fact>) {
    forall g :: g in grains <==> exists i :: 0 <= i < |facts| && facts[i].grain == g
  }

  /** The fact continues the facts before it: the same column and a new grain. */
  ghost predicate Joins(fact: Fact, first: Fact, grains: set<string>) {
    fact.fine && fact.column == first.column && fact.grain !in grains
  }

  lemma FactJoins(facts: seq<Fact>, i: nat, grains: set<string>)
    requires i < |facts| && FactsFine(facts[..i]) && Grains(grains, facts[..i])
    ensures Joins(facts[i], facts[0], grains) ==> FactsFine(facts[..i + 1])
    ensures !Joins(facts[i], facts[0], grains) ==> !FactsFine(facts)
    ensures Grains(grains + {facts[i].grain}, facts[..i + 1])
    ensures Coefficients(facts[..i + 1]) == Coefficients(facts[..i]) + facts[i].coefficient
  {
    var front, more := facts[..i], facts[..i + 1];
    assert more[..i] == front && more[i] == facts[i];
    assert forall k :: 0 <= k < i ==> more[k] == front[k] && front[k] == facts[k];
    if facts[i].grain in grains {
      var k :| 0 <= k < |front| && front[k].grain == facts[i].grain;
      assert facts[k].grain == facts[i].grain;
    }
    forall g ensures g in grains + {facts[i].grain} <==> exists k :: 0 <= k < |more| && more[k].grain == g {
      if g in grains {
        var k :| 0 <= k < |front| && front[k].grain == g;
        assert more[k].grain == g;
      }
      if g == facts[i].grain {
        assert more[i].grain == g;
      }
    }
  }

  /** CheckRow, told as a fact. */
  method LearnRow(rows: seq<Row>, i: nat, read: ScalarRead, ordinals: set<int>, codec: Codec, ghost facts: seq<Fact>)
    returns (ok: bool, column: Column, coefficient: int, grain: string)
    requires ordinals == Ordinals(read) && i < |rows| && FactsOf(facts, rows, read, codec)
    ensures i < |facts| && ok == facts[i].fine
    ensures ok ==> column == facts[i].column && coefficient == facts[i].coefficient && grain == facts[i].grain && column.scale >= 0
  {
    assert FactIs(facts[i], rows[i], read, codec);
    var measure;
    ok, measure, grain := CheckRow(rows[i], read, ordinals, codec);
    column, coefficient := ColumnOf(measure), 0;
    if ok {
      coefficient := MeasureNumber(measure).value.0;
    }
  }

  /** The row loop: exact addition at one scale. */
  method SumRows(rows: seq<Row>, read: ScalarRead, ordinals: set<int>, codec: Codec, ghost facts: seq<Fact>)
    returns (ok: bool, sum: int, scale: int)
    requires ordinals == Ordinals(read) && rows != [] && FactsOf(facts, rows, read, codec)
    ensures ok <==> FactsFine(facts)
    ensures ok ==> sum == Coefficients(facts) && scale == facts[0].column.scale >= 0
  {
    sum, scale := 0, -1;
    var grainSeen: set<string> := {};
    var first := Column("", "", "", -1);
    for i := 0 to |rows|
      invariant FactsFine(facts[..i]) && Grains(grainSeen, facts[..i]) && sum == Coefficients(facts[..i])
      invariant i > 0 ==> first == facts[0].column && scale == first.scale >= 0
    {
      FactJoins(facts, i, grainSeen);
      var column, coefficient, grain;
      ok, column, coefficient, grain := LearnRow(rows, i, read, ordinals, codec, facts);
      if !ok || grain in grainSeen {
        return false, sum, scale;
      }
      if i > 0 {
        if column != first {
          return false, sum, scale;
        }
      } else {
        first, scale := column, column.scale;
      }
      grainSeen := grainSeen + {grain};
      sum := sum + coefficient;
    }
    WholePrefix(facts);
    ok := true;
  }

  /** The facts are fine exactly when the rows are. */
  lemma FactsTell(facts: seq<Fact>, rows: seq<Row>, read: ScalarRead, codec: Codec)
    requires FactsOf(facts, rows, read, codec)
    ensures FactsFine(facts) <==> RowsOk(rows, read, codec)
  {
    forall i | 0 <= i < |rows| ensures FactIs(facts[i], rows[i], read, codec) { }
    if FactsFine(facts) {
      forall i | 0 <= i < |rows| ensures RowFine(rows[i], read, codec) { assert facts[i].fine; }
    }
    if RowsOk(rows, read, codec) {
      forall i, j | 0 <= i < j < |rows| ensures facts[i].grain != facts[j].grain {
        assert GrainKey(rows[i], read, codec) != GrainKey(rows[j], read, codec);
      }
    }
  }

  lemma AddQuotients(a: int, b: int, p: int)
    requires p > 0
    ensures a as real / p as real + b as real / p as real == (a + b) as real / p as real
  {
  }

  lemma {:induction false} QuotientsAdd(facts: seq<Fact>, rows: seq<Row>, number: Row -> real, p: int)
    requires p > 0 && |facts| == |rows|
    requires forall i :: 0 <= i < |rows| ==> number(rows[i]) == facts[i].coefficient as real / p as real
    ensures Added(rows, number) == Coefficients(facts) as real / p as real
  {
    if rows == [] {
    } else {
      var n := |rows| - 1;
      QuotientsAdd(facts[..n], rows[..n], number, p);
      AddQuotients(Coefficients(facts[..n]), facts[n].coefficient, p);
    }
  }

  lemma FactsAdd(facts: seq<Fact>, rows: seq<Row>, read: ScalarRead, codec: Codec, scale: nat)
    requires FactsOf(facts, rows, read, codec) && forall i :: 0 <= i < |facts| ==> facts[i].fine && facts[i].column.scale == scale
    ensures Total(rows, read.measureOrdinal) == Coefficients(facts) as real / Pow10(scale) as real
  {
    forall i | 0 <= i < |rows|
      ensures RowNumber(rows[i], read.measureOrdinal) == facts[i].coefficient as real / Pow10(scale) as real
    {
      NumberAt(facts, rows, read, codec, i);
    }
    QuotientsAdd(facts, rows, (row: Row) => RowNumber(row, read.measureOrdinal), Pow10(scale));
  }

  lemma NumberAt(facts: seq<Fact>, rows: seq<Row>, read: ScalarRead, codec: Codec, i: nat)
    requires FactsOf(facts, rows, read, codec) && i < |rows| && facts[i].fine
    ensures facts[i].column.scale >= 0
    ensures RowNumber(rows[i], read.measureOrdinal) == facts[i].coefficient as real / Pow10(facts[i].column.scale) as real
  {
    assert FactIs(facts[i], rows[i], read, codec);
    NumberOfFact(facts[i], rows[i], read, codec);
  }

  lemma NumberOfFact(fact: Fact, row: Row, read: ScalarRead, codec: Codec)
    requires FactIs(fact, row, read, codec) && fact.fine
    ensures fact.column.scale >= 0
    ensures RowNumber(row, read.measureOrdinal) == fact.coefficient as real / Pow10(fact.column.scale) as real
  {
  }

  /** reduceScalarSum: it succeeds exactly on reducible reads, and then prints the exact sum of the measure
      cells in its one canonical form. */
  method Reduce(read: ScalarRead, codec: Codec) returns (result: Option<Sum>)
    ensures result.Some? <==> Reducible(read, codec)
    ensures result.Some? ==> IsSumOf(read, result.value)
  {
    var ok, ordinals := CheckOrdinals(read);
    if !ok {
      return None;
    }
    ok := CheckSnapshot(read.snapshot, codec);
    if !ok {
      return None;
    }
    ghost var facts := FactsExist(read.snapshot.rows, read, codec);
    FactsTell(facts, read.snapshot.rows, read, codec);
    var sum, scale;
    ok, sum, scale := SumRows(read.snapshot.rows, read, ordinals, codec, facts);
    if !ok {
      return None;
    }
    FactsAdd(facts, read.snapshot.rows, read, codec, scale);
    ScalarSumDecimalIsCanonical(sum, scale);
    return Some(Sum(ScalarSumDecimal(sum, scale), |read.snapshot.rows|, read.snapshot.snapshotHash));
  }

  // ----- order independence -----

  lemma {:induction false} AddedWithout(rows: seq<Row>, k: nat, number: Row -> real)
    requires k < |rows|
    ensures Added(rows, number) == Added(Without(rows, k), number) + number(rows[k])
  {
    var n := |rows| - 1;
    RemoveThenFront(rows, k);
    if k == n {
    } else {
      AddedWithout(rows[..n], k, number);
    }
  }

  lemma RemoveThenFront(rows: seq<Row>, k: nat)
    requires k < |rows|
    ensures var n, rest := |rows| - 1, Without(rows, k);
            && (k == n ==> rest == rows[..n])
            && (k < n ==> rest[..n - 1] == Without(rows[..n], k) && rest[n - 1] == rows[n])
  {
  }

  /** The same rows in any order have the same sum. */
  lemma {:induction false} AddedOfPermutation(a: seq<Row>, b: seq<Row>, number: Row -> real)
    requires multiset(a) == multiset(b)
    ensures Added(a, number) == Added(b, number)
  {
    if a == [] {
      EmptyPermutation(b);
    } else {
      var n := |a| - 1;
      assert a[n] in multiset(b);
      var k := IndexIn(b, a[n]);
      RestOfPermutation(a, n, b, k);
      assert Without(a, n) == a[..n];
      AddedOfPermutation(a[..n], Without(b, k), number);
      AddedWithout(b, k, number);
    }
  }

  lemma {:induction false} BytesAreAdded(rows: seq<Row>)
    ensures ByteCount(rows) as real == Added(rows, (row: Row) => |row.canonical| as real)
  {
    if rows == [] {
    } else {
      BytesAreAdded(rows[..|rows| - 1]);
    }
  }

  lemma BytesOfPermutation(a: seq<Row>, b: seq<Row>)
    requires multiset(a) == multiset(b)
    ensures ByteCount(a) == ByteCount(b) && |a| == |b|
  {
    BytesAreAdded(a);
    BytesAreAdded(b);
    AddedOfPermutation(a, b, (row: Row) => |row.canonical| as real);
    assert |multiset(a)| == |a| && |multiset(b)| == |b|;
  }

  /** The same read with its rows in another order. */
  ghost predicate Reordered(a: ScalarRead, b: ScalarRead) {
    && multiset(a.snapshot.rows) == multiset(b.snapshot.rows)
    && b == a.(snapshot := a.snapshot.(rows := b.snapshot.rows))
  }

  /** SnapshotSetHash sorts the row hashes, so it does not depend on the order of the rows. */
  ghost predicate HashesSets(codec: Codec) {
    forall p, q :: multiset(p) == multiset(q) ==> codec.setHash(p) == codec.setHash(q)
  }

  lemma SnapshotOfReordered(a: ScalarRead, b: ScalarRead, codec: Codec)
    requires Reordered(a, b) && HashesSets(codec) && SnapshotOk(a.snapshot, codec)
    ensures SnapshotOk(b.snapshot, codec)
  {
    BytesOfPermutation(a.snapshot.rows, b.snapshot.rows);
    forall row | row in b.snapshot.rows ensures row in a.snapshot.rows {
      assert row in multiset(b.snapshot.rows);
    }
  }

  lemma FineOfReordered(a: ScalarRead, b: ScalarRead, codec: Codec, row: Row)
    requires Reordered(a, b)
    ensures RowFine(row, a, codec) <==> RowFine(row, b, codec)
    ensures GrainKey(row, a, codec) == GrainKey(row, b, codec)
  {
    assert Ordinals(a) == Ordinals(b);
  }

  lemma RowsOfReordered(a: ScalarRead, b: ScalarRead, codec: Codec)
    requires Reordered(a, b) && RowsOk(a.snapshot.rows, a, codec)
    ensures RowsOk(b.snapshot.rows, b, codec)
  {
    var p, q := a.snapshot.rows, b.snapshot.rows;
    forall i | 0 <= i < |q| ensures RowFine(q[i], b, codec) {
      assert q[i] in multiset(p);
      var x := IndexIn(p, q[i]);
      FineOfReordered(a, b, codec, q[i]);
    }
    UniformOfReordered(p, q, a.measureOrdinal);
    GrainsOfReordered(a, b, codec);
  }

  lemma UniformOfReordered(p: seq<Row>, q: seq<Row>, ordinal: int)
    requires multiset(p) == multiset(q) && Uniform(p, ordinal)
    ensures Uniform(q, ordinal)
  {
    forall i, j | 0 <= i < |q| && 0 <= j < |q| ensures ColumnOf(MeasureOf(q[i], ordinal)) == ColumnOf(MeasureOf(q[j], ordinal)) {
      assert q[i] in multiset(p) && q[j] in multiset(p);
      var x := IndexIn(p, q[i]);
      var y := IndexIn(p, q[j]);
    }
  }

  lemma GrainsOfReordered(a: ScalarRead, b: ScalarRead, codec: Codec)
    requires Reordered(a, b) && DistinctGrains(a.snapshot.rows, a, codec)
    ensures DistinctGrains(b.snapshot.rows, b, codec)
  {
    var p, q := a.snapshot.rows, b.snapshot.rows;
    forall i, j | 0 <= i < j < |q| ensures GrainKey(q[i], b, codec) != GrainKey(q[j], b, codec) {
      var x, y := TwoPlaces(q, p, i, j);
      FineOfReordered(a, b, codec, q[i]);
      FineOfReordered(a, b, codec, q[j]);
      assert GrainKey(p[x], a, codec) != GrainKey(p[y], a, codec);
    }
  }

  lemma ReducibleEitherWay(a: ScalarRead, b: ScalarRead, codec: Codec)
    requires Reordered(a, b) && HashesSets(codec) && Reducible(a, codec)
    ensures Reducible(b, codec)
  {
    SnapshotOfReordered(a, b, codec);
    RowsOfReordered(a, b, codec);
  }

  /** Whether a read reduces does not depend on the order of its rows. */
  lemma ReducibleInAnyOrder(a: ScalarRead, b: ScalarRead, codec: Codec)
    requires Reordered(a, b) && HashesSets(codec)
    ensures Reducible(a, codec) <==> Reducible(b, codec)
  {
    if Reducible(a, codec) {
      ReducibleEitherWay(a, b, codec);
    }
    if Reducible(b, codec) {
      assert a == b.(snapshot := b.snapshot.(rows := a.snapshot.rows));
      ReducibleEitherWay(b, a, codec);
    }
  }

  /** What a reduction of the read returns, if it returns a sum. */
  ghost predicate IsSumOf(read: ScalarRead, sum: Sum) {
    && CanonicalDecimal(sum.value) && Exact(sum.value) == Total(read.snapshot.rows, read.measureOrdinal)
    && sum.contributingRows == |read.snapshot.rows| && sum.snapshotHash == read.snapshot.snapshotHash
  }

  /** A reordered read reduces exactly when the original does, and then to the same sum. */
  lemma SameRowsSameSum(a: ScalarRead, b: ScalarRead, codec: Codec, x: Sum)
    requires Reordered(a, b) && HashesSets(codec) && Reducible(a, codec) && IsSumOf(a, x)
    ensures Reducible(b, codec) && forall y :: IsSumOf(b, y) <==> y == x
  {
    ReducibleInAnyOrder(a, b, codec);
    AddedOfPermutation(a.snapshot.rows, b.snapshot.rows, (row: Row) => RowNumber(row, a.measureOrdinal));
    BytesOfPermutation(a.snapshot.rows, b.snapshot.rows);
    forall y | IsSumOf(b, y) ensures y == x {
      CanonicalIsUnique(x.value, y.value);
    }
  }
}
