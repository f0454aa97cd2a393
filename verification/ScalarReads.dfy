/** Which measure entries carry a number, and a read that reduces (internal/analyticsource/scalar_sum.go). */
module ScalarReads {
  import opened GoText
  import opened Sets
  import opened Sorting
  import opened Numerals
  import opened Decimals
  import opened ScalarDecimals
  import opened ScalarSum

  lemma NoPoint(s: string)
    ensures IndexOf(s, '.') == |s| <==> '.' !in s
  {
  }

  /** A decimal without a point is its whole part. */
  lemma IntegerDecimal(text: string)
    ensures Canonical(Unsigned(text)) <==> IsDecimal(text) && '.' !in text
  {
    var body := Unsigned(text);
    NoPoint(body);
    assert text == body || text == ['-'] + body;
    if IndexOf(body, '.') == |body| {
      assert body[..|body|] == body;
    }
  }

  /** An INT carries a number exactly when its text is a decimal without a point that is not "-0", a NUMERIC
      exactly when it is a decimal that is not a negative zero, and nothing else does. */
  lemma MeasureExactly(e: Entry)
    ensures e.logicalType == "INT" && e.valueTag == "INT" ==>
              (MeasureNumber(e).Some? <==> e.text.Some? && IsDecimal(e.text.value) && '.' !in e.text.value && e.text.value != "-0")
    ensures e.logicalType == "NUMERIC" && e.valueTag == "NUMERIC" ==>
              (MeasureNumber(e).Some? <==>
               e.text.Some? && IsDecimal(e.text.value) && !(e.text.value[0] == '-' && Exact(e.text.value) == 0.0))
    ensures !(e.logicalType == "INT" && e.valueTag == "INT") && !(e.logicalType == "NUMERIC" && e.valueTag == "NUMERIC")
            ==> MeasureNumber(e).None?
  {
    if e.text.Some? {
      var text := e.text.value;
      IntegerDecimal(text);
      if IsDecimal(text) {
        NumericCoefficientIsExact(text);
        ZeroIsZero(text);
      }
    }
  }

  lemma ZeroIsZero(text: string)
    requires IsDecimal(text)
    ensures text != "" && (Exact(text) == 0.0 <==> Coefficient(text) == 0)
  {
    QuotientIsZero(Coefficient(text), Pow10(Scale(text)));
  }

  lemma QuotientIsZero(n: int, p: int)
    requires p > 0
    ensures n as real / p as real == 0.0 <==> n == 0
  {
    assert n as real == (n as real / p as real) * p as real;
  }

  /** An INT or NUMERIC entry whose text is a number of its kind. */
  ghost predicate CarriesNumber(e: Entry) {
    && e.text.Some? && IsDecimal(e.text.value)
    && ((e.logicalType == "INT" && e.valueTag == "INT" && '.' !in e.text.value && e.text.value != "-0")
        || (e.logicalType == "NUMERIC" && e.valueTag == "NUMERIC" && !(e.text.value[0] == '-' && Exact(e.text.value) == 0.0)))
  }

  lemma CarriesExactly(e: Entry)
    ensures CarriesNumber(e) <==> MeasureNumber(e).Some?
  {
    MeasureExactly(e);
  }

  // ----- one row -----

  function FoundOrdinals(values: seq<Entry>, ordinals: set<int>): set<int> {
    set e | e in values && e.ordinal in ordinals :: e.ordinal
  }

  lemma FrontIsValid(values: seq<Entry>)
    requires ValidRow(values) && values != []
    ensures ValidRow(values[..|values| - 1])
    ensures forall e :: e in values[..|values| - 1] ==> e.ordinal != values[|values| - 1].ordinal
    ensures values == values[..|values| - 1] + [values[|values| - 1]]
  {
  }

  lemma FoundSnoc(front: seq<Entry>, last: Entry, ordinals: set<int>)
    requires forall e :: e in front ==> e.ordinal != last.ordinal
    ensures |FoundOrdinals(front + [last], ordinals)| == |FoundOrdinals(front, ordinals)| + if last.ordinal in ordinals then 1 else 0
  {
    if last.ordinal in ordinals {
      assert FoundOrdinals(front + [last], ordinals) == FoundOrdinals(front, ordinals) + {last.ordinal};
      assert last.ordinal !in FoundOrdinals(front, ordinals);
    } else {
      assert FoundOrdinals(front + [last], ordinals) == FoundOrdinals(front, ordinals);
    }
  }

  lemma {:induction false} SelectedCounts(values: seq<Entry>, ordinals: set<int>)
    requires ValidRow(values)
    ensures forall e :: e in Selected(values, ordinals) <==> e in values && e.ordinal in ordinals
    ensures |Selected(values, ordinals)| == |FoundOrdinals(values, ordinals)|
  {
    if values == [] {
      assert FoundOrdinals(values, ordinals) == {};
    } else {
      var front, last := values[..|values| - 1], values[|values| - 1];
      FrontIsValid(values);
      SelectedCounts(front, ordinals);
      FoundSnoc(front, last, ordinals);
    }
  }

  /** Each of the ordinals has an entry that is not NULL. */
  ghost predicate Identified(values: seq<Entry>, ordinals: seq<int>) {
    forall o :: o in ordinals ==> exists e :: e in values && e.ordinal == o && e.valueTag != "NULL"
  }

  lemma EntryIsUnique(values: seq<Entry>, a: Entry, b: Entry)
    requires ValidRow(values) && a in values && b in values && a.ordinal == b.ordinal
    ensures a == b
  {
    MeasureIsUnique(values, a.ordinal, a, b);
  }

  lemma IdentityExactly(values: seq<Entry>, read: ScalarRead)
    requires ValidRow(values)
    ensures |Selected(values, Ordinals(read))| == |Ordinals(read)| && (forall e :: e in Selected(values, Ordinals(read)) ==> e.valueTag != "NULL")
       <==> Identified(values, read.identityOrdinals)
  {
    var all, found := Ordinals(read), FoundOrdinals(values, Ordinals(read));
    SelectedCounts(values, all);
    SubsetSize(found, all);
    if Identified(values, read.identityOrdinals) {
      forall o | o in all ensures o in found {
        var e :| e in values && e.ordinal == o && e.valueTag != "NULL";
      }
      assert found == all;
      forall e | e in Selected(values, all) ensures e.valueTag != "NULL" {
        var d :| d in values && d.ordinal == e.ordinal && d.valueTag != "NULL";
        EntryIsUnique(values, d, e);
      }
    } else {
      var o :| o in read.identityOrdinals && forall e :: e in values && e.ordinal == o ==> e.valueTag == "NULL";
      if found == all {
        assert o in found;
        var e :| e in values && e.ordinal in all && e.ordinal == o;
        assert e in Selected(values, all);
      }
    }
  }

  /** The row of canonical text and hash that holds a number under the measure's ordinal and an entry that is not
      NULL under each identity ordinal, all ordinals being positive and different. */
  ghost predicate SoundRow(row: Row, read: ScalarRead, codec: Codec) {
    && row.canonical == codec.canonicalJson(row.values) && row.hash == codec.hash(row.canonical)
    && (forall e :: e in row.values ==> e.ordinal > 0)
    && (forall i, j :: 0 <= i < j < |row.values| ==> row.values[i].ordinal != row.values[j].ordinal)
    && (exists e :: e in row.values && e.ordinal == read.measureOrdinal && CarriesNumber(e))
    && Identified(row.values, read.identityOrdinals)
  }

  lemma MeasureFound(row: Row, ordinal: int, e: Entry)
    requires ValidRow(row.values) && e in row.values && e.ordinal == ordinal
    ensures MeasureOf(row, ordinal) == e && HasMeasure(row.values, ordinal, e)
  {
    assert HasMeasure(row.values, ordinal, e);
    MeasureIsUnique(row.values, ordinal, e, MeasureOf(row, ordinal));
  }

  /** The check on a row accepts exactly the sound ones. */
  lemma RowExactly(row: Row, read: ScalarRead, codec: Codec)
    ensures RowFine(row, read, codec) <==> SoundRow(row, read, codec)
  {
    if ValidRow(row.values) {
      IdentityExactly(row.values, read);
    }
    if RowFine(row, read, codec) {
      CarriesExactly(MeasureOf(row, read.measureOrdinal));
    }
    if SoundRow(row, read, codec) {
      var e :| e in row.values && e.ordinal == read.measureOrdinal && CarriesNumber(e);
      MeasureFound(row, read.measureOrdinal, e);
      CarriesExactly(e);
    }
  }

  // ----- rows together -----

  /** Two measures are of one column exactly when their types, tags, fingerprints and scales agree. */
  lemma ColumnsExactly(a: Entry, b: Entry)
    requires CarriesNumber(a) && CarriesNumber(b)
    ensures ColumnOf(a) == ColumnOf(b) <==>
            a.logicalType == b.logicalType && a.valueTag == b.valueTag && a.typeFingerprint == b.typeFingerprint
            && Scale(a.text.value) == Scale(b.text.value)
  {
    CarriesExactly(a);
    CarriesExactly(b);
    MeasureIsExact(a);
    MeasureIsExact(b);
  }

  lemma {:induction false} SelectedDistinct(values: seq<Entry>, ordinals: set<int>)
    requires ValidRow(values)
    ensures Distinct(Selected(values, ordinals))
  {
    if values == [] {
    } else {
      FrontIsValid(values);
      SelectedDistinct(values[..|values| - 1], ordinals);
      SelectedCounts(values[..|values| - 1], ordinals);
    }
  }

  /** The grain of a row is its entries under the identity ordinals, in ascending order. */
  lemma GrainExactly(values: seq<Entry>, ordinals: set<int>)
    requires ValidRow(values)
    ensures forall e :: e in Grain(values, ordinals) <==> e in values && e.ordinal in ordinals
    ensures forall i, j :: 0 <= i < j < |Grain(values, ordinals)| ==> Grain(values, ordinals)[i].ordinal < Grain(values, ordinals)[j].ordinal
  {
    var picked := Selected(values, ordinals);
    SelectedCounts(values, ordinals);
    SelectedDistinct(values, ordinals);
    forall a, b | a in picked && b in picked && a != b ensures ByOrdinal(a, b) || ByOrdinal(b, a) {
      if a.ordinal == b.ordinal {
        EntryIsUnique(values, a, b);
      }
    }
    SortSorts(picked, ByOrdinal);
  }

  // ----- one read -----

  /** A sealed snapshot of one sound row reduces, and its sum is the number of its measure. */
  lemma OneRowReduces(read: ScalarRead, codec: Codec, row: Row, measure: Entry, sum: Sum)
    requires read.measureOrdinal > 0 && |read.identityOrdinals| > 0
    requires forall i :: 0 <= i < |read.identityOrdinals| ==> read.identityOrdinals[i] > 0 && read.identityOrdinals[i] != read.measureOrdinal
    requires forall i, j :: 0 <= i < j < |read.identityOrdinals| ==> read.identityOrdinals[i] != read.identityOrdinals[j]
    requires read.snapshot == Snapshot(true, 1, |row.canonical|, codec.setHash([row]), [row]) && IsSha256(codec.setHash([row]))
    requires row.canonical != "" && row.hash != "" && SoundRow(row, read, codec)
    requires measure in row.values && measure.ordinal == read.measureOrdinal
    ensures Reducible(read, codec)
    ensures IsSumOf(read, sum) ==> IsDecimal(sum.value) && IsDecimal(measure.text.value) && Exact(sum.value) == Exact(measure.text.value)
  {
    var rows := [row];
    RowExactly(row, read, codec);
    BytesOfOne(row);
    MeasureFound(row, read.measureOrdinal, measure);
    MeasureIsExact(measure);
    var e :| e in row.values && e.ordinal == read.measureOrdinal && CarriesNumber(e);
    EntryIsUnique(row.values, e, measure);
    CarriesExactly(measure);
    AddedOfOne(row, (r: Row) => RowNumber(r, read.measureOrdinal));
  }

  lemma BytesOfOne(row: Row)
    ensures ByteCount([row]) == |row.canonical|
  {
    assert [row][..0] == [];
  }

  lemma AddedOfOne(row: Row, number: Row -> real)
    ensures Added([row], number) == number(row)
  {
    assert [row][..0] == [];
  }
}
