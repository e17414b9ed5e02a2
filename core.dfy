/** The analyzers of the profiling engine. Each returns the rows it adds to its table, in
    the order it adds them, or the exception that stops it before the table is printed. */
module Core {
  import opened Basics
  import opened Text
  import opened Frames

  // ---------------------------------------------------------------------------
  // Shape report

  datatype StatRow = StatRow(metric: string, value: string)

  /** `compute_basic_stats`: row count, column count and the column names joined by ", ". */
  function BasicStats(df: Frame): (rows: seq<StatRow>)
    ensures |rows| == 3 && AllDigits(rows[0].value) && AllDigits(rows[1].value)
  {
    [ StatRow("Row Count", Decimal(df.height)),
      StatRow("Column Count", Decimal(|df.columns|)),
      StatRow("Column Names", JoinNames(Names(df.columns))) ]
  }

  /** The three rows read back as the frame's height, its width and its column names. */
  lemma BasicStatsReadBack(df: Frame)
    ensures |BasicStats(df)| == 3
    ensures BasicStats(df)[0].metric == "Row Count" && AllDigits(BasicStats(df)[0].value)
    ensures ParseDecimal(BasicStats(df)[0].value) == df.height
    ensures BasicStats(df)[1].metric == "Column Count" && AllDigits(BasicStats(df)[1].value)
    ensures ParseDecimal(BasicStats(df)[1].value) == |df.columns|
    ensures BasicStats(df)[2].metric == "Column Names"
    ensures |df.columns| > 0 && (forall i :: 0 <= i < |df.columns| ==> CommaFree(df.columns[i].name))
            ==> SplitNames(BasicStats(df)[2].value) == Names(df.columns)
  {
    ParseDecimalOfDecimal(df.height);
    ParseDecimalOfDecimal(|df.columns|);
    var names := Names(df.columns);
    if |df.columns| > 0 && forall i :: 0 <= i < |df.columns| ==> CommaFree(df.columns[i].name) {
      SplitJoinNames(names);
    }
  }

  /** A 3-row frame with columns "a" and "b" reports "3", "2" and "a, b". */
  lemma BasicStatsThreeByTwo()
    ensures
      var df := Frame(3, [ Column("a", NumericCells([Some(1.0), Some(2.0), Some(3.0)])),
                           Column("b", StringCells([Some("x"), Some("y"), Some("z")])) ]);
      BasicStats(df) == [ StatRow("Row Count", "3"), StatRow("Column Count", "2"),
                          StatRow("Column Names", "a, b") ]
  {
    var cols := [ Column("a", NumericCells([Some(1.0), Some(2.0), Some(3.0)])),
                  Column("b", StringCells([Some("x"), Some("y"), Some("z")])) ];
    assert Names(cols) == ["a", "b"];
    assert Decimal(3) == [DigitChar(3)] == "3";
    assert Decimal(2) == [DigitChar(2)] == "2";
    assert JoinNames(["a", "b"]) == "a" + ", " + JoinNames(["b"]) == "a, b";
    assert BasicStats(Frame(3, cols))[0] == StatRow("Row Count", "3");
    assert BasicStats(Frame(3, cols))[1] == StatRow("Column Count", "2");
    assert BasicStats(Frame(3, cols))[2] == StatRow("Column Names", "a, b");
  }

  // ---------------------------------------------------------------------------
  // Null report

  datatype Style = Red | Green

  datatype NullRow = NullRow(column: string, nullCount: nat, percent: real, style: Style)

  /** `(null_count / df.height) * 100`, in exact arithmetic. */
  function NullPercent(nulls: nat, height: nat): (pct: real)
    requires height > 0
    ensures pct * height as real == (nulls * 100) as real
  {
    (nulls as real / height as real) * 100.0
  }

  /** The row style: red when the null percentage exceeds the threshold, decided by
      comparing cross-multiplied integers. */
  function NullStyle(nulls: nat, height: nat, threshold: int): (style: Style)
    ensures nulls == 0 && threshold >= 0 ==> style == Green
    ensures 0 < nulls == height && threshold < 100 ==> style == Red
  {
    if nulls * 100 > threshold * height then Red else Green
  }

  /** The integer test agrees with comparing the percentage: red iff strictly above the
      threshold, so a percentage equal to the threshold is green. */
  lemma NullStyleMatchesPercent(nulls: nat, height: nat, threshold: int)
    requires height > 0
    ensures NullStyle(nulls, height, threshold) == Red <==> NullPercent(nulls, height) > threshold as real
  {
    var h := height as real;
    var p := NullPercent(nulls, height);
    assert p * h == (nulls * 100) as real;
    if p > threshold as real {
      assert p * h > (threshold as real) * h;
    } else {
      assert p * h <= (threshold as real) * h;
    }
  }

  /** Raising the threshold never turns a green row red. */
  lemma NullStyleMonotone(nulls: nat, height: nat, low: int, high: int)
    requires low <= high
    ensures NullStyle(nulls, height, high) == Red ==> NullStyle(nulls, height, low) == Red
  {
    assert low * height <= high * height;
  }

  /** `df.select([pl.col(c).null_count() for c in df.columns])`. */
  function NullCounts(df: Frame): (counts: seq<nat>)
    ensures |counts| == |df.columns|
    ensures forall i :: 0 <= i < |counts| ==> counts[i] <= Length(df.columns[i])
  {
    seq(|df.columns|, i requires 0 <= i < |df.columns| => ColumnNullCount(df.columns[i]))
  }

  function NullRowOf(c: Column, nulls: nat, height: nat, threshold: int): NullRow
    requires height > 0
  {
    NullRow(c.name, nulls, NullPercent(nulls, height), NullStyle(nulls, height, threshold))
  }

  /** What `check_null_counts` adds to its table: one row per column; the first column
      of a frame without rows raises ZeroDivisionError. */
  function NullReport(df: Frame, threshold: int): (r: Result<seq<NullRow>, Fault>)
    ensures r.Ok? ==> |r.value| == |df.columns|
    ensures r.Err? ==> r.error.ZeroDivisionError?
  {
    if |df.columns| == 0 then Ok([])
    else if df.height == 0 then Err(ZeroDivisionError(df.columns[0].name))
    else
      var counts := NullCounts(df);
      Ok(seq(|df.columns|, i requires 0 <= i < |df.columns| =>
             NullRowOf(df.columns[i], counts[i], df.height, threshold)))
  }

  /** `check_null_counts`: counts the nulls of every column, then adds one row per column. */
  method CheckNullCounts(df: Frame, threshold: int) returns (r: Result<seq<NullRow>, Fault>)
    ensures r == NullReport(df, threshold)
  {
    var counts := NullCounts(df);
    var rows: seq<NullRow> := [];
    var i := 0;
    while i < |df.columns|
      invariant 0 <= i <= |df.columns|
      invariant i > 0 ==> df.height > 0
      invariant |rows| == i
      invariant forall k :: 0 <= k < i ==> rows[k] == NullRowOf(df.columns[k], counts[k], df.height, threshold)
    {
      var col := df.columns[i];
      var nulls := counts[i];
      if df.height == 0 {
        return Err(ZeroDivisionError(col.name));
      }
      var pct := NullPercent(nulls, df.height);
      var style := if pct > threshold as real then Red else Green;
      NullStyleMatchesPercent(nulls, df.height, threshold);
      rows := rows + [NullRow(col.name, nulls, pct, style)];
      i := i + 1;
    }
    if |df.columns| > 0 {
      assert rows == NullReport(df, threshold).value;
    }
    r := Ok(rows);
  }

  /** The report fails exactly when the frame has columns but no rows. */
  lemma NullReportFailsIff(df: Frame, threshold: int)
    ensures NullReport(df, threshold).Err? <==> |df.columns| > 0 && df.height == 0
    ensures NullReport(df, threshold).Err? ==> NullReport(df, threshold).error == ZeroDivisionError(df.columns[0].name)
  {
  }

  /** A null percentage lies between 0 and 100. */
  lemma NullPercentBounds(nulls: nat, height: nat)
    requires 0 < height && nulls <= height
    ensures 0.0 <= NullPercent(nulls, height) <= 100.0
  {
    assert nulls as real / height as real <= 1.0;
  }

  /** One row per column, in `df.columns` order, each counting that column's missing
      entries, at most the height. */
  lemma NullReportRows(df: Frame, threshold: int)
    requires Valid(df)
    requires NullReport(df, threshold).Ok?
    ensures |NullReport(df, threshold).value| == |df.columns|
    ensures forall i :: 0 <= i < |df.columns| ==>
      && NullReport(df, threshold).value[i].column == df.columns[i].name
      && NullReport(df, threshold).value[i].nullCount == ColumnNullCount(df.columns[i])
      && NullReport(df, threshold).value[i].nullCount <= df.height
  {
  }

  /** Every row is red iff its percentage is strictly above the threshold, and every
      percentage lies between 0 and 100. */
  lemma NullReportFlags(df: Frame, threshold: int)
    requires Valid(df)
    requires NullReport(df, threshold).Ok?
    ensures forall i :: 0 <= i < |df.columns| ==>
      var row := NullReport(df, threshold).value[i];
      && row.percent == (row.nullCount as real / df.height as real) * 100.0
      && (row.style == Red <==> row.percent > threshold as real)
      && 0.0 <= row.percent <= 100.0
  {
    if |df.columns| > 0 {
      var counts := NullCounts(df);
      forall i | 0 <= i < |df.columns|
        ensures NullStyle(counts[i], df.height, threshold) == Red <==> NullPercent(counts[i], df.height) > threshold as real
        ensures 0.0 <= NullPercent(counts[i], df.height) <= 100.0
      {
        NullStyleMatchesPercent(counts[i], df.height, threshold);
        NullPercentBounds(counts[i], df.height);
      }
    }
  }

  /** Raising the threshold never turns a green row red: every row red under the higher
      threshold is red under the lower one. */
  lemma NullReportMonotone(df: Frame, low: int, high: int)
    requires low <= high
    ensures NullReport(df, low).Ok? == NullReport(df, high).Ok?
    ensures NullReport(df, high).Ok? ==>
      forall i :: 0 <= i < |df.columns| ==>
        NullReport(df, low).value[i].nullCount == NullReport(df, high).value[i].nullCount
    ensures NullReport(df, high).Ok? ==>
      forall i :: 0 <= i < |df.columns| && NullReport(df, high).value[i].style == Red ==>
        NullReport(df, low).value[i].style == Red
  {
    if NullReport(df, high).Ok? && |df.columns| > 0 {
      var counts := NullCounts(df);
      forall i | 0 <= i < |df.columns|
        ensures NullStyle(counts[i], df.height, high) == Red ==> NullStyle(counts[i], df.height, low) == Red
      {
        NullStyleMonotone(counts[i], df.height, low, high);
      }
    }
  }

  // ---------------------------------------------------------------------------
  // Schema listing

  datatype SchemaRow = SchemaRow(column: string, kind: Kind)

  /** What `print_schema` adds to its table: one (name, kind) row per schema entry. */
  function SchemaListing(df: Frame): (rows: seq<SchemaRow>)
    ensures |rows| == |df.columns|
    ensures forall i :: 0 <= i < |rows| ==> rows[i].column == Names(df.columns)[i]
  {
    seq(|df.columns|, i requires 0 <= i < |df.columns| => SchemaRow(df.columns[i].name, KindOf(df.columns[i])))
  }

  /** `print_schema`: walks `df.schema` and adds a row per column. */
  method PrintSchema(df: Frame) returns (rows: seq<SchemaRow>)
    ensures rows == SchemaListing(df)
  {
    rows := [];
    for i := 0 to |df.columns|
      invariant |rows| == i
      invariant forall k :: 0 <= k < i ==> rows[k] == SchemaRow(df.columns[k].name, KindOf(df.columns[k]))
    {
      var col := df.columns[i];
      rows := rows + [SchemaRow(col.name, KindOf(col))];
    }
  }

  /** The schema lists the same names, in the same order, as the shape report, and the
      columns it marks with a kind are exactly the ones that kind's selector picks. */
  lemma SchemaAgreesWithSelectors(df: Frame, k: Kind)
    ensures |SchemaListing(df)| == |df.columns|
    ensures forall i :: 0 <= i < |df.columns| ==> SchemaListing(df)[i].column == Names(df.columns)[i]
    ensures forall i :: 0 <= i < |df.columns| ==>
      (SchemaListing(df)[i].kind == k <==> i in IndicesOfKind(df.columns, k))
  {
  }

  // ---------------------------------------------------------------------------
  // The first column that fails a check

  function FirstFailing(cs: seq<Column>, ok: Column -> bool): (j: nat)
    requires exists j :: 0 <= j < |cs| && !ok(cs[j])
    ensures j < |cs| && !ok(cs[j])
    ensures forall k :: 0 <= k < j ==> ok(cs[k])
  {
    if !ok(cs[0]) then 0
    else
      assert exists j :: 0 <= j < |cs[1..]| && !ok(cs[1..][j]) by {
        var j :| 0 <= j < |cs| && !ok(cs[j]);
        assert cs[1..][j - 1] == cs[j];
      }
      1 + FirstFailing(cs[1..], ok)
  }

  // ---------------------------------------------------------------------------
  // Numeric summary

  datatype SummaryRow = SummaryRow(column: string, maximum: real, minimum: real)

  /** Whether a numeric column has a present entry, so that its max and min are numbers. */
  predicate HasValue(c: Column) {
    match c.cells
    case NumericCells(xs) => exists i :: 0 <= i < |xs| && xs[i].Some?
    case _ => true
  }

  function SummaryRowOf(c: Column): SummaryRow
    requires c.cells.NumericCells? && HasValue(c)
  {
    SummaryRow(c.name, MaxOf(c.cells.nums).value, MinOf(c.cells.nums).value)
  }

  /** What `compute_summary_stats` adds to its table: a (max, min) row per numeric column;
      the first numeric column without a present entry makes `:.2f` fail on None. */
  function SummaryReport(df: Frame): (r: Result<seq<SummaryRow>, Fault>)
    ensures r.Ok? ==> |r.value| == |SelectKind(df.columns, Numeric)|
    ensures r.Err? ==> r.error.TypeError?
  {
    var ns := SelectKind(df.columns, Numeric);
    if forall j :: 0 <= j < |ns| ==> HasValue(ns[j]) then
      Ok(seq(|ns|, j requires 0 <= j < |ns| => SummaryRowOf(ns[j])))
    else
      Err(TypeError(ns[FirstFailing(ns, HasValue)].name))
  }

  /** `compute_summary_stats`: loops over the numeric columns and adds a row for each. */
  method ComputeSummaryStats(df: Frame) returns (r: Result<seq<SummaryRow>, Fault>)
    ensures r == SummaryReport(df)
  {
    var ns := SelectKind(df.columns, Numeric);
    var rows: seq<SummaryRow> := [];
    for j := 0 to |ns|
      invariant |rows| == j
      invariant forall k :: 0 <= k < j ==> HasValue(ns[k]) && rows[k] == SummaryRowOf(ns[k])
    {
      var col := ns[j];
      var maximum := MaxOf(col.cells.nums);
      var minimum := MinOf(col.cells.nums);
      if maximum.None? {
        assert !HasValue(col);
        assert FirstFailing(ns, HasValue) == j;
        return Err(TypeError(col.name));
      }
      rows := rows + [SummaryRow(col.name, maximum.value, minimum.value)];
    }
    assert rows == SummaryReport(df).value;
    r := Ok(rows);
  }

  /** The summary fails exactly when some numeric column has no present entry; the
      `TypeError` names the first such column. */
  lemma SummaryFailsIff(df: Frame)
    ensures SummaryReport(df).Err? <==>
      exists i :: 0 <= i < |df.columns| && KindOf(df.columns[i]) == Numeric && !HasValue(df.columns[i])
    ensures SummaryReport(df).Err? ==>
      var ns := SelectKind(df.columns, Numeric);
      && (exists j :: 0 <= j < |ns| && !HasValue(ns[j]))
      && SummaryReport(df).error == TypeError(ns[FirstFailing(ns, HasValue)].name)
  {
    var ix := IndicesOfKind(df.columns, Numeric);
    var ns := SelectKind(df.columns, Numeric);
    if SummaryReport(df).Err? {
      var j :| 0 <= j < |ns| && !HasValue(ns[j]);
      assert ns[j] == df.columns[ix[j]];
    }
    if exists i :: 0 <= i < |df.columns| && KindOf(df.columns[i]) == Numeric && !HasValue(df.columns[i]) {
      var i :| 0 <= i < |df.columns| && KindOf(df.columns[i]) == Numeric && !HasValue(df.columns[i]);
      var j :| 0 <= j < |ix| && ix[j] == i;
      assert !HasValue(ns[j]);
    }
  }

  /** The summary has one row per numeric column, in frame order. */
  lemma SummaryRowsInOrder(df: Frame)
    requires SummaryReport(df).Ok?
    ensures var ix := IndicesOfKind(df.columns, Numeric);
      && |SummaryReport(df).value| == |ix|
      && forall j :: 0 <= j < |ix| ==> SummaryReport(df).value[j].column == df.columns[ix[j]].name
  {
  }

  /** In every row the reported min and max are entries of the column, min <= max, and no
      present entry lies outside [min, max]. */
  lemma SummaryBounds(df: Frame)
    requires SummaryReport(df).Ok?
    ensures var ns := SelectKind(df.columns, Numeric);
      forall j :: 0 <= j < |ns| ==>
        var row := SummaryReport(df).value[j];
        var xs := ns[j].cells.nums;
        && row.minimum <= row.maximum
        && Some(row.maximum) in xs && Some(row.minimum) in xs
        && forall i :: 0 <= i < |xs| && xs[i].Some? ==> row.minimum <= xs[i].value <= row.maximum
  {
    var ns := SelectKind(df.columns, Numeric);
    forall j | 0 <= j < |ns|
      ensures MinOf(ns[j].cells.nums).value <= MaxOf(ns[j].cells.nums).value
    {
      var xs := ns[j].cells.nums;
      var i :| 0 <= i < |xs| && xs[i].Some?;
      assert MinOf(xs).value <= xs[i].value <= MaxOf(xs).value;
    }
  }

  // ---------------------------------------------------------------------------
  // Categorical overview

  datatype CategoryRow = CategoryRow(column: string, unique: nat, mostCommon: Option<string>, frequency: nat)

  /** The beginning of the message Polars gives when `.item()` is called on a frame that is
      not 1 x 1 (the full message goes on to mention explicit row/column arguments and the
      frame's shape). */
  const ItemOnEmpty: string := "can only call `.item()` if the dataframe is of shape (1, 1)"

  predicate NonEmpty(c: Column) { Length(c) > 0 }

  function CategoryRowOf(c: Column): CategoryRow
    requires c.cells.StringCells? && NonEmpty(c)
  {
    var xs := c.cells.strs;
    var top := Mode(xs);
    CategoryRow(c.name, NUnique(xs), top, Count(xs, top))
  }

  /** What `categorical_column_info` adds to its table: per string column, the number of
      distinct values, the top value of the count-sorted value counts and its count; a string
      column without entries has no top row, and `.item()` raises. */
  function CategoricalReport(df: Frame): (r: Result<seq<CategoryRow>, Fault>)
    ensures r.Ok? ==> |r.value| == |SelectKind(df.columns, Categorical)|
    ensures r.Err? ==> r.error.ValueError?
  {
    var ss := SelectKind(df.columns, Categorical);
    if forall j :: 0 <= j < |ss| ==> NonEmpty(ss[j]) then
      Ok(seq(|ss|, j requires 0 <= j < |ss| => CategoryRowOf(ss[j])))
    else
      Err(ValueError(ItemOnEmpty))
  }

  /** `categorical_column_info`: loops over the string columns and adds a row for each. */
  method CategoricalColumnInfo(df: Frame) returns (r: Result<seq<CategoryRow>, Fault>)
    ensures r == CategoricalReport(df)
  {
    var ss := SelectKind(df.columns, Categorical);
    var rows: seq<CategoryRow> := [];
    for j := 0 to |ss|
      invariant |rows| == j
      invariant forall k :: 0 <= k < j ==> NonEmpty(ss[k]) && rows[k] == CategoryRowOf(ss[k])
    {
      var col := ss[j];
      var xs := col.cells.strs;
      var uniqueCount := NUnique(xs);
      if |xs| == 0 {
        return Err(ValueError(ItemOnEmpty));
      }
      var mostCommon := Mode(xs);
      var frequency := Count(xs, mostCommon);
      rows := rows + [CategoryRow(col.name, uniqueCount, mostCommon, frequency)];
    }
    assert rows == CategoricalReport(df).value;
    r := Ok(rows);
  }

  /** On a frame Polars accepts, the overview fails exactly when the frame has no rows
      and at least one string column. */
  lemma CategoricalFailsIff(df: Frame)
    requires Valid(df)
    ensures CategoricalReport(df).Err? <==>
      df.height == 0 && exists i :: 0 <= i < |df.columns| && KindOf(df.columns[i]) == Categorical
    ensures CategoricalReport(df).Err? ==> CategoricalReport(df).error == ValueError(ItemOnEmpty)
  {
    var ix := IndicesOfKind(df.columns, Categorical);
    var ss := SelectKind(df.columns, Categorical);
    if CategoricalReport(df).Err? {
      var j :| 0 <= j < |ss| && !NonEmpty(ss[j]);
      assert ss[j] == df.columns[ix[j]];
    }
    if df.height == 0 && exists i :: 0 <= i < |df.columns| && KindOf(df.columns[i]) == Categorical {
      var i :| 0 <= i < |df.columns| && KindOf(df.columns[i]) == Categorical;
      var j :| 0 <= j < |ix| && ix[j] == i;
      assert !NonEmpty(ss[j]);
    }
  }

  /** The overview has one row per string column, in frame order. */
  lemma CategoricalRowsInOrder(df: Frame)
    requires CategoricalReport(df).Ok?
    ensures var ix := IndicesOfKind(df.columns, Categorical);
      && |CategoricalReport(df).value| == |ix|
      && forall j :: 0 <= j < |ix| ==> CategoricalReport(df).value[j].column == df.columns[ix[j]].name
  {
  }

  /** In every row: 1 <= unique count <= height; the most common value occurs in the
      column, its frequency is its count, at least every other value's count, and at most
      the height; and every value met before its first occurrence is less frequent. */
  lemma CategoricalBounds(df: Frame)
    requires Valid(df)
    requires CategoricalReport(df).Ok?
    ensures var ss := SelectKind(df.columns, Categorical);
      forall j :: 0 <= j < |ss| ==>
        var row := CategoricalReport(df).value[j];
        var xs := ss[j].cells.strs;
        && row.unique == |Distinct(xs)|
        && 1 <= row.unique <= df.height
        && row.mostCommon in xs
        && row.frequency == Count(xs, row.mostCommon)
        && 1 <= row.frequency <= df.height
        && (forall v :: Count(xs, v) <= row.frequency)
        && (forall i :: 0 <= i < FirstIndex(xs, row.mostCommon) ==> Count(xs, xs[i]) < row.frequency)
  {
    var ix := IndicesOfKind(df.columns, Categorical);
    var ss := SelectKind(df.columns, Categorical);
    forall j | 0 <= j < |ss|
      ensures |ss[j].cells.strs| == df.height
      ensures var xs := ss[j].cells.strs;
        forall i :: 0 <= i < FirstIndex(xs, Mode(xs)) ==> Count(xs, xs[i]) < Count(xs, Mode(xs))
    {
      assert ss[j] == df.columns[ix[j]];
      ModeTieBreak(ss[j].cells.strs);
    }
  }

  /** The most common value covers at least a 1/unique share of the rows:
      unique * frequency >= height. */
  lemma CategoricalFrequencyBound(df: Frame)
    requires Valid(df)
    requires CategoricalReport(df).Ok?
    ensures var ss := SelectKind(df.columns, Categorical);
      forall j :: 0 <= j < |ss| ==>
        df.height <= CategoricalReport(df).value[j].unique * CategoricalReport(df).value[j].frequency
  {
    var ix := IndicesOfKind(df.columns, Categorical);
    var ss := SelectKind(df.columns, Categorical);
    forall j | 0 <= j < |ss|
      ensures df.height <= CategoricalReport(df).value[j].unique * CategoricalReport(df).value[j].frequency
    {
      assert ss[j] == df.columns[ix[j]];
      ModeFrequencyBound(ss[j].cells.strs);
    }
  }

  // ---------------------------------------------------------------------------
  // Worked examples

  /** Columns foo = [1, null, 3] and bar = [6, 7, null] at threshold 10: one null each,
      a third of the rows, both red. */
  lemma NullReportExample()
    ensures
      var df := Frame(3, [ Column("foo", NumericCells([Some(1.0), None, Some(3.0)])),
                           Column("bar", NumericCells([Some(6.0), Some(7.0), None])) ]);
      NullReport(df, 10) == Ok([ NullRow("foo", 1, 100.0 / 3.0, Red), NullRow("bar", 1, 100.0 / 3.0, Red) ])
  {
    var foo: seq<Option<real>> := [Some(1.0), None, Some(3.0)];
    var bar: seq<Option<real>> := [Some(6.0), Some(7.0), None];
    var df := Frame(3, [ Column("foo", NumericCells(foo)), Column("bar", NumericCells(bar)) ]);
    assert foo[..2][..1] == [Some(1.0)] && foo[..2] == [Some(1.0), None];
    assert NullCount(foo) == 1;
    assert bar[..2][..1] == [Some(6.0)] && bar[..2] == [Some(6.0), Some(7.0)];
    assert NullCount(bar) == 1;
    var counts := NullCounts(df);
    assert counts[0] == 1 && counts[1] == 1;
    assert NullPercent(1, 3) == 100.0 / 3.0;
    assert NullStyle(1, 3, 10) == Red;
    var rows := [ NullRow("foo", 1, 100.0 / 3.0, Red), NullRow("bar", 1, 100.0 / 3.0, Red) ];
    assert NullRowOf(df.columns[0], counts[0], 3, 10) == rows[0];
    assert NullRowOf(df.columns[1], counts[1], 3, 10) == rows[1];
    var r := NullReport(df, 10);
    assert r.Ok? && |r.value| == 2;
    assert r.value[0] == rows[0] && r.value[1] == rows[1];
    assert r.value == rows;
  }

  /** The column a, b, a, c, a used by CategoricalExample, described entry by entry. */
  predicate IsLetters(xs: seq<Option<string>>) {
    |xs| == 5 && xs[0] == Some("a") && xs[1] == Some("b") && xs[2] == Some("a")
    && xs[3] == Some("c") && xs[4] == Some("a")
  }

  /** The counts of each letter, taking one prefix at a time. */
  lemma LettersCounts(xs: seq<Option<string>>)
    requires IsLetters(xs)
    ensures Count(xs, Some("a")) == 3 && Count(xs, Some("b")) == 1 && Count(xs, Some("c")) == 1
  {
    var a, b, c := Some("a"), Some("b"), Some("c");
    assert xs[..1][..0] == [] && xs[..2][..1] == xs[..1] && xs[..3][..2] == xs[..2];
    assert xs[..4][..3] == xs[..3];
    assert Count(xs[..1], a) == 1 && Count(xs[..1], b) == 0 && Count(xs[..1], c) == 0;
    assert Count(xs[..2], a) == 1 && Count(xs[..2], b) == 1 && Count(xs[..2], c) == 0;
    assert Count(xs[..3], a) == 2 && Count(xs[..3], b) == 1 && Count(xs[..3], c) == 0;
    assert Count(xs[..4], a) == 2 && Count(xs[..4], b) == 1 && Count(xs[..4], c) == 1;
  }

  /** The column holds three distinct values. */
  lemma LettersUnique(xs: seq<Option<string>>)
    requires IsLetters(xs)
    ensures NUnique(xs) == 3
  {
    var a, b, c := Some("a"), Some("b"), Some("c");
    assert Distinct(xs) == {a, b, c} by {
      forall v ensures v in Distinct(xs) <==> v in {a, b, c} {
        assert v in xs <==> v == xs[0] || v == xs[1] || v == xs[2] || v == xs[3] || v == xs[4];
      }
    }
  }

  /** "a" is the most common value of the column. */
  lemma LettersMode(xs: seq<Option<string>>)
    requires IsLetters(xs)
    ensures Mode(xs) == Some("a")
  {
    LettersCounts(xs);
    var m := Mode(xs);
    assert m == Some("a") || m == Some("b") || m == Some("c");
    assert Count(xs, m) >= 3;
  }

  /** A string column a, b, a, c, a: three distinct values, "a" most common, three times. */
  lemma CategoricalExample(xs: seq<Option<string>>)
    requires IsLetters(xs)
    ensures CategoricalReport(Frame(5, [ Column("s", StringCells(xs)) ])) == Ok([ CategoryRow("s", 3, Some("a"), 3) ])
  {
    var cols := [ Column("s", StringCells(xs)) ];
    assert cols[..0] == [];
    assert IndicesOfKind(cols, Categorical) == [0];
    assert SelectKind(cols, Categorical) == cols;
    LettersCounts(xs);
    LettersUnique(xs);
    LettersMode(xs);
    assert NonEmpty(cols[0]);
    var row := CategoryRowOf(cols[0]);
    assert row == CategoryRow("s", 3, Some("a"), 3);
    var ss := SelectKind(cols, Categorical);
    assert forall j :: 0 <= j < |ss| ==> NonEmpty(ss[j]);
    assert seq(|ss|, j requires 0 <= j < |ss| => CategoryRowOf(ss[j])) == [row];
  }

  // ---------------------------------------------------------------------------
  // Running the analyzers again

  /** Everything the five analyzers add to their tables for one frame. */
  datatype Profile = Profile(
    stats: seq<StatRow>,
    nulls: Result<seq<NullRow>, Fault>,
    schema: seq<SchemaRow>,
    summary: Result<seq<SummaryRow>, Fault>,
    categories: Result<seq<CategoryRow>, Fault>)

  method RunAnalyzers(df: Frame, threshold: int) returns (p: Profile)
    ensures p.nulls == NullReport(df, threshold) && p.schema == SchemaListing(df)
    ensures p.summary == SummaryReport(df) && p.categories == CategoricalReport(df)
    ensures p.stats == BasicStats(df)
  {
    var nulls := CheckNullCounts(df, threshold);
    var schema := PrintSchema(df);
    var summary := ComputeSummaryStats(df);
    var categories := CategoricalColumnInfo(df);
    p := Profile(BasicStats(df), nulls, schema, summary, categories);
  }

  /** Each analyzer only reads the frame, an immutable value: running all of them a second
      time on the same frame yields the same rows. */
  method ProfileTwice(df: Frame, threshold: int) returns (first: Profile, second: Profile)
    ensures first == second
  {
    first := RunAnalyzers(df, threshold);
    second := RunAnalyzers(df, threshold);
  }
}
