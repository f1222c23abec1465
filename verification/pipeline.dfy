/** `clean_and_analyze`: the stages in their fixed order over one data frame.
    The frame is a class whose columns and rows the in-place stages
    (`convert_dtypes`, `handle_missing_values`, `normalize_categorical`,
    `add_derived_columns` and the flag columns of the outlier stage) update by
    column assignment; the stages that return a new frame (`rename`,
    `dropna`, `drop_duplicates`, row selection) rebind it. Every method is
    stated against the function of the stage it runs. */
module Pipeline {
  import opened Tables
  import opened Text
  import opened Headers
  import opened Cleaning
  import opened Deduplication
  import opened Outliers
  import opened Summary

  // ---------------------------------------------------------------------------
  // Renaming the columns of a table

  /** One row under new column names: the cell of `from[j]` moves to `to[j]`. */
  function RelabelRow(row: Row, from: seq<string>, to: seq<string>): (r: Row)
    requires |from| == |to| && Distinct(to)
    requires forall j :: 0 <= j < |from| ==> from[j] in row
    ensures r.Keys == ColumnSet(to)
    ensures forall j :: 0 <= j < |to| ==> r[to[j]] == row[from[j]]
  {
    var r := map j | 0 <= j < |to| :: to[j] := row[from[j]];
    assert forall c :: c in r <==> c in to by {
      forall c ensures c in r <==> c in to {
        if c in to {
          var j :| 0 <= j < |to| && to[j] == c;
          assert c in r;
        }
      }
    }
    r
  }

  /** `rename(columns=...)` with the new header list: column `j` is renamed
      to `names[j]`, its cells and its place kept. */
  function Relabel(t: Table, names: seq<string>): (r: Table)
    requires WellFormed(t) && |names| == |t.columns| && Distinct(names)
    ensures WellFormed(r) && r.columns == names && |r.rows| == |t.rows|
    ensures forall i, j :: 0 <= i < |t.rows| && 0 <= j < |names| ==> r.rows[i][names[j]] == t.rows[i][t.columns[j]]
  {
    Table(names, seq(|t.rows|, i requires 0 <= i < |t.rows| => RelabelRow(t.rows[i], t.columns, names)))
  }

  /** `standardize_column_names` on a table whose standardised headers are
      distinct. */
  function StandardizeTable(t: Table): (r: Table)
    requires WellFormed(t) && Distinct(Standardized(t.columns))
    ensures WellFormed(r) && r.columns == Standardized(t.columns) && |r.rows| == |t.rows|
    ensures forall i, j :: 0 <= i < |t.rows| && 0 <= j < |t.columns| ==>
              r.rows[i][Standardized(t.columns)[j]] == t.rows[i][t.columns[j]]
  {
    Relabel(t, Standardized(t.columns))
  }

  // ---------------------------------------------------------------------------
  // The data frame

  class Frame {
    var columns: seq<string>
    var rows: seq<Row>

    function Snapshot(): Table
      reads this
    {
      Table(columns, rows)
    }

    ghost predicate Valid()
      reads this
    {
      WellFormed(Snapshot())
    }

    constructor (t: Table)
      requires WellFormed(t)
      ensures Valid() && Snapshot() == t
    {
      columns := t.columns;
      rows := t.rows;
    }

    /** `df[c] = col` */
    method Assign(c: string, col: seq<Value>)
      requires Valid() && |col| == |rows|
      modifies this
      ensures Valid() && Snapshot() == WithColumn(old(Snapshot()), c, col)
    {
      var t := WithColumn(Snapshot(), c, col);
      columns := t.columns;
      rows := t.rows;
    }

    /** `if c in df.columns: df[c] = f(df[c])` */
    method AssignIfPresent(c: string, f: Value -> Value)
      requires Valid()
      modifies this
      ensures Valid() && Snapshot() == MapColumnIfPresent(old(Snapshot()), c, f)
    {
      if c in columns {
        Assign(c, MapSeq(Column(Snapshot(), c), f));
      }
    }

    method StandardizeColumnNames()
      requires Valid() && Distinct(Standardized(columns))
      modifies this
      ensures Valid() && Snapshot() == StandardizeTable(old(Snapshot()))
    {
      var names := StandardizeHeaders(columns);
      var t := Relabel(Snapshot(), names);
      columns := t.columns;
      rows := t.rows;
    }

    method ConvertDtypes(codec: Codec)
      requires Valid()
      modifies this
      ensures Valid() && Snapshot() == Cleaning.ConvertDtypes(old(Snapshot()), codec)
    {
      AssignIfPresent("invoice_date", Coercion("invoice_date", codec));
      AssignIfPresent("quantity", Coercion("quantity", codec));
      AssignIfPresent("unit_price", Coercion("unit_price", codec));
    }

    method DropInvalidInvoices()
      requires Valid()
      modifies this
      ensures Valid() && Snapshot() == Cleaning.DropInvalidInvoices(old(Snapshot()))
    {
      rows := Cleaning.DropInvalidInvoices(Snapshot()).rows;
    }

    method HandleMissingValues(codec: Codec)
      requires Valid() && CastableIds(Snapshot(), codec)
      modifies this
      ensures Valid() && Snapshot() == Cleaning.HandleMissingValues(old(Snapshot()), codec)
    {
      AssignIfPresent("description", FillUnknown);
      AssignIfPresent("description", Trim(codec));
      AssignIfPresent("customer_id", Cast(codec));
    }

    method NormalizeCategorical(codec: Codec)
      requires Valid()
      modifies this
      ensures Valid() && Snapshot() == Cleaning.NormalizeCategorical(old(Snapshot()), codec)
    {
      AssignIfPresent("description", Trim(codec));
      AssignIfPresent("country", CountryCleaner(codec));
    }

    method AddDerivedColumns()
      requires Valid()
      modifies this
      ensures Valid() && Snapshot() == Cleaning.AddDerivedColumns(old(Snapshot()))
    {
      if "quantity" in columns && "unit_price" in columns {
        Assign("total_value", Products(Snapshot()));
      }
      if "invoice_date" in columns {
        Assign("year", MapSeq(Column(Snapshot(), "invoice_date"), YearOf));
        Assign("month", MapSeq(Column(Snapshot(), "invoice_date"), MonthOf));
      }
    }

    /** Returns the duplicate log and keeps the first occurrences. */
    method DeduplicateAndLog() returns (duplicates: seq<Row>)
      requires Valid()
      modifies this
      ensures Valid() && Snapshot() == DropDuplicates(old(Snapshot()))
      ensures duplicates == DuplicateLog(old(Snapshot())).rows
    {
      duplicates := DuplicateLog(Snapshot()).rows;
      rows := DropDuplicates(Snapshot()).rows;
    }

    /** One `if source in df.columns:` block of the outlier stage: the flag
        column computed by detection and scatter is written into the frame;
        `added` tells whether the column joins `outlier_cols`. */
    method AddFlag(source: string, flag: string) returns (added: bool)
      requires Valid()
      modifies this
      ensures Valid() && Snapshot() == AddFlagColumn(old(Snapshot()), source, flag)
      ensures added == (source in old(columns))
    {
      added := source in columns;
      if added {
        var flags := FlagColumn(Column(Snapshot(), source));
        Assign(flag, AsFlags(flags));
      }
    }

    /** Both `if source in df.columns:` blocks: writes the flag columns and
        collects `outlier_cols`. */
    method AddFlags() returns (outlierCols: seq<string>)
      requires Valid()
      modifies this
      ensures Valid() && Snapshot() == Flagged(old(Snapshot()))
      ensures outlierCols == OutlierColumns(old(columns))
    {
      ghost var t := Snapshot();
      outlierCols := [];
      var added := AddFlag("quantity", QuantityFlag);
      if added {
        outlierCols := outlierCols + [QuantityFlag];
      }
      assert outlierCols == if "quantity" in t.columns then [QuantityFlag] else [];
      assert "unit_price" in columns <==> "unit_price" in t.columns by {
        assert QuantityFlag != "unit_price";
      }
      ghost var q := outlierCols;
      added := AddFlag("unit_price", PriceFlag);
      if added {
        outlierCols := outlierCols + [PriceFlag];
      }
      assert outlierCols == q + if "unit_price" in t.columns then [PriceFlag] else [];
    }

    /** Writes both flag columns, then returns the outlier log and, with
        `remove`, keeps the unflagged rows. */
    method FlagAndOptionallyRemoveOutliers(remove: bool) returns (log: seq<Row>)
      requires Valid()
      modifies this
      ensures Valid()
      ensures Snapshot() == Outliers.FlagAndOptionallyRemoveOutliers(old(Snapshot()), remove).table
      ensures log == Outliers.FlagAndOptionallyRemoveOutliers(old(Snapshot()), remove).log
    {
      var outlierCols := AddFlags();
      log := [];
      if outlierCols != [] {
        log := FlaggedRows(rows, outlierCols);
        if remove {
          var kept := CleanRows(rows, outlierCols);
          RowsOfSubsequence(Snapshot(), kept);
          rows := kept;
        }
      }
    }
  }

  // ---------------------------------------------------------------------------
  // The stage order

  /** The cleaned table and the two logs. */
  datatype Cleaned = Cleaned(table: Table, duplicates: seq<Row>, outliers: seq<Row>)

  /** The stages composed in `clean_and_analyze` order: standardise, coerce,
      drop invalid invoices, fill and trim, normalise, derive, deduplicate,
      flag (and optionally remove) outliers. */
  function Clean(raw: Table, codec: Codec, remove: bool): (out: Cleaned)
    requires WellFormed(raw) && Distinct(Standardized(raw.columns))
    requires CastableIds(Cleaning.DropInvalidInvoices(Cleaning.ConvertDtypes(StandardizeTable(raw), codec)), codec)
    ensures WellFormed(out.table)
    ensures out.table.columns == FlagColumnsOf(DerivedColumns(Standardized(raw.columns)))
  {
    var t1 := StandardizeTable(raw);
    var t2 := Cleaning.ConvertDtypes(t1, codec);
    var t3 := Cleaning.DropInvalidInvoices(t2);
    var t5 := CleanCells(t3, codec);
    var t6 := Cleaning.AddDerivedColumns(t5);
    var t7 := DropDuplicates(t6);
    var o := Outliers.FlagAndOptionallyRemoveOutliers(t7, remove);
    Cleaned(o.table, DuplicateLog(t6).rows, o.log)
  }

  /** What the run produces: the cleaned table, the two logs and the summary. */
  datatype Run = Run(cleaned: Table, duplicates: seq<Row>, outliers: seq<Row>, report: Report)

  /** Reading and writing files left aside, the whole run: the frame goes
      through every stage in order, then the summary is computed from the
      cleaned table. */
  method CleanAndAnalyze(raw: Table, codec: Codec, remove: bool) returns (run: Run)
    requires WellFormed(raw) && Distinct(Standardized(raw.columns))
    requires CastableIds(Cleaning.DropInvalidInvoices(Cleaning.ConvertDtypes(StandardizeTable(raw), codec)), codec)
    ensures run.cleaned == Clean(raw, codec, remove).table
    ensures run.duplicates == Clean(raw, codec, remove).duplicates
    ensures run.outliers == Clean(raw, codec, remove).outliers
    ensures DatedHasCalendar(run.cleaned) && run.report == CreateSummaryTables(run.cleaned)
  {
    var df := new Frame(raw);
    df.StandardizeColumnNames();
    df.ConvertDtypes(codec);
    df.DropInvalidInvoices();
    df.HandleMissingValues(codec);
    df.NormalizeCategorical(codec);
    df.AddDerivedColumns();
    var duplicates := df.DeduplicateAndLog();
    var outliers := df.FlagAndOptionallyRemoveOutliers(remove);
    var cleaned := df.Snapshot();
    CleanedHasCalendar(raw, codec, remove);
    run := Run(cleaned, duplicates, outliers, CreateSummaryTables(cleaned));
  }

  // ---------------------------------------------------------------------------
  // What the order guarantees

  /** Every cell of column `c` satisfies `P`. */
  ghost predicate CellsSatisfy(t: Table, c: string, P: Value -> bool) {
    forall i :: 0 <= i < |t.rows| && c in t.rows[i] ==> P(t.rows[i][c])
  }

  /** A table with dates also has the year and month columns the monthly
      revenue groups by. */
  predicate DatedHasCalendar(t: Table) {
    "invoice_date" in t.columns ==> "year" in t.columns && "month" in t.columns
  }

  predicate IsPresent(v: Value) {
    v != Missing
  }

  predicate IsDate(v: Value) {
    v.Date?
  }

  predicate MissingOrDate(v: Value) {
    v == Missing || v.Date?
  }

  predicate IsText(v: Value) {
    v.Str?
  }

  predicate TrimmedText(v: Value) {
    v.Str? && Trimmed(v.s)
  }

  predicate IsDerived(c: string) {
    c == "total_value" || c == "year" || c == "month"
  }

  predicate IsFlag(c: string) {
    c == QuantityFlag || c == PriceFlag
  }

  /** Adding the derived columns leaves every other column and its cells. */
  lemma DerivePreserves(t: Table, c: string, P: Value -> bool)
    requires WellFormed(t) && !IsDerived(c) && CellsSatisfy(t, c, P)
    ensures var r := Cleaning.AddDerivedColumns(t);
            && CellsSatisfy(r, c, P)
            && (c in r.columns <==> c in t.columns)
            && DatedHasCalendar(r)
  {
    var r := Cleaning.AddDerivedColumns(t);
    DerivedColumnsSpec(t.columns);
    forall i | 0 <= i < |r.rows| && c in r.rows[i] ensures P(r.rows[i][c]) {
      AddDerivedColumnsSpec(t, i);
    }
  }

  /** Deduplication keeps rows of the table, columns unchanged. */
  lemma DedupPreserves(t: Table, c: string, P: Value -> bool)
    requires WellFormed(t) && CellsSatisfy(t, c, P)
    ensures CellsSatisfy(DropDuplicates(t), c, P)
  {
    var d := DropDuplicates(t);
    DedupSpec(t.rows);
    forall i | 0 <= i < |d.rows| && c in d.rows[i] ensures P(d.rows[i][c]) {
      assert d.rows[i] in t.rows;
    }
  }

  /** Flagging leaves every column but the flags. */
  lemma FlaggedPreserves(t: Table, c: string, P: Value -> bool)
    requires WellFormed(t) && !IsFlag(c) && CellsSatisfy(t, c, P)
    ensures CellsSatisfy(Flagged(t), c, P) && (c in Flagged(t).columns <==> c in t.columns)
  {
    var f := Flagged(t);
    FlagColumnsSpec(t.columns);
    forall i | 0 <= i < |f.rows| && c in f.rows[i] ensures P(f.rows[i][c]) {
      FlaggedSpec(t, i);
    }
  }

  /** The outlier stage leaves every column but the flags and keeps rows of
      the flagged table. */
  lemma OutliersPreserve(t: Table, remove: bool, c: string, P: Value -> bool)
    requires WellFormed(t) && !IsFlag(c) && CellsSatisfy(t, c, P)
    ensures var r := Outliers.FlagAndOptionallyRemoveOutliers(t, remove).table;
            && CellsSatisfy(r, c, P)
            && (c in r.columns <==> c in t.columns)
  {
    var f := Flagged(t);
    var r := Outliers.FlagAndOptionallyRemoveOutliers(t, remove).table;
    FlaggedPreserves(t, c, P);
    if remove {
      OutlierRemovalSpec(t);
      forall i | 0 <= i < |r.rows| && c in r.rows[i] ensures P(r.rows[i][c]) {
        assert r.rows[i] in r.rows;
      }
    } else {
      OutlierKeepSpec(t);
    }
  }

  /** After the run the year and month columns exist wherever dates do, as
      the monthly revenue needs. */
  lemma CleanedHasCalendar(raw: Table, codec: Codec, remove: bool)
    requires WellFormed(raw) && Distinct(Standardized(raw.columns))
    requires CastableIds(Cleaning.DropInvalidInvoices(Cleaning.ConvertDtypes(StandardizeTable(raw), codec)), codec)
    ensures DatedHasCalendar(Clean(raw, codec, remove).table)
  {
    var cols := Standardized(raw.columns);
    DerivedColumnsSpec(cols);
    FlagColumnsSpec(DerivedColumns(cols));
  }

  /** The two cell stages leave every column but description, country and
      customer_id. */
  lemma CleanCellsPreserve(t: Table, codec: Codec, c: string, P: Value -> bool)
    requires WellFormed(t) && CastableIds(t, codec)
    requires c != "description" && c != "country" && c != "customer_id" && CellsSatisfy(t, c, P)
    ensures CellsSatisfy(CleanCells(t, codec), c, P)
  {
    var r := CleanCells(t, codec);
    forall i | 0 <= i < |r.rows| && c in r.rows[i] ensures P(r.rows[i][c]) {
      CleanRowSpec(t.rows[i], codec);
    }
  }

  /** The stages after cell cleaning keep each cell of a column they do not
      write. */
  lemma AfterCellsPreserve(t5: Table, remove: bool, c: string, P: Value -> bool)
    requires WellFormed(t5) && CellsSatisfy(t5, c, P) && !IsDerived(c) && !IsFlag(c)
    ensures var t6 := Cleaning.AddDerivedColumns(t5);
            CellsSatisfy(Outliers.FlagAndOptionallyRemoveOutliers(DropDuplicates(t6), remove).table, c, P)
  {
    var t6 := Cleaning.AddDerivedColumns(t5);
    DerivePreserves(t5, c, P);
    DedupPreserves(t6, c, P);
    OutliersPreserve(DropDuplicates(t6), remove, c, P);
  }

  /** The stages after the validity filter keep each cell of a column they do
      not write. */
  lemma LaterStagesPreserve(t3: Table, codec: Codec, remove: bool, c: string, P: Value -> bool)
    requires WellFormed(t3) && CastableIds(t3, codec) && CellsSatisfy(t3, c, P)
    requires c != "description" && c != "country" && c != "customer_id" && !IsDerived(c) && !IsFlag(c)
    ensures var t5 := CleanCells(t3, codec);
            var t6 := Cleaning.AddDerivedColumns(t5);
            CellsSatisfy(Outliers.FlagAndOptionallyRemoveOutliers(DropDuplicates(t6), remove).table, c, P)
  {
    CleanCellsPreserve(t3, codec, c, P);
    AfterCellsPreserve(CleanCells(t3, codec), remove, c, P);
  }

  /** After coercion the dates are dates or missing. */
  lemma CoercedDates(t1: Table, codec: Codec)
    requires WellFormed(t1)
    ensures CellsSatisfy(Cleaning.ConvertDtypes(t1, codec), "invoice_date", MissingOrDate)
  {
    var t2 := Cleaning.ConvertDtypes(t1, codec);
    forall i | 0 <= i < |t2.rows| && "invoice_date" in t2.rows[i]
      ensures t2.rows[i]["invoice_date"] == Missing || t2.rows[i]["invoice_date"].Date?
    {
      ConvertDtypesTypes(t1, codec, i);
    }
  }

  /** After the validity filter the invoice numbers are present and the
      invoice dates are dates. */
  lemma FilteredInvoices(t2: Table)
    requires WellFormed(t2) && CellsSatisfy(t2, "invoice_date", MissingOrDate)
    ensures var t3 := Cleaning.DropInvalidInvoices(t2);
            && CellsSatisfy(t3, "invoice_no", IsPresent)
            && CellsSatisfy(t3, "invoice_date", IsDate)
  {
    var t3 := Cleaning.DropInvalidInvoices(t2);
    forall i | 0 <= i < |t3.rows|
      ensures "invoice_no" in t3.rows[i] ==> t3.rows[i]["invoice_no"] != Missing
      ensures "invoice_date" in t3.rows[i] ==> t3.rows[i]["invoice_date"].Date?
    {
      var row := t3.rows[i];
      assert row in t3.rows;
      assert row.Keys == ColumnSet(t2.columns);
    }
  }

  /** Every row of the cleaned table has an invoice number and a parsed
      invoice date, for whichever of the two columns the data has. */
  lemma CleanedInvoicesComplete(raw: Table, codec: Codec, remove: bool)
    requires WellFormed(raw) && Distinct(Standardized(raw.columns))
    requires CastableIds(Cleaning.DropInvalidInvoices(Cleaning.ConvertDtypes(StandardizeTable(raw), codec)), codec)
    ensures CellsSatisfy(Clean(raw, codec, remove).table, "invoice_no", IsPresent)
    ensures CellsSatisfy(Clean(raw, codec, remove).table, "invoice_date", IsDate)
  {
    var t1 := StandardizeTable(raw);
    var t2 := Cleaning.ConvertDtypes(t1, codec);
    var t3 := Cleaning.DropInvalidInvoices(t2);
    CoercedDates(t1, codec);
    FilteredInvoices(t2);
    LaterStagesPreserve(t3, codec, remove, "invoice_no", IsPresent);
    LaterStagesPreserve(t3, codec, remove, "invoice_date", IsDate);
  }

  /** Every description of the cleaned table is trimmed text and every
      country is text. */
  lemma CleanedText(raw: Table, codec: Codec, remove: bool)
    requires WellFormed(raw) && Distinct(Standardized(raw.columns))
    requires CastableIds(Cleaning.DropInvalidInvoices(Cleaning.ConvertDtypes(StandardizeTable(raw), codec)), codec)
    ensures CellsSatisfy(Clean(raw, codec, remove).table, "description", TrimmedText)
    ensures CellsSatisfy(Clean(raw, codec, remove).table, "country", IsText)
  {
    var t3 := Cleaning.DropInvalidInvoices(Cleaning.ConvertDtypes(StandardizeTable(raw), codec));
    CleanedCellsText(t3, codec);
    TextColumnsKept();
    CleanedKeeps(raw, codec, remove, "description", TrimmedText);
    CleanedKeeps(raw, codec, remove, "country", IsText);
  }

  /** Neither the derived columns nor the flag columns are the text columns. */
  lemma TextColumnsKept()
    ensures !IsDerived("description") && !IsFlag("description")
    ensures !IsDerived("country") && !IsFlag("country")
  {
  }

  /** What holds of a column after cell cleaning holds in the cleaned table,
      when no later stage writes that column. */
  lemma CleanedKeeps(raw: Table, codec: Codec, remove: bool, c: string, P: Value -> bool)
    requires WellFormed(raw) && Distinct(Standardized(raw.columns))
    requires CastableIds(Cleaning.DropInvalidInvoices(Cleaning.ConvertDtypes(StandardizeTable(raw), codec)), codec) && !IsDerived(c) && !IsFlag(c)
    requires var t3 := Cleaning.DropInvalidInvoices(Cleaning.ConvertDtypes(StandardizeTable(raw), codec));
             CellsSatisfy(CleanCells(t3, codec), c, P)
    ensures CellsSatisfy(Clean(raw, codec, remove).table, c, P)
  {
    var t3 := Cleaning.DropInvalidInvoices(Cleaning.ConvertDtypes(StandardizeTable(raw), codec));
    AfterCellsPreserve(CleanCells(t3, codec), remove, c, P);
  }

  /** Cell cleaning leaves trimmed descriptions and textual countries. */
  lemma CleanedCellsText(t3: Table, codec: Codec)
    requires WellFormed(t3) && CastableIds(t3, codec)
    ensures CellsSatisfy(CleanCells(t3, codec), "description", TrimmedText)
    ensures CellsSatisfy(CleanCells(t3, codec), "country", IsText)
  {
    var t5 := CleanCells(t3, codec);
    forall i | 0 <= i < |t5.rows|
      ensures "description" in t5.rows[i] ==> TrimmedText(t5.rows[i]["description"])
      ensures "country" in t5.rows[i] ==> IsText(t5.rows[i]["country"])
    {
      CleanRowSpec(t3.rows[i], codec);
    }
  }

  /** Two different rows with the same columns differ in some cell. */
  lemma RowsDifferAt(a: Row, b: Row)
    requires a.Keys == b.Keys && a != b
    ensures exists c :: c in a && a[c] != b[c]
  {
    assert !(forall c :: c in a ==> a[c] == b[c]);
  }

  /** A sequence in which nothing occurs twice has no repeats. */
  lemma DistinctFromCounts<T>(s: seq<T>)
    requires forall x :: multiset(s)[x] <= 1
    ensures Distinct(s)
  {
    forall i, j | 0 <= i < j < |s| ensures s[i] != s[j] {
      CountAboveOneIffTwin(s, i);
    }
  }

  /** Flag columns that are new keep different rows different. */
  lemma FlaggedDistinct(t: Table)
    requires WellFormed(t) && Distinct(t.rows)
    requires QuantityFlag !in t.columns && PriceFlag !in t.columns
    ensures Distinct(Flagged(t).rows)
  {
    var f := Flagged(t);
    forall i, j | 0 <= i < j < |f.rows| ensures f.rows[i] != f.rows[j] {
      assert t.rows[i] != t.rows[j];
      RowsDifferAt(t.rows[i], t.rows[j]);
      var c :| c in t.rows[i] && t.rows[i][c] != t.rows[j][c];
      FlaggedKeeps(t, i, c);
      FlaggedKeeps(t, j, c);
    }
  }

  /** A column that is not a flag column keeps its cell under flagging. */
  lemma FlaggedKeeps(t: Table, i: nat, c: string)
    requires WellFormed(t) && i < |t.rows| && c in t.rows[i]
    requires QuantityFlag !in t.columns && PriceFlag !in t.columns
    ensures c in Flagged(t).rows[i] && Flagged(t).rows[i][c] == t.rows[i][c]
  {
    FlaggedSpec(t, i);
  }

  /** The outlier stage keeps a table without repeated rows free of them. */
  lemma OutliersDistinct(t: Table, remove: bool)
    requires WellFormed(t) && Distinct(t.rows)
    requires QuantityFlag !in t.columns && PriceFlag !in t.columns
    ensures Distinct(Outliers.FlagAndOptionallyRemoveOutliers(t, remove).table.rows)
  {
    var f := Flagged(t);
    FlaggedDistinct(t);
    if remove {
      var r := Outliers.FlagAndOptionallyRemoveOutliers(t, true);
      OutlierRemovalSpec(t);
      DistinctNoTwins(f.rows);
      forall x ensures multiset(r.table.rows)[x] <= 1 {
        assert multiset(r.table.rows)[x] <= multiset(f.rows)[x];
      }
      DistinctFromCounts(r.table.rows);
    } else {
      OutlierKeepSpec(t);
    }
  }

  /** The cleaned table has no two equal rows: deduplication runs after every
      stage that rewrites cells, and the flag columns only add cells (when
      the data does not already carry columns of those names). */
  lemma CleanedRowsDistinct(raw: Table, codec: Codec, remove: bool)
    requires WellFormed(raw) && Distinct(Standardized(raw.columns))
    requires CastableIds(Cleaning.DropInvalidInvoices(Cleaning.ConvertDtypes(StandardizeTable(raw), codec)), codec)
    requires QuantityFlag !in Standardized(raw.columns) && PriceFlag !in Standardized(raw.columns)
    ensures Distinct(Clean(raw, codec, remove).table.rows)
  {
    var t3 := Cleaning.DropInvalidInvoices(Cleaning.ConvertDtypes(StandardizeTable(raw), codec));
    DistinctAfterCells(CleanCells(t3, codec), remove);
  }

  /** Deduplication, then flags that are new: no repeated rows. */
  lemma DistinctAfterCells(t5: Table, remove: bool)
    requires WellFormed(t5) && QuantityFlag !in t5.columns && PriceFlag !in t5.columns
    ensures var t6 := Cleaning.AddDerivedColumns(t5);
            Distinct(Outliers.FlagAndOptionallyRemoveOutliers(DropDuplicates(t6), remove).table.rows)
  {
    var t6 := Cleaning.AddDerivedColumns(t5);
    DedupSpec(t6.rows);
    DerivedColumnsSpec(t5.columns);
    OutliersDistinct(DropDuplicates(t6), remove);
  }
}
