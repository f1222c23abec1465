/** `flag_and_optionally_remove_outliers`: an IQR flag column for quantity and
    for unit_price, the log of flagged rows and, on request, their removal. */
module Outliers {
  import opened Tables
  import opened Quantiles

  /** The positions `dropna()` keeps: those holding a number. */
  function NumberPositions(col: seq<Value>): (ix: seq<nat>)
    ensures forall k :: 0 <= k < |ix| ==> ix[k] < |col| && col[ix[k]].Num?
    ensures forall k, l :: 0 <= k < l < |ix| ==> ix[k] < ix[l]
    ensures forall i :: 0 <= i < |col| && col[i].Num? ==> i in ix
  {
    TrueIndices(seq(|col|, i requires 0 <= i < |col| => col[i].Num?))
  }

  /** `series.dropna()` as the numbers it holds, in column order. */
  function Numbers(col: seq<Value>): (xs: seq<real>)
    ensures |xs| == |NumberPositions(col)|
    ensures forall k :: 0 <= k < |xs| ==> xs[k] == col[NumberPositions(col)[k]].x
  {
    var ix := NumberPositions(col);
    seq(|ix|, k requires 0 <= k < |ix| => col[ix[k]].x)
  }

  /** Exactly the numbers of the column go into the quartiles. */
  lemma NumbersAreTheNumericCells(col: seq<Value>)
    ensures forall x :: x in Numbers(col) <==> Num(x) in col
  {
    var ix := NumberPositions(col);
    var xs := Numbers(col);
    forall x ensures x in xs <==> Num(x) in col {
      if x in xs {
        var k :| 0 <= k < |xs| && xs[k] == x;
        assert col[ix[k]] == Num(x);
      }
      if Num(x) in col {
        var i :| 0 <= i < |col| && col[i] == Num(x);
        var k :| 0 <= k < |ix| && ix[k] == i;
        assert xs[k] == x;
      }
    }
  }

  /** The flag column for one source column: a number strictly outside the
      fences computed from all numbers of the column is flagged; a missing
      cell is not. */
  function ColumnFlags(col: seq<Value>): (flags: seq<bool>)
    ensures |flags| == |col|
  {
    var b := IqrBounds(Numbers(col));
    seq(|col|, i requires 0 <= i < |col| => col[i].Num? && Outside(col[i].x, b))
  }

  /** `full_mask = pd.Series(False, index=df.index); full_mask[mask.index] = mask`:
      start from all false, then write each detection result back at the
      position its value came from. */
  method Scatter(n: nat, positions: seq<nat>, mask: seq<bool>) returns (full: array<bool>)
    requires |positions| == |mask| && Distinct(positions)
    requires forall k :: 0 <= k < |positions| ==> positions[k] < n
    ensures fresh(full) && full.Length == n
    ensures forall k :: 0 <= k < |positions| ==> full[positions[k]] == mask[k]
    ensures forall i :: 0 <= i < n && i !in positions ==> !full[i]
  {
    full := new bool[n](i => false);
    var k := 0;
    while k < |positions|
      invariant 0 <= k <= |positions|
      invariant forall j :: 0 <= j < k ==> full[positions[j]] == mask[j]
      invariant forall i :: 0 <= i < n && i !in positions[..k] ==> !full[i]
    {
      full[positions[k]] := mask[k];
      assert positions[..k + 1] == positions[..k] + [positions[k]];
      k := k + 1;
    }
    assert positions[..k] == positions;
  }

  /** Scattering the detection over the column's numbers back to their rows
      gives exactly the column's flags. */
  lemma ScatteredDetection(col: seq<Value>, full: seq<bool>)
    requires |full| == |col|
    requires var ix := NumberPositions(col);
             var mask := DetectOutliersIqr(Numbers(col)).mask;
             && (forall k :: 0 <= k < |ix| ==> full[ix[k]] == mask[k])
             && (forall i :: 0 <= i < |col| && i !in ix ==> !full[i])
    ensures full == ColumnFlags(col)
  {
    var ix := NumberPositions(col);
    var flags := ColumnFlags(col);
    forall i | 0 <= i < |col| ensures full[i] == flags[i] {
      if i in ix {
        var k :| 0 <= k < |ix| && ix[k] == i;
        DetectionAtPosition(col, k);
      }
    }
  }

  /** The k-th detection result is the flag of the k-th number position. */
  lemma DetectionAtPosition(col: seq<Value>, k: nat)
    requires k < |NumberPositions(col)|
    ensures DetectOutliersIqr(Numbers(col)).mask[k] == ColumnFlags(col)[NumberPositions(col)[k]]
  {
  }

  /** The flag column of one source column, computed as the stage computes
      it: detection over the column's numbers, then the scatter. */
  method FlagColumn(col: seq<Value>) returns (flags: seq<bool>)
    ensures flags == ColumnFlags(col)
  {
    var ix := NumberPositions(col);
    var d := DetectOutliersIqr(Numbers(col));
    assert Distinct(ix) by {
      forall k, l | 0 <= k < l < |ix| ensures ix[k] != ix[l] {
        assert ix[k] < ix[l];
      }
    }
    var full := Scatter(|col|, ix, d.mask);
    ScatteredDetection(col, full[..]);
    flags := full[..];
  }

  /** A value exactly on a fence, and a missing cell, are never flagged; the
      fences depend only on the column's numbers, whatever their order. */
  lemma ColumnFlagsSpec(col: seq<Value>, i: nat)
    requires i < |col|
    ensures col[i] == Missing ==> !ColumnFlags(col)[i]
    ensures col[i].Num? ==>
              (ColumnFlags(col)[i] <==>
                 var b := IqrBounds(Numbers(col)).value;
                 col[i].x < b.lower || col[i].x > b.upper)
    ensures col[i].Num? ==> IqrBounds(Numbers(col)).Some?
  {
    var b := IqrBounds(Numbers(col));
    assert ColumnFlags(col)[i] == (col[i].Num? && Outside(col[i].x, b));
    if col[i].Num? {
      NumbersAreTheNumericCells(col);
      assert col[i] in col;
      assert col[i].x in Numbers(col);
    }
  }

  /** Appending a cell to the column appends its number, if it has one. */
  lemma NumbersSnoc(col: seq<Value>)
    requires col != []
    ensures var n := |col| - 1;
            Numbers(col) == Numbers(col[..n]) + if col[n].Num? then [col[n].x] else []
  {
    var n := |col| - 1;
    var m := seq(|col|, i requires 0 <= i < |col| => col[i].Num?);
    var m' := seq(n, i requires 0 <= i < n => col[..n][i].Num?);
    assert m[..n] == m';
    var ix := NumberPositions(col);
    var ix' := NumberPositions(col[..n]);
    assert ix == ix' + if col[n].Num? then [n] else [];
    var tail: seq<real> := if col[n].Num? then [col[n].x] else [];
    assert |Numbers(col)| == |Numbers(col[..n]) + tail|;
    forall k | 0 <= k < |Numbers(col)| ensures Numbers(col)[k] == (Numbers(col[..n]) + tail)[k] {
      if k < |ix'| {
        assert col[..n][ix'[k]] == col[ix'[k]];
      }
    }
  }

  /** The column's numbers built cell by cell, the reference the counting
      below works on. */
  function NumbersOf(col: seq<Value>): seq<real> {
    if col == [] then []
    else
      var n := |col| - 1;
      NumbersOf(col[..n]) + if col[n].Num? then [col[n].x] else []
  }

  lemma {:induction false} NumbersIsNumbersOf(col: seq<Value>)
    ensures Numbers(col) == NumbersOf(col)
    decreases |col|
  {
    if col != [] {
      NumbersSnoc(col);
      NumbersIsNumbersOf(col[..|col| - 1]);
    }
  }

  /** Each number occurs among the column's numbers as often as its cell
      occurs in the column. */
  lemma {:induction false} NumbersOfCount(col: seq<Value>, x: real)
    ensures multiset(NumbersOf(col))[x] == multiset(col)[Num(x)]
    decreases |col|
  {
    if col != [] {
      var n := |col| - 1;
      NumbersOfCount(col[..n], x);
      assert col == col[..n] + [col[n]];
    }
  }

  /** Columns with the same cells, in any order, have the same numbers. */
  lemma NumbersOrderFree(col: seq<Value>, col': seq<Value>)
    requires multiset(col) == multiset(col')
    ensures multiset(Numbers(col)) == multiset(Numbers(col'))
  {
    NumbersIsNumbersOf(col);
    NumbersIsNumbersOf(col');
    forall x ensures multiset(NumbersOf(col))[x] == multiset(NumbersOf(col'))[x] {
      NumbersOfCount(col, x);
      NumbersOfCount(col', x);
    }
  }

  /** The cells at the flagged positions of a column, as `df[mask][c]` holds them. */
  function FlaggedCells(col: seq<Value>): seq<Value> {
    Select(col, ColumnFlags(col))
  }

  /** The test a cell passes to be flagged, given its column's fences. */
  function FlagTest(b: Option<Bounds>): Value -> bool {
    (v: Value) => v.Num? && Outside(v.x, b)
  }

  /** Selecting by a column's flags keeps exactly the cells that pass the
      flag test of the column's fences. */
  lemma FlaggedCellsFilter(col: seq<Value>)
    ensures FlaggedCells(col) == Filter(col, FlagTest(IqrBounds(Numbers(col))))
  {
    var p := FlagTest(IqrBounds(Numbers(col)));
    FilterIsSelect(col, p);
    assert MapSeq(col, p) == ColumnFlags(col);
  }

  /** The flags depend on the column's contents, not on the order of its
      cells: permuting the column gives the same fences, flags each value
      the same way wherever it sits, and flags the same multiset of cells. */
  lemma FlagsOrderFree(col: seq<Value>, col': seq<Value>)
    requires multiset(col) == multiset(col')
    ensures IqrBounds(Numbers(col)) == IqrBounds(Numbers(col'))
    ensures forall i, j :: 0 <= i < |col| && 0 <= j < |col'| && col[i] == col'[j] ==>
              ColumnFlags(col)[i] == ColumnFlags(col')[j]
    ensures multiset(FlaggedCells(col)) == multiset(FlaggedCells(col'))
  {
    NumbersOrderFree(col, col');
    IqrBoundsOrderFree(Numbers(col), Numbers(col'));
    FlaggedCellsByBounds(col, col');
  }

  /** Two columns with the same fences select the same multiset of flagged
      cells when they hold the same cells. */
  lemma FlaggedCellsByBounds(col: seq<Value>, col': seq<Value>)
    requires multiset(col) == multiset(col')
    requires IqrBounds(Numbers(col)) == IqrBounds(Numbers(col'))
    ensures multiset(FlaggedCells(col)) == multiset(FlaggedCells(col'))
  {
    var p := FlagTest(IqrBounds(Numbers(col)));
    FlaggedCellsFilter(col);
    FlaggedCellsFilter(col');
    forall v ensures multiset(Filter(col, p))[v] == multiset(Filter(col', p))[v] {
    }
  }

  // ---------------------------------------------------------------------------
  // On tables

  function AsFlags(flags: seq<bool>): (col: seq<Value>)
    ensures |col| == |flags| && forall i :: 0 <= i < |flags| ==> col[i] == Flag(flags[i])
  {
    seq(|flags|, i requires 0 <= i < |flags| => Flag(flags[i]))
  }

  const QuantityFlag := "is_outlier_quantity"
  const PriceFlag := "is_outlier_unit_price"

  /** `df[flag] = full_mask` when the source column exists. */
  function AddFlagColumn(t: Table, source: string, flag: string): (r: Table)
    requires WellFormed(t)
    ensures WellFormed(r) && |r.rows| == |t.rows|
    ensures r.columns == if source in t.columns then Named(t.columns, flag) else t.columns
  {
    if source in t.columns then WithColumn(t, flag, AsFlags(ColumnFlags(Column(t, source)))) else t
  }

  /** The column list after flagging. */
  function FlagColumnsOf(cols: seq<string>): seq<string> {
    var c1 := if "quantity" in cols then Named(cols, QuantityFlag) else cols;
    if "unit_price" in c1 then Named(c1, PriceFlag) else c1
  }

  /** The flag columns come after the given ones, each exactly when its
      source column is given (or it is given itself). */
  lemma FlagColumnsSpec(cols: seq<string>)
    ensures var r := FlagColumnsOf(cols);
            && cols <= r
            && (forall c :: c in cols ==> c in r)
            && (forall c :: c in r && c !in cols ==> c == QuantityFlag || c == PriceFlag)
            && (QuantityFlag in r <==> "quantity" in cols || QuantityFlag in cols)
            && (PriceFlag in r <==> "unit_price" in cols || PriceFlag in cols)
  {
  }

  /** The table with both flag columns (where their sources exist). */
  function Flagged(t: Table): (r: Table)
    requires WellFormed(t)
    ensures WellFormed(r) && |r.rows| == |t.rows| && r.columns == FlagColumnsOf(t.columns)
  {
    AddFlagColumn(AddFlagColumn(t, "quantity", QuantityFlag), "unit_price", PriceFlag)
  }

  /** `outlier_cols` */
  function OutlierColumns(cols: seq<string>): (oc: seq<string>)
    ensures forall c :: c in oc <==>
              (c == QuantityFlag && "quantity" in cols) || (c == PriceFlag && "unit_price" in cols)
  {
    (if "quantity" in cols then [QuantityFlag] else []) + (if "unit_price" in cols then [PriceFlag] else [])
  }

  /** `df[outlier_cols].any(axis=1)` */
  predicate AnyFlag(row: Row, oc: seq<string>) {
    exists c :: c in oc && c in row && row[c] == Flag(true)
  }

  /** The stage's two products: the (possibly filtered) table and the log. */
  datatype Outcome = Outcome(table: Table, log: seq<Row>)

  /** `df[df[outlier_cols].any(axis=1)]` */
  function FlaggedRows(rows: seq<Row>, oc: seq<string>): (log: seq<Row>)
    ensures forall row {:trigger row in log} :: row in log <==> row in rows && AnyFlag(row, oc)
    ensures IsSubsequence(log, rows)
  {
    var p := (row: Row) => AnyFlag(row, oc);
    FilterIsSelect(rows, p);
    Filter(rows, p)
  }

  /** `df[~df[outlier_cols].any(axis=1)]` */
  function CleanRows(rows: seq<Row>, oc: seq<string>): (kept: seq<Row>)
    ensures forall row {:trigger row in kept} :: row in kept <==> row in rows && !AnyFlag(row, oc)
    ensures IsSubsequence(kept, rows)
    ensures multiset(FlaggedRows(rows, oc)) + multiset(kept) == multiset(rows)
  {
    var p := (row: Row) => !AnyFlag(row, oc);
    FilterIsSelect(rows, p);
    FilterPartition(rows, (row: Row) => AnyFlag(row, oc), p);
    Filter(rows, p)
  }

  function FlagAndOptionallyRemoveOutliers(t: Table, remove: bool): (out: Outcome)
    requires WellFormed(t)
    ensures WellFormed(out.table) && out.table.columns == FlagColumnsOf(t.columns)
  {
    var f := Flagged(t);
    var oc := OutlierColumns(t.columns);
    if oc == [] then Outcome(f, [])
    else if remove then
      var kept := CleanRows(f.rows, oc);
      RowsOfSubsequence(f, kept);
      Outcome(Table(f.columns, kept), FlaggedRows(f.rows, oc))
    else Outcome(f, FlaggedRows(f.rows, oc))
  }

  /** A flag column appears exactly when its source column exists (or was
      already there), holds the column's flags, and every other column keeps
      its place and its cells. */
  lemma FlaggedSpec(t: Table, i: nat)
    requires WellFormed(t) && i < |t.rows|
    ensures var f := Flagged(t);
            && t.columns <= f.columns
            && (QuantityFlag in f.columns <==> "quantity" in t.columns || QuantityFlag in t.columns)
            && (PriceFlag in f.columns <==> "unit_price" in t.columns || PriceFlag in t.columns)
            && ("quantity" in t.columns ==>
                  f.rows[i][QuantityFlag] == Flag(ColumnFlags(Column(t, "quantity"))[i]))
            && ("unit_price" in t.columns ==>
                  f.rows[i][PriceFlag] == Flag(ColumnFlags(Column(t, "unit_price"))[i]))
            && forall c :: c in t.columns && c != QuantityFlag && c != PriceFlag ==> f.rows[i][c] == t.rows[i][c]
  {
    var t1 := AddFlagColumn(t, "quantity", QuantityFlag);
    AddFlagColumnSpec(t, "quantity", QuantityFlag, i);
    AddFlagColumnSpec(t1, "unit_price", PriceFlag, i);
    var f := Flagged(t);
    assert t.columns <= f.columns by {
      assert forall k :: 0 <= k < |t.columns| ==> f.columns[k] == t1.columns[k] == t.columns[k];
    }
    assert QuantityFlag in t1.columns ==> QuantityFlag in f.columns by {
      if QuantityFlag in t1.columns {
        var k :| 0 <= k < |t1.columns| && t1.columns[k] == QuantityFlag;
        assert f.columns[k] == QuantityFlag;
      }
    }
    assert QuantityFlag != PriceFlag && "unit_price" != QuantityFlag && "quantity" != PriceFlag;
  }

  /** One flag column: added after the others, or overwritten in place, when
      its source exists; every other column keeps its cells. */
  lemma AddFlagColumnSpec(t: Table, source: string, flag: string, i: nat)
    requires WellFormed(t) && i < |t.rows|
    ensures var r := AddFlagColumn(t, source, flag);
            && t.columns <= r.columns
            && (forall c :: c in r.columns && c !in t.columns ==> c == flag)
            && (flag in r.columns <==> source in t.columns || flag in t.columns)
            && (source in t.columns ==> r.rows[i][flag] == Flag(ColumnFlags(Column(t, source))[i]))
            && (forall c :: c in t.columns && c != flag ==>
                  c in r.columns && r.rows[i][c] == t.rows[i][c] && Column(r, c) == Column(t, c))
  {
  }

  /** The log holds exactly the rows with some present flag set, in their
      original order, whether or not they are removed. */
  lemma OutlierLogSpec(t: Table, remove: bool)
    requires WellFormed(t)
    ensures var f := Flagged(t);
            var oc := OutlierColumns(t.columns);
            var out := FlagAndOptionallyRemoveOutliers(t, remove);
            && (forall row {:trigger row in out.log} :: row in out.log <==> row in f.rows && AnyFlag(row, oc))
            && IsSubsequence(out.log, f.rows)
  {
    var f := Flagged(t);
    if OutlierColumns(t.columns) == [] {
      var none := seq(|f.rows|, i => false);
      SelectAllFalse(f.rows, none);
    }
  }

  /** Without `remove` the table is the flagged table. */
  lemma OutlierKeepSpec(t: Table)
    requires WellFormed(t)
    ensures FlagAndOptionallyRemoveOutliers(t, false).table == Flagged(t)
  {
  }

  /** With `remove` the table keeps exactly the unflagged rows, in order, so
      that log and table together are the flagged table's rows. */
  lemma OutlierRemovalSpec(t: Table)
    requires WellFormed(t)
    ensures var f := Flagged(t);
            var oc := OutlierColumns(t.columns);
            var out := FlagAndOptionallyRemoveOutliers(t, true);
            && out.table.columns == f.columns
            && (forall row {:trigger row in out.table.rows} ::
                  row in out.table.rows <==> row in f.rows && !AnyFlag(row, oc))
            && IsSubsequence(out.table.rows, f.rows)
            && multiset(out.log) + multiset(out.table.rows) == multiset(f.rows)
  {
    var f := Flagged(t);
    if OutlierColumns(t.columns) == [] {
      var all := seq(|f.rows|, i => true);
      SelectAllTrue(f.rows, all);
    }
  }
}
