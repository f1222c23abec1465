/** The row- and cell-level cleaning stages: type coercion (`convert_dtypes`),
    the validity filter (`drop_invalid_invoices`), gap filling
    (`handle_missing_values`), text normalisation (`normalize_categorical`) and
    the derived columns (`add_derived_columns`). Each is a function from the
    table before the stage to the table after it. */
module Cleaning {
  import opened Tables
  import opened Text

  /** The pieces of pandas the stages call but whose grammar is not modelled:
      `to_datetime` and `to_numeric` on one non-missing cell (None when the cell
      does not parse), `astype(str)` on a cell that is neither a string nor
      missing, and `astype("float64")` on a cell that is neither a number nor
      missing (None when the cast raises, Some(None) when it gives NaN). */
  datatype Codec = Codec(
    parseDate: Value -> Option<Value>,
    parseNumber: Value -> Option<real>,
    render: Value -> string,
    castFloat: Value -> Option<Option<real>>)

  // ---------------------------------------------------------------------------
  // convert_dtypes

  /** `to_datetime(errors="coerce")` on one cell: a missing cell or a timestamp
      is returned as it is, anything else is parsed, and a cell that does not
      parse to a timestamp becomes missing. */
  function ToDatetime(v: Value, codec: Codec): (r: Value)
    ensures r == Missing || r.Date?
    ensures v == Missing || v.Date? ==> r == v
    ensures v != Missing && !v.Date? && codec.parseDate(v).None? ==> r == Missing
    ensures v != Missing && !v.Date? && codec.parseDate(v).Some? ==>
              r == if codec.parseDate(v).value.Date? then codec.parseDate(v).value else Missing
  {
    if v == Missing || v.Date? then v
    else match codec.parseDate(v)
      case Some(d) => if d.Date? then d else Missing
      case None => Missing
  }

  /** `to_numeric(errors="coerce")` on one cell: a missing cell or a number is
      returned as it is, anything else is parsed, and a cell that does not
      parse becomes missing. */
  function ToNumeric(v: Value, codec: Codec): (r: Value)
    ensures r == Missing || r.Num?
    ensures v == Missing || v.Num? ==> r == v
    ensures v != Missing && !v.Num? && codec.parseNumber(v).None? ==> r == Missing
    ensures v != Missing && !v.Num? && codec.parseNumber(v).Some? ==> r == Num(codec.parseNumber(v).value)
  {
    if v == Missing || v.Num? then v
    else match codec.parseNumber(v)
      case Some(x) => Num(x)
      case None => Missing
  }

  /** The columns the coercion touches and the cell conversion each gets. */
  function Coercion(c: string, codec: Codec): Value -> Value {
    if c == "invoice_date" then v => ToDatetime(v, codec)
    else if c == "quantity" || c == "unit_price" then v => ToNumeric(v, codec)
    else v => v
  }

  function CoerceColumn(t: Table, c: string, codec: Codec): (r: Table)
    requires WellFormed(t)
    ensures WellFormed(r) && r.columns == t.columns && |r.rows| == |t.rows|
  {
    if c in t.columns then WithColumn(t, c, MapSeq(Column(t, c), Coercion(c, codec))) else t
  }

  function ConvertDtypes(t: Table, codec: Codec): (r: Table)
    requires WellFormed(t)
    ensures WellFormed(r) && r.columns == t.columns && |r.rows| == |t.rows|
  {
    CoerceColumn(CoerceColumn(CoerceColumn(t, "invoice_date", codec), "quantity", codec), "unit_price", codec)
  }

  /** Cell by cell, coercion converts the three typed columns and leaves every
      other cell alone; no row is dropped and no column added. */
  lemma ConvertDtypesCells(t: Table, codec: Codec, i: nat, c: string)
    requires WellFormed(t) && i < |t.rows| && c in t.columns
    ensures ConvertDtypes(t, codec).columns == t.columns
    ensures |ConvertDtypes(t, codec).rows| == |t.rows|
    ensures ConvertDtypes(t, codec).rows[i][c] == Coercion(c, codec)(t.rows[i][c])
  {
  }

  /** After coercion the dates are timestamps or missing and the quantities
      and prices numbers or missing; a cell that was already of that type
      keeps its value, one that parses gets the parsed value, and one that
      does not parse is missing rather than an error. */
  lemma ConvertDtypesTypes(t: Table, codec: Codec, i: nat)
    requires WellFormed(t) && i < |t.rows|
    ensures var r := ConvertDtypes(t, codec).rows[i];
            "invoice_date" in t.columns ==>
              var v := t.rows[i]["invoice_date"];
              && (r["invoice_date"] == Missing || r["invoice_date"].Date?)
              && (v == Missing || v.Date? ==> r["invoice_date"] == v)
              && (v != Missing && !v.Date? && codec.parseDate(v).None? ==> r["invoice_date"] == Missing)
              && (v != Missing && !v.Date? && codec.parseDate(v).Some? && codec.parseDate(v).value.Date? ==>
                    r["invoice_date"] == codec.parseDate(v).value)
    ensures var r := ConvertDtypes(t, codec).rows[i];
            forall c :: c in t.columns && (c == "quantity" || c == "unit_price") ==>
              var v := t.rows[i][c];
              && (r[c] == Missing || r[c].Num?)
              && (v == Missing || v.Num? ==> r[c] == v)
              && (v != Missing && !v.Num? && codec.parseNumber(v).None? ==> r[c] == Missing)
              && (v != Missing && !v.Num? && codec.parseNumber(v).Some? ==> r[c] == Num(codec.parseNumber(v).value))
  {
    if "invoice_date" in t.columns { ConvertDtypesCells(t, codec, i, "invoice_date"); }
    if "quantity" in t.columns { ConvertDtypesCells(t, codec, i, "quantity"); }
    if "unit_price" in t.columns { ConvertDtypesCells(t, codec, i, "unit_price"); }
  }

  // ---------------------------------------------------------------------------
  // drop_invalid_invoices

  /** `cols_to_check`: invoice_no and invoice_date, each only when present. */
  function RequiredColumns(cols: seq<string>): (req: seq<string>)
    ensures forall c :: c in req <==> (c == "invoice_no" || c == "invoice_date") && c in cols
  {
    (if "invoice_no" in cols then ["invoice_no"] else []) +
    (if "invoice_date" in cols then ["invoice_date"] else [])
  }

  /** The row has a non-missing value in each of `cols`. */
  predicate Complete(row: Row, cols: seq<string>) {
    forall c :: c in cols ==> c in row && row[c] != Missing
  }

  /** `dropna(subset=cols_to_check)`: keeps exactly the rows with an invoice
      number and an invoice date (where those columns exist), each as often as
      before. */
  function DropInvalidInvoices(t: Table): (r: Table)
    requires WellFormed(t)
    ensures WellFormed(r) && r.columns == t.columns
    ensures forall row {:trigger row in r.rows} ::
              row in r.rows <==> row in t.rows && Complete(row, RequiredColumns(t.columns))
    ensures forall row {:trigger multiset(r.rows)[row]} ::
              multiset(r.rows)[row] == if Complete(row, RequiredColumns(t.columns)) then multiset(t.rows)[row] else 0
  {
    var check := RequiredColumns(t.columns);
    if check == [] then t
    else
      var kept := Filter(t.rows, (row: Row) => Complete(row, check));
      RowsOfSubsequence(t, kept);
      Table(t.columns, kept)
  }

  /** The validity filter keeps the surviving rows in their original order,
      and a table with neither key column passes unchanged. */
  lemma DropInvalidInvoicesOrder(t: Table)
    requires WellFormed(t)
    ensures IsSubsequence(DropInvalidInvoices(t).rows, t.rows)
    ensures "invoice_no" !in t.columns && "invoice_date" !in t.columns ==> DropInvalidInvoices(t) == t
  {
    var check := RequiredColumns(t.columns);
    if check == [] {
      var all := seq(|t.rows|, i => true);
      SelectAllTrue(t.rows, all);
      SubsequenceOfSelect(t.rows, all);
    } else {
      FilterIsSelect(t.rows, (row: Row) => Complete(row, check));
    }
  }

  // ---------------------------------------------------------------------------
  // handle_missing_values and normalize_categorical

  /** `astype(str)`: NaN prints as "nan". */
  function AsStr(v: Value, codec: Codec): string {
    match v
    case Missing => "nan"
    case Str(s) => s
    case _ => codec.render(v)
  }

  /** `fillna("Unknown")` */
  function FillUnknown(v: Value): (r: Value)
    ensures r != Missing
    ensures v != Missing ==> r == v
  {
    if v == Missing then Str("Unknown") else v
  }

  /** `astype(str).str.strip()` */
  function StripCell(v: Value, codec: Codec): (r: Value)
    ensures r.Str? && Trimmed(r.s)
  {
    Str(Strip(AsStr(v, codec)))
  }

  /** `astype(str).str.strip()` as a column operation. */
  function Trim(codec: Codec): Value -> Value {
    v => StripCell(v, codec)
  }

  /** `df[c] = f(df[c])` guarded by `if c in df.columns`, on one row. */
  function UpdateIfPresent(row: Row, c: string, f: Value -> Value): (r: Row)
    ensures r.Keys == row.Keys
  {
    if c in row then row[c := f(row[c])] else row
  }

  /** `df[c] = f(df[c])` guarded by `if c in df.columns`. */
  function MapColumnIfPresent(t: Table, c: string, f: Value -> Value): (r: Table)
    requires WellFormed(t)
    ensures WellFormed(r) && r.columns == t.columns && |r.rows| == |t.rows|
    ensures forall i :: 0 <= i < |t.rows| ==> r.rows[i] == UpdateIfPresent(t.rows[i], c, f)
  {
    if c in t.columns then WithColumn(t, c, MapSeq(Column(t, c), f)) else t
  }

  /** `astype("float64")` accepts the cell. */
  predicate Castable(v: Value, codec: Codec) {
    v == Missing || v.Num? || codec.castFloat(v).Some?
  }

  /** `astype("float64")` accepts every customer id of the table; on any
      other table handle_missing_values raises. */
  predicate CastableIds(t: Table, codec: Codec) {
    forall i :: 0 <= i < |t.rows| && "customer_id" in t.rows[i] ==> Castable(t.rows[i]["customer_id"], codec)
  }

  /** `astype("float64")` on one cell: missing cells and numbers are kept, any
      other cell the cast accepts takes the number (or NaN) it casts to. A
      cell the cast rejects makes the stage raise; HandleMissingValues
      excludes it, so the Missing given for it here is never used. */
  function ToFloat(v: Value, codec: Codec): (r: Value)
    ensures r == Missing || r.Num?
    ensures v == Missing || v.Num? ==> r == v
    ensures v != Missing && !v.Num? && codec.castFloat(v).Some? ==>
              r == if codec.castFloat(v).value.Some? then Num(codec.castFloat(v).value.value) else Missing
  {
    if v == Missing || v.Num? then v
    else match codec.castFloat(v)
      case Some(Some(x)) => Num(x)
      case _ => Missing
  }

  /** `astype("float64")` as a column operation. */
  function Cast(codec: Codec): Value -> Value {
    v => ToFloat(v, codec)
  }

  /** handle_missing_values on one row. */
  function HandleRow(row: Row, codec: Codec): (r: Row)
    ensures r.Keys == row.Keys
  {
    var filled := UpdateIfPresent(row, "description", FillUnknown);
    UpdateIfPresent(UpdateIfPresent(filled, "description", Trim(codec)), "customer_id", Cast(codec))
  }

  /** Fill missing descriptions with "Unknown", trim every description, and
      cast the customer ids to float64. */
  function HandleMissingValues(t: Table, codec: Codec): (r: Table)
    requires WellFormed(t) && CastableIds(t, codec)
    ensures WellFormed(r) && r.columns == t.columns && |r.rows| == |t.rows|
    ensures forall i :: 0 <= i < |t.rows| ==> r.rows[i] == HandleRow(t.rows[i], codec)
  {
    var t1 := MapColumnIfPresent(t, "description", FillUnknown);
    var t2 := MapColumnIfPresent(t1, "description", Trim(codec));
    MapColumnIfPresent(t2, "customer_id", Cast(codec))
  }

  /** The alias table for countries, applied to the title-cased name. */
  function CountryAlias(s: string): (r: string)
    ensures s == "Uk" || s == "United Kingdom" ==> r == "United Kingdom"
    ensures s == "Eire" ==> r == "Ireland"
    ensures s != "Uk" && s != "United Kingdom" && s != "Eire" ==> r == s
  {
    if s == "Uk" || s == "United Kingdom" then "United Kingdom"
    else if s == "Eire" then "Ireland"
    else s
  }

  /** `astype(str).str.strip().str.title()` followed by the alias table. */
  function CleanCountry(v: Value, codec: Codec): (r: Value)
    ensures r.Str?
  {
    Str(CountryAlias(Title(Strip(AsStr(v, codec)))))
  }

  /** The country cleaning as a column operation. */
  function CountryCleaner(codec: Codec): Value -> Value {
    v => CleanCountry(v, codec)
  }

  /** normalize_categorical on one row. */
  function NormalizeRow(row: Row, codec: Codec): (r: Row)
    ensures r.Keys == row.Keys
  {
    var d := if "description" in row then row["description" := StripCell(row["description"], codec)] else row;
    if "country" in row then d["country" := CleanCountry(row["country"], codec)] else d
  }

  function NormalizeCategorical(t: Table, codec: Codec): (r: Table)
    requires WellFormed(t)
    ensures WellFormed(r) && r.columns == t.columns && |r.rows| == |t.rows|
    ensures forall i :: 0 <= i < |t.rows| ==> r.rows[i] == NormalizeRow(t.rows[i], codec)
  {
    var t1 := MapColumnIfPresent(t, "description", Trim(codec));
    MapColumnIfPresent(t1, "country", CountryCleaner(codec))
  }

  /** Both cell-cleaning stages, in pipeline order. */
  function CleanCells(t: Table, codec: Codec): (r: Table)
    requires WellFormed(t) && CastableIds(t, codec)
    ensures WellFormed(r) && r.columns == t.columns && |r.rows| == |t.rows|
    ensures forall i :: 0 <= i < |t.rows| ==> r.rows[i] == NormalizeRow(HandleRow(t.rows[i], codec), codec)
  {
    NormalizeCategorical(HandleMissingValues(t, codec), codec)
  }

  /** What the two stages do to a description: a missing one becomes "Unknown",
      a text one is trimmed, and the result is always trimmed text. */
  lemma DescriptionCell(v: Value, codec: Codec)
    ensures var w := StripCell(StripCell(FillUnknown(v), codec), codec);
            && w.Str? && Trimmed(w.s)
            && (v == Missing ==> w == Str("Unknown"))
            && (v.Str? ==> w == Str(Strip(v.s)))
  {
    var once := StripCell(FillUnknown(v), codec);
    assert StripCell(once, codec) == once by {
      StripTrimmed(once.s);
    }
    if v == Missing {
      StripUnknown();
    }
  }

  lemma StripUnknown()
    ensures Strip("Unknown") == "Unknown"
  {
    assert Trimmed("Unknown");
    StripTrimmed("Unknown");
  }

  lemma TitleUnited()
    ensures Title("United") == "United"
  {
    TitleFixed("United");
  }

  lemma TitleKingdom()
    ensures Title("Kingdom") == "Kingdom"
  {
    TitleFixed("Kingdom");
  }

  lemma UnitedKingdomWords()
    ensures "United" + [' '] + "Kingdom" == "United Kingdom"
  {
  }

  lemma TitleUnitedKingdom()
    ensures Title("United Kingdom") == "United Kingdom"
  {
    UnitedKingdomWords();
    TitleUnited();
    TitleKingdom();
    TitleJoinFixed("United Kingdom", "United", "Kingdom");
  }

  lemma TitleIreland()
    ensures Title("Ireland") == "Ireland"
  {
    TitleFixed("Ireland");
  }

  /** Country cleaning of a text cell that has no whitespace at its ends. */
  lemma CleanCountryTrimmed(s: string, codec: Codec)
    requires Trimmed(s)
    ensures CleanCountry(Str(s), codec) == Str(CountryAlias(Title(s)))
  {
    StripTrimmed(s);
  }

  lemma StripPaddedUnitedKingdom()
    ensures Strip(" United Kingdom ") == "United Kingdom"
  {
    var s := " United Kingdom ";
    assert LeadLen(s[1..]) == 0;
    assert LeadLen(s) == 1;
    var t := s[1..];
    assert TrailLen(t[..|t| - 1]) == 0;
    assert TrailLen(t) == 1;
  }

  lemma TitleUk()
    ensures Title("UK") == "Uk"
  {
    TitleWord("UK");
  }

  lemma TitleEire()
    ensures Title("eire") == "Eire"
  {
    TitleWord("eire");
  }

  lemma TitleFrance()
    ensures Title("france") == "France"
  {
    TitleWord("france");
  }

  lemma TitleNan()
    ensures Title("nan") == "Nan"
  {
    TitleWord("nan");
  }

  lemma CountryUK(codec: Codec)
    ensures CleanCountry(Str("UK"), codec) == Str("United Kingdom")
  {
    CleanCountryTrimmed("UK", codec);
    TitleUk();
  }

  lemma CountryPaddedUnitedKingdom(codec: Codec)
    ensures CleanCountry(Str(" United Kingdom "), codec) == Str("United Kingdom")
  {
    StripPaddedUnitedKingdom();
    TitleUnitedKingdom();
  }

  lemma CountryEire(codec: Codec)
    ensures CleanCountry(Str("eire"), codec) == Str("Ireland")
  {
    CleanCountryTrimmed("eire", codec);
    TitleEire();
  }

  lemma CountryFrance(codec: Codec)
    ensures CleanCountry(Str("france"), codec) == Str("France")
  {
    assert Trimmed("france");
    CleanCountryTrimmed("france", codec);
    TitleFrance();
    FranceHasNoAlias();
  }

  lemma FranceHasNoAlias()
    ensures CountryAlias("France") == "France"
  {
  }

  /** A missing country prints as "nan" and so ends up as "Nan". */
  lemma CountryMissing(codec: Codec)
    ensures CleanCountry(Missing, codec) == Str("Nan")
  {
    assert Trimmed("nan");
    StripTrimmed("nan");
    TitleNan();
    NanHasNoAlias();
  }

  lemma NanHasNoAlias()
    ensures CountryAlias("Nan") == "Nan"
  {
  }

  lemma StripUnitedKingdom()
    ensures Strip("United Kingdom") == "United Kingdom"
  {
    assert Trimmed("United Kingdom");
    StripTrimmed("United Kingdom");
  }

  lemma StripIreland()
    ensures Strip("Ireland") == "Ireland"
  {
    assert Trimmed("Ireland");
    StripTrimmed("Ireland");
  }

  lemma UnitedKingdomFixed(codec: Codec)
    ensures CleanCountry(Str("United Kingdom"), codec) == Str("United Kingdom")
  {
    StripUnitedKingdom();
    TitleUnitedKingdom();
  }

  lemma IrelandFixed(codec: Codec)
    ensures CleanCountry(Str("Ireland"), codec) == Str("Ireland")
  {
    StripIreland();
    TitleIreland();
  }

  /** The alias of a trimmed, title-cased name is left alone by a second
      cleaning. */
  lemma AliasFixed(y: string, codec: Codec)
    requires Trimmed(y) && Title(y) == y
    ensures CleanCountry(Str(CountryAlias(y)), codec) == Str(CountryAlias(y))
  {
    var x := CountryAlias(y);
    if x == y {
      StripTrimmed(y);
    } else if x == "United Kingdom" {
      UnitedKingdomFixed(codec);
    } else {
      IrelandFixed(codec);
    }
  }

  /** A cleaned country name is a fixed point of the country cleaning. */
  lemma CleanCountryIdempotent(v: Value, codec: Codec)
    ensures CleanCountry(CleanCountry(v, codec), codec) == CleanCountry(v, codec)
  {
    var z := Strip(AsStr(v, codec));
    TitleTrimmed(z);
    TitleIdempotent(z);
    AliasFixed(Title(z), codec);
  }

  /** A cleaned description is left alone by a second cleaning. */
  lemma DescriptionCellFixed(v: Value, codec: Codec)
    ensures var w := StripCell(StripCell(FillUnknown(v), codec), codec);
            StripCell(StripCell(FillUnknown(w), codec), codec) == w
  {
    var w := StripCell(StripCell(FillUnknown(v), codec), codec);
    assert FillUnknown(w) == w;
    assert AsStr(w, codec) == w.s;
    StripTrimmed(w.s);
    assert StripCell(w, codec) == w;
  }

  /** Cell by cell, the two stages apply the description cleaning to the
      description, the country cleaning to the country, and nothing else. */
  lemma CleanRowAt(row: Row, codec: Codec, c: string)
    requires c in row
    ensures var new_ := NormalizeRow(HandleRow(row, codec), codec);
            && new_.Keys == row.Keys
            && new_[c] == if c == "description" then StripCell(StripCell(FillUnknown(row[c]), codec), codec)
                          else if c == "country" then CleanCountry(row[c], codec)
                          else if c == "customer_id" then ToFloat(row[c], codec)
                          else row[c]
  {
    HandleRowAt(row, codec, c);
    NormalizeRowAt(HandleRow(row, codec), codec, c);
  }

  /** One cell of handle_missing_values. */
  lemma HandleRowAt(row: Row, codec: Codec, c: string)
    requires c in row
    ensures HandleRow(row, codec)[c] ==
              if c == "description" then StripCell(FillUnknown(row[c]), codec)
              else if c == "customer_id" then ToFloat(row[c], codec)
              else row[c]
  {
  }

  /** One cell of normalize_categorical. */
  lemma NormalizeRowAt(row: Row, codec: Codec, c: string)
    requires c in row
    ensures NormalizeRow(row, codec)[c] ==
              if c == "description" then StripCell(row[c], codec)
              else if c == "country" then CleanCountry(row[c], codec)
              else row[c]
  {
  }

  /** What cell cleaning does to one row: a missing description becomes
      "Unknown" and every description is trimmed; a country is trimmed,
      title-cased and aliased, and a missing one becomes "Nan"; a customer id
      is cast to a number or NaN, and one that already is one is kept;
      nothing else changes. */
  lemma CleanRowSpec(row: Row, codec: Codec)
    ensures var new_ := NormalizeRow(HandleRow(row, codec), codec);
            && new_.Keys == row.Keys
            && ("description" in row ==>
                  && new_["description"].Str? && Trimmed(new_["description"].s)
                  && (row["description"] == Missing ==> new_["description"] == Str("Unknown"))
                  && (row["description"].Str? ==> new_["description"] == Str(Strip(row["description"].s))))
            && ("country" in row ==>
                  && (row["country"] == Missing ==> new_["country"] == Str("Nan"))
                  && (row["country"].Str? ==>
                        new_["country"] == Str(CountryAlias(Title(Strip(row["country"].s))))))
            && ("customer_id" in row ==>
                  && new_["customer_id"] == ToFloat(row["customer_id"], codec)
                  && (new_["customer_id"] == Missing || new_["customer_id"].Num?)
                  && (row["customer_id"] == Missing || row["customer_id"].Num? ==> new_["customer_id"] == row["customer_id"]))
            && forall c :: c in row && c != "description" && c != "country" && c != "customer_id" ==> new_[c] == row[c]
  {
    if "description" in row {
      CleanRowAt(row, codec, "description");
      DescriptionCell(row["description"], codec);
    }
    if "country" in row {
      CleanRowAt(row, codec, "country");
      CountryMissing(codec);
    }
    if "customer_id" in row {
      CleanRowAt(row, codec, "customer_id");
    }
    forall c | c in row && c != "description" && c != "country" && c != "customer_id"
      ensures NormalizeRow(HandleRow(row, codec), codec)[c] == row[c]
    {
      CleanRowAt(row, codec, c);
    }
  }

  /** Cleaning the cells of an already cleaned row changes nothing. */
  lemma CleanRowIdempotent(row: Row, codec: Codec)
    ensures var once := NormalizeRow(HandleRow(row, codec), codec);
            NormalizeRow(HandleRow(once, codec), codec) == once
  {
    var once := NormalizeRow(HandleRow(row, codec), codec);
    var twice := NormalizeRow(HandleRow(once, codec), codec);
    forall c | c in once ensures twice[c] == once[c] {
      CleanCellIdempotent(row, codec, c);
    }
    assert twice.Keys == once.Keys;
  }

  /** One cell of CleanRowIdempotent. */
  lemma CleanCellIdempotent(row: Row, codec: Codec, c: string)
    requires c in row
    ensures var once := NormalizeRow(HandleRow(row, codec), codec);
            NormalizeRow(HandleRow(once, codec), codec)[c] == once[c]
  {
    var once := NormalizeRow(HandleRow(row, codec), codec);
    CleanRowAt(row, codec, c);
    CleanRowAt(once, codec, c);
    if c == "description" {
      DescriptionCellFixed(row[c], codec);
    } else if c == "country" {
      CleanCountryIdempotent(row[c], codec);
    }
  }

  /** Cleaning the cells of an already cleaned table changes nothing. */
  lemma CleanCellsIdempotent(t: Table, codec: Codec)
    requires WellFormed(t) && CastableIds(t, codec)
    ensures CastableIds(CleanCells(t, codec), codec)
    ensures CleanCells(CleanCells(t, codec), codec) == CleanCells(t, codec)
  {
    var once := CleanCells(t, codec);
    forall i | 0 <= i < |once.rows| && "customer_id" in once.rows[i]
      ensures Castable(once.rows[i]["customer_id"], codec)
    {
      CleanRowSpec(t.rows[i], codec);
    }
    forall i | 0 <= i < |t.rows|
      ensures CleanCells(once, codec).rows[i] == once.rows[i]
    {
      CleanRowIdempotent(t.rows[i], codec);
    }
  }

  // ---------------------------------------------------------------------------
  // add_derived_columns

  /** Element-wise product with missing propagation. */
  function Product(q: Value, p: Value): (r: Value)
    ensures q == Missing || p == Missing ==> r == Missing
    ensures q.Num? && p.Num? ==> r == Num(q.x * p.x)
  {
    if q.Num? && p.Num? then Num(q.x * p.x) else Missing
  }

  /** `.dt.year` and `.dt.month`, missing for a missing date. */
  function YearOf(d: Value): (r: Value)
    ensures d.Date? ==> r == Num(d.year as real)
    ensures !d.Date? ==> r == Missing
  {
    if d.Date? then Num(d.year as real) else Missing
  }

  function MonthOf(d: Value): (r: Value)
    ensures r == Missing || (r.Num? && 1.0 <= r.x <= 12.0)
    ensures d.Date? ==> r == Num(d.month as real)
    ensures !d.Date? ==> r == Missing
  {
    if d.Date? then Num(d.month as real) else Missing
  }

  function Products(t: Table): (col: seq<Value>)
    requires WellFormed(t) && "quantity" in t.columns && "unit_price" in t.columns
    ensures |col| == |t.rows|
  {
    seq(|t.rows|, i requires 0 <= i < |t.rows| => Product(t.rows[i]["quantity"], t.rows[i]["unit_price"]))
  }

  /** The column list `add_derived_columns` produces from `cols`. */
  function DerivedColumns(cols: seq<string>): seq<string> {
    var c1 := if "quantity" in cols && "unit_price" in cols then Named(cols, "total_value") else cols;
    if "invoice_date" in c1 then Named(Named(c1, "year"), "month") else c1
  }

  /** The derived columns come after the given ones, and the calendar
      columns exist wherever the invoice date does. */
  lemma DerivedColumnsSpec(cols: seq<string>)
    ensures var r := DerivedColumns(cols);
            && cols <= r
            && (forall c :: c in cols ==> c in r)
            && (forall c :: c in r && c !in cols ==> c == "total_value" || c == "year" || c == "month")
            && ("invoice_date" in cols ==> "year" in r && "month" in r)
  {
  }

  /** `total_value`, added when both quantity and unit price exist. */
  function WithTotal(t: Table): (r: Table)
    requires WellFormed(t)
    ensures WellFormed(r) && |r.rows| == |t.rows|
    ensures r.columns == if "quantity" in t.columns && "unit_price" in t.columns
                         then Named(t.columns, "total_value") else t.columns
  {
    if "quantity" in t.columns && "unit_price" in t.columns
    then WithColumn(t, "total_value", Products(t)) else t
  }

  /** `year` then `month`, added when the invoice date exists. */
  function WithCalendar(t: Table): (r: Table)
    requires WellFormed(t)
    ensures WellFormed(r) && |r.rows| == |t.rows|
    ensures r.columns == if "invoice_date" in t.columns
                         then Named(Named(t.columns, "year"), "month") else t.columns
  {
    if "invoice_date" in t.columns then
      var t2 := WithColumn(t, "year", MapSeq(Column(t, "invoice_date"), YearOf));
      WithColumn(t2, "month", MapSeq(Column(t2, "invoice_date"), MonthOf))
    else t
  }

  function AddDerivedColumns(t: Table): (r: Table)
    requires WellFormed(t)
    ensures WellFormed(r) && |r.rows| == |t.rows| && r.columns == DerivedColumns(t.columns)
  {
    WithCalendar(WithTotal(t))
  }

  lemma WithTotalSpec(t: Table, i: nat)
    requires WellFormed(t) && i < |t.rows|
    ensures var r := WithTotal(t);
            var row := t.rows[i];
            && t.columns <= r.columns
            && (forall c :: c in r.columns && c !in t.columns ==> c == "total_value")
            && ("total_value" in r.columns <==>
                  "total_value" in t.columns || ("quantity" in t.columns && "unit_price" in t.columns))
            && ("quantity" in t.columns && "unit_price" in t.columns ==>
                  r.rows[i]["total_value"] == Product(row["quantity"], row["unit_price"]))
            && forall c :: c in t.columns && c != "total_value" ==> r.rows[i][c] == row[c]
  {
  }

  lemma WithCalendarSpec(t: Table, i: nat)
    requires WellFormed(t) && i < |t.rows|
    ensures var r := WithCalendar(t);
            var row := t.rows[i];
            && t.columns <= r.columns
            && (forall c :: c in r.columns && c !in t.columns ==> c == "year" || c == "month")
            && ("invoice_date" in t.columns ==>
                  && "year" in r.columns && "month" in r.columns
                  && r.rows[i]["year"] == YearOf(row["invoice_date"])
                  && r.rows[i]["month"] == MonthOf(row["invoice_date"]))
            && forall c :: c in t.columns && c != "year" && c != "month" ==> r.rows[i][c] == row[c]
  {
    if "invoice_date" in t.columns {
      var t2 := WithColumn(t, "year", MapSeq(Column(t, "invoice_date"), YearOf));
      assert t2.rows[i]["invoice_date"] == t.rows[i]["invoice_date"] by {
        assert "invoice_date" != "year";
      }
    }
  }

  /** The derived columns are added (or overwritten) only when their inputs
      exist, the original columns keep their order and their cells, and each
      derived cell is computed from its own row. */
  lemma AddDerivedColumnsSpec(t: Table, i: nat)
    requires WellFormed(t) && i < |t.rows|
    ensures var r := AddDerivedColumns(t);
            var row := t.rows[i];
            var out := r.rows[i];
            && t.columns <= r.columns
            && (forall c :: c in r.columns && c !in t.columns ==> c in ["total_value", "year", "month"])
            && ("total_value" in r.columns <==>
                  "total_value" in t.columns || ("quantity" in t.columns && "unit_price" in t.columns))
            && ("quantity" in t.columns && "unit_price" in t.columns ==>
                  out["total_value"] == Product(row["quantity"], row["unit_price"]))
            && ("invoice_date" in t.columns ==>
                  && "year" in r.columns && "month" in r.columns
                  && out["year"] == YearOf(row["invoice_date"])
                  && out["month"] == MonthOf(row["invoice_date"]))
            && forall c :: c in t.columns && c != "total_value" && c != "year" && c != "month" ==>
                  out[c] == row[c]
  {
    var t1 := WithTotal(t);
    WithTotalSpec(t, i);
    WithCalendarSpec(t1, i);
    var r := WithCalendar(t1);
    DerivedComposition(t.columns, t1.columns, r.columns, t.rows[i], t1.rows[i], r.rows[i]);
  }

  /** The two derivation steps, put together: stated on any three rows and
      column lists related as WithTotalSpec and WithCalendarSpec relate them. */
  lemma DerivedComposition(cols: seq<string>, cols1: seq<string>, rcols: seq<string>, row: Row, row1: Row, out: Row)
    requires row.Keys == ColumnSet(cols) && row1.Keys == ColumnSet(cols1) && out.Keys == ColumnSet(rcols)
    requires cols <= cols1 && cols1 <= rcols
    requires forall c :: c in cols1 && c !in cols ==> c == "total_value"
    requires forall c :: c in rcols && c !in cols1 ==> c == "year" || c == "month"
    requires "total_value" in cols1 <==> "total_value" in cols || ("quantity" in cols && "unit_price" in cols)
    requires "quantity" in cols && "unit_price" in cols ==>
               row1["total_value"] == Product(row["quantity"], row["unit_price"])
    requires forall c :: c in cols && c != "total_value" ==> row1[c] == row[c]
    requires "invoice_date" in cols1 ==>
               && "year" in rcols && "month" in rcols
               && out["year"] == YearOf(row1["invoice_date"])
               && out["month"] == MonthOf(row1["invoice_date"])
    requires forall c :: c in cols1 && c != "year" && c != "month" ==> out[c] == row1[c]
    ensures && cols <= rcols
            && (forall c :: c in rcols && c !in cols ==> c in ["total_value", "year", "month"])
            && ("total_value" in rcols <==> "total_value" in cols || ("quantity" in cols && "unit_price" in cols))
            && ("quantity" in cols && "unit_price" in cols ==>
                  out["total_value"] == Product(row["quantity"], row["unit_price"]))
            && ("invoice_date" in cols ==>
                  && "year" in rcols && "month" in rcols
                  && out["year"] == YearOf(row["invoice_date"])
                  && out["month"] == MonthOf(row["invoice_date"]))
            && forall c :: c in cols && c != "total_value" && c != "year" && c != "month" ==> out[c] == row[c]
  {
    assert cols <= rcols by {
      assert forall k :: 0 <= k < |cols| ==> rcols[k] == cols1[k] == cols[k];
    }
    assert "total_value" in cols1 ==> "total_value" in rcols by {
      if "total_value" in cols1 {
        var k :| 0 <= k < |cols1| && cols1[k] == "total_value";
        assert rcols[k] == "total_value";
      }
    }
    forall c | c in rcols && c !in cols ensures c in ["total_value", "year", "month"] {
      if c in cols1 {
        assert c == "total_value";
      }
    }
    if "invoice_date" in cols {
      assert "invoice_date" in cols1;
    }
    if "quantity" in cols && "unit_price" in cols {
      assert "total_value" in cols1;
    }
  }
}
