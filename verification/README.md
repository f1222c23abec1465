# Retail sales cleaning pipeline, in Dafny

This project models the batch cleaning pipeline of `retail_pipeline.py`.
The pipeline reads one sales table, then runs eight stages in a fixed order:

1. standardise the headers;
2. coerce dates and numbers;
3. drop rows without an invoice number or date;
4. fill and trim descriptions, and cast customer ids to floats;
5. normalise descriptions and countries;
6. add `total_value`, `year` and `month`;
7. log and drop duplicate rows;
8. flag (and optionally remove) IQR outliers in quantity and unit price.

From the cleaned table it then computes the summary tables: revenue per (year, month), the ten best-selling products, the number of distinct customers and the average order value.

A table is an ordered column list plus an ordered sequence of rows, each row a map from column name to a cell. A cell is one of:

- `Missing`, which stands for NaN, NaT and None;
- text;
- an exact real;
- a timestamp;
- a boolean flag.

The logs the source writes to CSV (duplicates, outliers) and the summary tables are return values.

The code is in these modules:

| file | module | what it holds |
|---|---|---|
| `tables.dfy` | `Tables` | cells, rows, tables, `df[c] = ...`, row selection by mask and by predicate |
| `text.dfy` | `Text` | `str.strip`, `str.lower`, `str.title` |
| `headers.dfy` | `Headers` | `standardize_column_names`: the loops as methods and the functions they are proved against |
| `cleaning.dfy` | `Cleaning` | `convert_dtypes`, `drop_invalid_invoices`, `handle_missing_values`, `normalize_categorical`, `add_derived_columns` |
| `dedup.dfy` | `Deduplication` | `deduplicate_and_log` |
| `quantile.dfy` | `Quantiles` | `Series.quantile` (linear interpolation) and `detect_outliers_iqr` |
| `outliers.dfy` | `Outliers` | `flag_and_optionally_remove_outliers`, including the index scatter of the masks |
| `summary.dfy` | `Summary` | `create_summary_tables` (tables and metrics) |
| `pipeline.dfy` | `Pipeline` | the data frame as a class whose methods run the stages in place, the composed stage order, and what that order guarantees end to end |

The stages that assign columns in place are methods of `Pipeline.Frame`, each proved equal to the stage's function:

- `convert_dtypes`;
- `handle_missing_values`;
- `normalize_categorical`;
- `add_derived_columns`;
- the flag columns of the outlier stage.

The stages that return a new frame are functions:

- `dropna`;
- `drop_duplicates`;
- row masks;
- the groupby chains.

## Model

| member | source | states |
|---|---|---|
| Tables.WithColumn | retail_pipeline.py:168 | `df[c] = col`: an existing column is overwritten where it stands, a new one is appended last; row i gets `col[i]` under `c` and keeps every other cell |
| Tables.FilterIsSelect | retail_pipeline.py:98 | selecting rows by a predicate is selecting them by the mask of that predicate, so survivors keep their relative order |
| Tables.FilterPartition | retail_pipeline.py:179-185 | a row test and its negation split the rows into two selections that together hold every row exactly as often as before |
| Text.StripIdempotent | retail_pipeline.py:116 | `strip()` applied twice is `strip()` once |
| Text.TitleIdempotent | retail_pipeline.py:129 | `title()` applied twice is `title()` once |
| Text.TitleAt | retail_pipeline.py:129 | `title()` upper-cases a letter that follows no cased character and lower-cases one that does; other characters stay |
| Text.TitleTrimmed | retail_pipeline.py:129 | title-casing a trimmed string leaves it trimmed |
| Text.TitleJoin | retail_pipeline.py:129 | title-casing two words joined by a space title-cases each word |
| Headers.NormalizeShape | retail_pipeline.py:16-17 | a normalised header is trimmed, has no space, hyphen or ISO-8859-1 capital letter, and is no longer than the original |
| Headers.NormalizeIdempotent | retail_pipeline.py:16-17 | normalising a normalised header changes nothing |
| Headers.LowerOfNormalized | retail_pipeline.py:23 | the `c.lower()` key of `cols_lower` is the normalised header itself |
| Headers.AliasesDisjoint | retail_pipeline.py:25-71 | no spelling belongs to two canonical names, and each canonical name is one of its own spellings |
| Headers.RenameMapUpToSpec | retail_pipeline.py:22-71 | `rename_map` holds exactly the spelling chosen for each canonical name, mapped to that name |
| Headers.StandardizeHeaders | retail_pipeline.py:13-74 | the loops of `standardize_column_names` compute the standardised header list |
| Headers.BuildRenameMap | retail_pipeline.py:22-71 | the candidate scan with `break` on the first present spelling builds `rename_map` |
| Headers.RenameHeaders | retail_pipeline.py:73 | `rename(columns=rename_map)` renames the mapped headers, keeps the others and keeps the order |
| Headers.StandardizedShape | retail_pipeline.py:13-74 | each output header is the normalised input header or a canonical name, and it is renamed only when it is the spelling chosen for that name |
| Headers.FirstCandidateWins | retail_pipeline.py:26-71 | the first spelling present becomes the canonical name; a later spelling of the same name keeps its normalised form |
| Headers.UnmatchedKeepsName | retail_pipeline.py:19 | a header that is no accepted spelling keeps its normalised name |
| Headers.CanonicalPresentIff | retail_pipeline.py:22-73 | a canonical name is among the output headers exactly when one of its spellings is among the normalised inputs |
| Headers.ExampleInvoiceNoUnitPrice | retail_pipeline.py:13-74 | "InvoiceNo", "UnitPrice" become invoice_no, unit_price |
| Headers.ExampleUnitPriceQty | retail_pipeline.py:50-59 | "Unit Price", "Qty" become unit_price, quantity |
| Cleaning.ToDatetime | retail_pipeline.py:79 | `to_datetime(errors="coerce")` yields a timestamp or Missing: Missing and timestamps are kept, a parsed cell becomes the timestamp it parses to, an unparseable cell becomes Missing |
| Cleaning.ToNumeric | retail_pipeline.py:82-85 | `to_numeric(errors="coerce")` yields a number or Missing: Missing and numbers are kept, a parsed cell becomes the number it parses to, an unparseable cell becomes Missing |
| Cleaning.ConvertDtypesCells | retail_pipeline.py:77-87 | coercion keeps columns and rows, converts the three typed columns and leaves every other cell |
| Cleaning.ConvertDtypesTypes | retail_pipeline.py:77-87 | after coercion dates are timestamps or Missing and quantities and prices numbers or Missing; in each of the three columns a cell already of that type keeps its value, a parsed cell holds the parsed value, and an unparseable cell is Missing |
| Cleaning.RequiredColumns | retail_pipeline.py:91-95 | `cols_to_check` is invoice_no and invoice_date, each only when present |
| Cleaning.DropInvalidInvoices | retail_pipeline.py:90-100 | the kept rows are exactly those with both checked cells present, each as often as before |
| Cleaning.DropInvalidInvoicesOrder | retail_pipeline.py:97-100 | survivors keep their order; without either column the table is unchanged |
| Cleaning.FillUnknown | retail_pipeline.py:115 | `fillna("Unknown")` replaces Missing and nothing else |
| Cleaning.StripCell | retail_pipeline.py:116 | `astype(str).str.strip()` yields trimmed text |
| Cleaning.ToFloat | retail_pipeline.py:118-119 | `astype("float64")` on a cell yields a number or Missing: Missing and numbers are kept, any other accepted cell becomes the number (or NaN) it casts to |
| Cleaning.HandleMissingValues | retail_pipeline.py:113-121 | defined only where the float cast accepts every customer id; every row gets its description filled and trimmed and its customer id cast, nothing else changes |
| Cleaning.CountryAlias | retail_pipeline.py:130-135 | "Uk" and "United Kingdom" become "United Kingdom", "Eire" becomes "Ireland", anything else passes |
| Cleaning.NormalizeCategorical | retail_pipeline.py:124-137 | every row gets its description trimmed and its country cleaned, nothing else changes |
| Cleaning.CleanRowSpec | retail_pipeline.py:113-137 | after both cell stages a missing description is "Unknown", every description is trimmed text, a missing country is "Nan", a text country is trimmed, title-cased and aliased, a customer id is cast to a number or Missing (one that already is one is kept), other cells stay |
| Cleaning.CleanCountryIdempotent | retail_pipeline.py:129-135 | cleaning a cleaned country changes nothing |
| Cleaning.CleanCellsIdempotent | retail_pipeline.py:113-137 | the float cast accepts the customer ids of the stages' output, and running the two cell stages on their own output changes nothing |
| Cleaning.CountryUK | retail_pipeline.py:129-135 | "UK" becomes "United Kingdom" |
| Cleaning.CountryPaddedUnitedKingdom | retail_pipeline.py:129-135 | " United Kingdom " becomes "United Kingdom" |
| Cleaning.CountryEire | retail_pipeline.py:129-135 | "eire" becomes "Ireland" |
| Cleaning.CountryFrance | retail_pipeline.py:129-135 | "france" passes the alias table as "France" |
| Cleaning.CountryMissing | retail_pipeline.py:129 | a missing country prints as "nan" and ends as "Nan" |
| Cleaning.Product | retail_pipeline.py:142 | the product of two numbers, Missing when either factor is Missing |
| Cleaning.MonthOf | retail_pipeline.py:146 | `.dt.month` is in 1..12, Missing for a missing date |
| Cleaning.YearOf | retail_pipeline.py:145 | `.dt.year` of a timestamp, Missing for a missing date |
| Cleaning.DerivedColumnsSpec | retail_pipeline.py:140-148 | the derived columns come after the given ones, only total_value, year and month are new, and year and month exist wherever invoice_date does |
| Cleaning.AddDerivedColumns | retail_pipeline.py:140-148 | the stage's column list is the derived column list of its input |
| Cleaning.AddDerivedColumnsSpec | retail_pipeline.py:140-148 | total_value is added only with quantity and unit_price and is their product; year and month come from the row's own date; no other cell changes |
| Deduplication.CountAboveOneIffTwin | retail_pipeline.py:104 | a value occurs more than once exactly when some other position holds it |
| Deduplication.FirstOccurrences | retail_pipeline.py:109 | position i is kept exactly when its value does not occur earlier |
| Deduplication.DedupSpec | retail_pipeline.py:109 | `drop_duplicates()` keeps the first occurrence of every distinct row, in order, without repeats and without losing a value |
| Deduplication.DuplicateLog | retail_pipeline.py:104 | `duplicated(keep=False)` selects exactly the rows that occur more than once, each as often as it occurs |
| Deduplication.DuplicateLogIff | retail_pipeline.py:104 | a row is logged exactly when another row equals it, and the log keeps the table's order |
| Deduplication.DeduplicateTwice | retail_pipeline.py:103-110 | dedup of its own output returns the same table and an empty log |
| Deduplication.DedupExample | retail_pipeline.py:109 | of a, b, a the rows a, b are kept |
| Deduplication.DuplicateLogExample | retail_pipeline.py:104 | of a, b, a both copies of a are logged |
| Quantiles.Sort | retail_pipeline.py:152-153 | the values in ascending order, a permutation of the input |
| Quantiles.SortedUnique | retail_pipeline.py:152-153 | two sorted sequences with the same values are equal |
| Quantiles.InterpolateMonotone | retail_pipeline.py:152-153 | the linear interpolation grows with the position |
| Quantiles.QuantileBetween | retail_pipeline.py:152-153 | a quantile lies between the least and the greatest value |
| Quantiles.QuartilesOrdered | retail_pipeline.py:152-154 | Q1 never exceeds Q3, so the IQR is not negative |
| Quantiles.IqrBounds | retail_pipeline.py:152-156 | there are no bounds exactly when the series is empty |
| Quantiles.DetectOutliersIqr | retail_pipeline.py:151-158 | the mask flags exactly the values strictly below `lower` or strictly above `upper` |
| Quantiles.IqrBoundsSpec | retail_pipeline.py:152-157 | `lower = Q1 - 1.5 * IQR`, `upper = Q3 + 1.5 * IQR`, the fences bracket the quartiles, and values between the quartiles or on a fence are not flagged |
| Quantiles.IqrBoundsOrderFree | retail_pipeline.py:152-156 | the fences depend only on the values, not on their order |
| Quantiles.ExampleQuartiles | retail_pipeline.py:152-153 | the quartiles of 1, 2, 2, 3, 3, 3, 4, 4, 100 are 2 and 4 |
| Quantiles.IqrExample | retail_pipeline.py:151-158 | for that series the fences are -1 and 7 and only 100 is flagged |
| Outliers.NumberPositions | retail_pipeline.py:165 | `dropna()` keeps exactly the positions holding a number, in increasing order |
| Outliers.NumbersAreTheNumericCells | retail_pipeline.py:165 | the quartiles see exactly the column's numbers |
| Outliers.Scatter | retail_pipeline.py:166-167 | `full_mask` is false everywhere except at the detected positions, which hold the detection result |
| Outliers.ScatteredDetection | retail_pipeline.py:165-168 | the scattered detection is the column's flag list |
| Outliers.FlagColumn | retail_pipeline.py:165-168 | detection then scatter computes the column's flags |
| Outliers.ColumnFlagsSpec | retail_pipeline.py:165-168 | a Missing cell is not flagged; a number is flagged exactly when it is strictly outside the fences of the column's numbers |
| Outliers.NumbersOrderFree | retail_pipeline.py:165 | columns holding the same cells in any order give `dropna()` the same multiset of numbers |
| Outliers.FlagsOrderFree | retail_pipeline.py:150-168 | permuting a column's cells gives the same fences, flags equal cells alike wherever they sit, and flags the same multiset of cells |
| Outliers.AddFlagColumnSpec | retail_pipeline.py:164-175 | a flag column is written only when its source column exists; every other column keeps its cells |
| Outliers.FlagColumnsSpec | retail_pipeline.py:164-176 | each flag column exists exactly when its source column does (or it was already there), after the other columns |
| Outliers.FlaggedSpec | retail_pipeline.py:162-176 | both flag columns hold their source's flags and every other cell is unchanged |
| Outliers.OutlierColumns | retail_pipeline.py:162-176 | `outlier_cols` holds a flag column exactly when its source column exists |
| Outliers.FlaggedRows | retail_pipeline.py:179 | the log holds exactly the rows with some flag set, in order |
| Outliers.CleanRows | retail_pipeline.py:185 | the kept rows are exactly the unflagged ones, in order, and with the log they make up the table |
| Outliers.OutlierLogSpec | retail_pipeline.py:178-182 | the outlier log is exactly the flagged table's rows with some present flag set, in order, with or without removal |
| Outliers.OutlierKeepSpec | retail_pipeline.py:184-187 | without `remove` the result is the flagged table |
| Outliers.OutlierRemovalSpec | retail_pipeline.py:184-187 | with `remove` the result is exactly the unflagged rows, in order, and result plus log are the flagged table's rows |
| Summary.GroupsSpec | retail_pipeline.py:193-194 | the groups are one per distinct key, each with the sum of its rows, and together they add up to the sum of all rows |
| Summary.RegroupedSpec | retail_pipeline.py:193-207 | any reordering of the groups keeps these properties |
| Summary.KeyLeTotalOrder | retail_pipeline.py:196 | the (year, month) order with NaN last is a total order |
| Summary.SortByKey | retail_pipeline.py:196 | `sort_values(["year", "month"])` is ascending and a permutation |
| Summary.RevenueByMonth | retail_pipeline.py:191-200 | the table exists exactly when total_value and invoice_date do |
| Summary.RevenueByMonthSpec | retail_pipeline.py:191-197 | one entry per (year, month) present, NaN included, strictly ascending, each with its own revenue; the entries add up to the whole revenue |
| Summary.SortByTotal | retail_pipeline.py:207 | `sort_values("total_value", ascending=False)` is non-increasing and a permutation |
| Summary.Head | retail_pipeline.py:208 | `head(n)` is the first n entries, or all when fewer |
| Summary.TopProducts | retail_pipeline.py:202-212 | the table exists exactly when total_value and description do, and has at most ten rows |
| Summary.TopGroups | retail_pipeline.py:203-208 | the first n groups by total are distinct, largest first, each with its own total, and no group left out has a larger total |
| Summary.TopOfRanking | retail_pipeline.py:207-208 | cutting a ranking of distinct keys leaves out nothing larger than an entry kept |
| Summary.Labelled | retail_pipeline.py:204 | `groupby` drops exactly the rows whose key is Missing |
| Summary.TopProductsSpec | retail_pipeline.py:202-209 | at most ten distinct non-missing descriptions, largest first, as many as there are up to ten, each with its own sales, none omitted that sold more than one listed |
| Summary.PresentCells | retail_pipeline.py:215 | the present cells of a column are exactly its non-missing values |
| Summary.UniqueCustomers | retail_pipeline.py:214-217 | a count exists exactly when customer_id does |
| Summary.DedupCard | retail_pipeline.py:215 | `nunique` counted by deduplication is the number of distinct values, at most the number of values |
| Summary.UniqueCustomersSpec | retail_pipeline.py:214-217 | the count is the number of distinct non-missing customer ids, at most the number of rows |
| Summary.AverageOrderValue | retail_pipeline.py:219-223 | an average exists only when invoice_no and total_value do |
| Summary.AverageOrderValueSpec | retail_pipeline.py:219-223 | the average is the revenue of rows with an invoice number divided by the number of distinct invoices; it is None exactly when no row has an invoice number |
| Summary.CreateSummaryTables | retail_pipeline.py:190-230 | the monthly revenue, the top products and the customer count are present exactly when the columns they need are; the average order value is present exactly when invoice_no and total_value exist and some row has an invoice number |
| Pipeline.Relabel | retail_pipeline.py:19 | `rename` keeps every cell under the column's new name |
| Pipeline.StandardizeTable | retail_pipeline.py:13-74 | the table's headers become the standardised headers, cells unchanged |
| Pipeline.Frame.constructor | retail_pipeline.py:273 | the frame holds the table it was given |
| Pipeline.Frame.Assign | retail_pipeline.py:168 | `df[c] = col` updates the frame to `WithColumn` of its old contents |
| Pipeline.Frame.StandardizeColumnNames | retail_pipeline.py:275 | the frame's headers are standardised in place |
| Pipeline.Frame.ConvertDtypes | retail_pipeline.py:77-87 | the in-place column assignments give the coercion stage's table |
| Pipeline.Frame.DropInvalidInvoices | retail_pipeline.py:90-100 | the frame becomes the filtered table |
| Pipeline.Frame.HandleMissingValues | retail_pipeline.py:113-121 | when the float cast accepts every customer id, the in-place assignments give the fill, trim and cast stage's table |
| Pipeline.Frame.NormalizeCategorical | retail_pipeline.py:124-137 | the in-place assignments give the normalisation stage's table |
| Pipeline.Frame.AddDerivedColumns | retail_pipeline.py:140-148 | the in-place assignments give the derived-column stage's table |
| Pipeline.Frame.DeduplicateAndLog | retail_pipeline.py:103-110 | returns the duplicate log and keeps the first occurrences |
| Pipeline.Frame.AddFlag | retail_pipeline.py:164-168 | one `if source in df.columns` block writes that flag column and reports whether it joins `outlier_cols` |
| Pipeline.Frame.AddFlags | retail_pipeline.py:162-176 | both blocks write the flag columns and collect `outlier_cols` |
| Pipeline.Frame.FlagAndOptionallyRemoveOutliers | retail_pipeline.py:161-187 | the frame becomes the outlier stage's table and the method returns its log |
| Pipeline.Clean | retail_pipeline.py:275-282 | the stages composed in order; the cleaned columns are the standardised columns, then the derived columns, then the flags |
| Pipeline.CleanAndAnalyze | retail_pipeline.py:270-287 | running the frame through every stage gives the composed result, and the summary is computed from the cleaned table |
| Pipeline.CleanedHasCalendar | retail_pipeline.py:275-282 | after the run, year and month exist wherever invoice_date does, as the monthly revenue needs |
| Pipeline.CleanedInvoicesComplete | retail_pipeline.py:275-282 | every cleaned row has an invoice number and a parsed invoice date, for whichever of the two columns exist |
| Pipeline.CleanedText | retail_pipeline.py:275-282 | every cleaned description is trimmed text and every cleaned country is text |
| Pipeline.CleanedRowsDistinct | retail_pipeline.py:280-282 | the cleaned table has no two equal rows, because dedup runs after every stage that rewrites cells |
| Pipeline.DerivePreserves | retail_pipeline.py:280 | deriving columns keeps every other column and its cells |
| Pipeline.OutliersPreserve | retail_pipeline.py:282 | the outlier stage keeps every column but the flags and its cells |

## Left out

- Reading and writing CSV files, the ISO-8859-1 decoding, and creating directories: the table arrives as a value, and the logs and summary tables are return values. The source writes the duplicate and outlier logs only when they are non-empty; the model returns them either way.
- Charts, the command line and `app.py`. `app.py` is an exploratory script with module-level I/O and no functions.
- The grammars of `pd.to_datetime`, `pd.to_numeric` and `astype("float64")`, and how `astype(str)` prints a non-text cell. They are the parameters `parseDate`, `parseNumber`, `castFloat` and `render` of `Cleaning.Codec`.
- float64 arithmetic, rounding and NaN in products, sums, means and the fences: arithmetic is exact `real`.
- Cleaning.CleanCountry, Headers.Normalize, Text.Lower, Text.Title: case mapping covers the ISO-8859-1 letters whose other case is in ISO-8859-1. `ß`, `ÿ` and `µ` count as cased but are left unchanged by `upper()` and `title()`, where Python gives "SS", U+0178 and U+039C; so "no capital" in Headers.NormalizeShape means no ISO-8859-1 capital.
- Cleaning.HandleMissingValues: requires that `astype("float64")` accepts every customer id the stage sees (`Cleaning.CastableIds`). On an id such as "C123" in a row that survives the validity filter, the source raises ValueError and the run stops, which the model does not represent. `Pipeline.Clean`, `Pipeline.CleanAndAnalyze`, `Pipeline.Frame.HandleMissingValues` and the `Pipeline.Cleaned*` lemmas carry the same requirement, stated on the table after coercion and the validity filter, which holds exactly the ids the source casts. Ids in rows the filter drops are never cast and are unconstrained.
- Summary.TopProducts: tied totals are ordered by a stable insertion sort. pandas' default quicksort leaves tie order unspecified, so the contracts say nothing about it.
- Pipeline.StandardizeTable: requires the standardised headers to be distinct. pandas allows two columns to end up with the same label, e.g. when both `invoiceno` and `invoice_no` exist.
- Pipeline.Frame.StandardizeColumnNames: has the same precondition.
- Summary.CreateSummaryTables: requires year and month wherever invoice_date exists. Without them the source's groupby fails; after the pipeline they always exist (`Pipeline.CleanedHasCalendar`).
- Summary.MonthKeys: a year or month cell that is not a number is grouped with the NaN key. The monthly revenue is computed only when invoice_date exists, and then the pipeline has just recomputed year and month from the dates, so these cells are numbers or Missing.
- Summary.Amounts: a `total_value` cell that is not a number counts as 0, as Missing does. This matters when the input already has a `total_value` column but lacks quantity or unit_price: the derived-columns stage then keeps the raw column, and where it holds text pandas' `sum` concatenates strings or raises instead.
- Pipeline.CleanedRowsDistinct: requires that the input has no column already named `is_outlier_quantity` or `is_outlier_unit_price`. Overwriting such a column could make two different rows equal.
- Frame methods (`Pipeline.Frame.*`): the frame's rows are a sequence field that each method reassigns. pandas' index labels and copy-versus-view behaviour are not modelled.
