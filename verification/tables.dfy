/** The sales table as the pipeline sees it once pandas has read it: an ordered
    column list and an ordered sequence of rows, each row a map from column name
    to a cell. Also the two ways a stage selects rows (a boolean mask and a
    predicate) and the column assignment `df[c] = values`. */
module Tables {

  datatype Option<T> = None | Some(value: T)

  type Month = m: int | 1 <= m <= 12 witness 1
  type Day = d: int | 1 <= d <= 31 witness 1

  /** One cell. `Missing` stands for every pandas gap: NaN, NaT and None. A
      timestamp keeps its time of day (in the parser's unit) so that two rows
      differing only in time are not equal. */
  datatype Value =
    | Missing
    | Str(s: string)
    | Num(x: real)
    | Date(year: int, month: Month, day: Day, time: nat)
    | Flag(b: bool)

  type Row = map<string, Value>

  datatype Table = Table(columns: seq<string>, rows: seq<Row>)

  predicate Distinct<T(==)>(s: seq<T>) {
    forall i, j :: 0 <= i < j < |s| ==> s[i] != s[j]
  }

  function ColumnSet(cols: seq<string>): set<string> {
    set c | c in cols
  }

  /** Column labels are unique and every row has exactly the table's columns. */
  ghost predicate WellFormed(t: Table) {
    && Distinct(t.columns)
    && forall i :: 0 <= i < |t.rows| ==> t.rows[i].Keys == ColumnSet(t.columns)
  }

  /** The cells of column `c`, top to bottom (`df[c]`). */
  function Column(t: Table, c: string): (col: seq<Value>)
    requires WellFormed(t) && c in t.columns
    ensures |col| == |t.rows|
    ensures forall i :: 0 <= i < |col| ==> col[i] == t.rows[i][c]
  {
    seq(|t.rows|, i requires 0 <= i < |t.rows| => t.rows[i][c])
  }

  /** The column list after `df[c] = ...`. */
  function Named(cols: seq<string>, c: string): (r: seq<string>)
    ensures cols <= r && forall x :: x in r <==> x in cols || x == c
  {
    if c in cols then cols else cols + [c]
  }

  /** `df[c] = col`: an existing column is overwritten where it stands, a new
      one is appended after the last column. */
  function WithColumn(t: Table, c: string, col: seq<Value>): (r: Table)
    requires WellFormed(t) && |col| == |t.rows|
    ensures WellFormed(r)
    ensures r.columns == Named(t.columns, c)
    ensures |r.rows| == |t.rows|
    ensures forall i :: 0 <= i < |r.rows| ==> r.rows[i] == t.rows[i][c := col[i]]
  {
    var cols := if c in t.columns then t.columns else t.columns + [c];
    assert ColumnSet(cols) == ColumnSet(t.columns) + {c};
    Table(cols, seq(|t.rows|, i requires 0 <= i < |t.rows| => t.rows[i][c := col[i]]))
  }

  /** Cellwise map of one column. */
  function MapColumn(t: Table, c: string, f: Value -> Value): (r: Table)
    requires WellFormed(t) && c in t.columns
    ensures WellFormed(r) && r.columns == t.columns && |r.rows| == |t.rows|
    ensures forall i :: 0 <= i < |r.rows| ==> r.rows[i] == t.rows[i][c := f(t.rows[i][c])]
  {
    WithColumn(t, c, seq(|t.rows|, i requires 0 <= i < |t.rows| => f(t.rows[i][c])))
  }

  // ---------------------------------------------------------------------------
  // Row selection

  /** `s[mask]`: the elements whose mask entry is true, in their original order. */
  function Select<T>(s: seq<T>, mask: seq<bool>): seq<T>
    requires |mask| == |s|
  {
    if s == [] then []
    else Select(s[..|s| - 1], mask[..|s| - 1]) + (if mask[|s| - 1] then [s[|s| - 1]] else [])
  }

  /** `a` is `b` with some elements left out and the rest in their original order. */
  ghost predicate IsSubsequence<T>(a: seq<T>, b: seq<T>) {
    exists mask: seq<bool> {:trigger Select(b, mask)} :: |mask| == |b| && Select(b, mask) == a
  }

  /** The positions at which `mask` is true, strictly increasing: together with
      SelectAt this says that Select keeps exactly those positions, in order. */
  function TrueIndices(mask: seq<bool>): (ix: seq<nat>)
    ensures forall k :: 0 <= k < |ix| ==> ix[k] < |mask| && mask[ix[k]]
    ensures forall k, l :: 0 <= k < l < |ix| ==> ix[k] < ix[l]
    ensures forall i :: 0 <= i < |mask| && mask[i] ==> i in ix
  {
    if mask == [] then []
    else
      var pre := TrueIndices(mask[..|mask| - 1]);
      if mask[|mask| - 1] then pre + [|mask| - 1] else pre
  }

  lemma {:induction false} SelectAt<T>(s: seq<T>, mask: seq<bool>)
    requires |mask| == |s|
    ensures |Select(s, mask)| == |TrueIndices(mask)|
    ensures forall k :: 0 <= k < |Select(s, mask)| ==> Select(s, mask)[k] == s[TrueIndices(mask)[k]]
  {
    if s != [] {
      var n := |s| - 1;
      SelectAt(s[..n], mask[..n]);
    }
  }

  lemma {:induction false} SelectAllTrue<T>(s: seq<T>, mask: seq<bool>)
    requires |mask| == |s|
    requires forall i :: 0 <= i < |mask| ==> mask[i]
    ensures Select(s, mask) == s
  {
    if s != [] {
      var n := |s| - 1;
      SelectAllTrue(s[..n], mask[..n]);
      assert s[..n] + [s[n]] == s;
    }
  }

  lemma {:induction false} SelectMembers<T>(s: seq<T>, mask: seq<bool>, x: T)
    requires |mask| == |s|
    ensures x in Select(s, mask) <==> exists i :: 0 <= i < |s| && mask[i] && s[i] == x
  {
    if s != [] {
      var n := |s| - 1;
      SelectMembers(s[..n], mask[..n], x);
      if x in Select(s[..n], mask[..n]) {
        var i :| 0 <= i < n && mask[..n][i] && s[..n][i] == x;
        assert mask[i] && s[i] == x;
      }
      if exists i :: 0 <= i < |s| && mask[i] && s[i] == x {
        var i :| 0 <= i < |s| && mask[i] && s[i] == x;
        if i < n { assert mask[..n][i] && s[..n][i] == x; }
      }
    }
  }

  lemma {:induction false} SelectAllFalse<T>(s: seq<T>, mask: seq<bool>)
    requires |mask| == |s|
    requires forall i :: 0 <= i < |mask| ==> !mask[i]
    ensures Select(s, mask) == []
  {
    if s != [] {
      var n := |s| - 1;
      SelectAllFalse(s[..n], mask[..n]);
    }
  }

  lemma SubsequenceOfSelect<T>(s: seq<T>, mask: seq<bool>)
    requires |mask| == |s|
    ensures IsSubsequence(Select(s, mask), s)
  {
  }

  /** The elements of `s` satisfying `p`, in their original order. */
  function Filter<T(==,!new)>(s: seq<T>, p: T -> bool): (r: seq<T>)
    ensures |r| <= |s|
    ensures forall x {:trigger x in r} :: x in r <==> x in s && p(x)
    ensures forall x {:trigger multiset(r)[x]} :: multiset(r)[x] == if p(x) then multiset(s)[x] else 0
  {
    if s == [] then []
    else
      var n := |s| - 1;
      assert s == s[..n] + [s[n]];
      Filter(s[..n], p) + (if p(s[n]) then [s[n]] else [])
  }

  /** `f` applied to every element; with a predicate it is the mask that
      Filter applies, with a cell conversion a column's `.apply`. */
  function MapSeq<A, B>(s: seq<A>, f: A -> B): (r: seq<B>)
    ensures |r| == |s| && forall i :: 0 <= i < |s| ==> r[i] == f(s[i])
  {
    seq(|s|, i requires 0 <= i < |s| => f(s[i]))
  }

  lemma {:induction false} FilterIsSelect<T(!new)>(s: seq<T>, p: T -> bool)
    ensures Filter(s, p) == Select(s, MapSeq(s, p))
    ensures IsSubsequence(Filter(s, p), s)
  {
    if s != [] {
      var n := |s| - 1;
      FilterIsSelect(s[..n], p);
      assert MapSeq(s, p)[..n] == MapSeq(s[..n], p);
    }
  }

  /** Filtering by a predicate every element already satisfies changes nothing. */
  lemma {:induction false} FilterAll<T(!new)>(s: seq<T>, p: T -> bool)
    requires forall i :: 0 <= i < |s| ==> p(s[i])
    ensures Filter(s, p) == s
  {
    if s != [] {
      var n := |s| - 1;
      FilterAll(s[..n], p);
      assert s[..n] + [s[n]] == s;
    }
  }

  /** Filtering by a predicate nothing satisfies leaves nothing. */
  lemma FilterNone<T(!new)>(s: seq<T>, p: T -> bool)
    requires forall x :: x in s ==> !p(x)
    ensures Filter(s, p) == []
  {
    if Filter(s, p) != [] {
      assert Filter(s, p)[0] in Filter(s, p);
    }
  }

  /** A predicate and its negation split a sequence into two filters that
      together hold every element exactly as often as before. */
  lemma FilterPartition<T(!new)>(s: seq<T>, p: T -> bool, q: T -> bool)
    requires forall x :: q(x) == !p(x)
    ensures multiset(Filter(s, p)) + multiset(Filter(s, q)) == multiset(s)
  {
    forall x ensures (multiset(Filter(s, p)) + multiset(Filter(s, q)))[x] == multiset(s)[x] {
      assert multiset(Filter(s, p))[x] == if p(x) then multiset(s)[x] else 0;
      assert multiset(Filter(s, q))[x] == if q(x) then multiset(s)[x] else 0;
    }
  }

  /** A row selection keeps a well-formed table well-formed. */
  lemma RowsOfSubsequence(t: Table, rows: seq<Row>)
    requires WellFormed(t)
    requires forall r :: r in rows ==> r in t.rows
    ensures WellFormed(Table(t.columns, rows))
  {
    forall i | 0 <= i < |rows| ensures rows[i].Keys == ColumnSet(t.columns) {
      assert rows[i] in t.rows;
    }
  }
}
