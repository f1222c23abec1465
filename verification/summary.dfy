/** `create_summary_tables`: revenue per (year, month), the ten products with
    the largest sales, the number of distinct customers and the average order
    value. A group's total is the sum of its rows' `total_value`, a missing
    value counting as nothing (pandas `sum` skips NaN, and a group of only NaN
    sums to 0). */
module Summary {
  import opened Tables
  import opened Deduplication

  /** What one row contributes to a sum. */
  function Amount(v: Value): real {
    if v.Num? then v.x else 0.0
  }

  function Sum(xs: seq<real>): real {
    if xs == [] then 0.0 else Sum(xs[..|xs| - 1]) + xs[|xs| - 1]
  }

  // ---------------------------------------------------------------------------
  // groupby(key)[value].sum()

  /** The sum of the amounts of the rows whose key is `k`. */
  function Total<K(==)>(keys: seq<K>, amounts: seq<real>, k: K): real
    requires |keys| == |amounts|
  {
    if keys == [] then 0.0
    else
      var n := |keys| - 1;
      Total(keys[..n], amounts[..n], k) + (if keys[n] == k then amounts[n] else 0.0)
  }

  /** One (key, total) pair per key of `ds`, in the order of `ds`. */
  function Pairs<K(==)>(ds: seq<K>, keys: seq<K>, amounts: seq<real>): (ps: seq<(K, real)>)
    requires |keys| == |amounts|
    ensures |ps| == |ds| && forall j :: 0 <= j < |ds| ==> ps[j] == (ds[j], Total(keys, amounts, ds[j]))
  {
    seq(|ds|, j requires 0 <= j < |ds| => (ds[j], Total(keys, amounts, ds[j])))
  }

  /** The groups: one pair per distinct key. */
  function Groups<K(==)>(keys: seq<K>, amounts: seq<real>): seq<(K, real)>
    requires |keys| == |amounts|
  {
    Pairs(Dedup(keys), keys, amounts)
  }

  /** The sum of the totals of a list of groups. */
  function SumOf<K>(ps: seq<(K, real)>): real {
    if ps == [] then 0.0 else SumOf(ps[..|ps| - 1]) + ps[|ps| - 1].1
  }

  lemma TotalAppend<K>(keys: seq<K>, amounts: seq<real>, kl: K, al: real, k: K)
    requires |keys| == |amounts|
    ensures Total(keys + [kl], amounts + [al], k) == Total(keys, amounts, k) + (if kl == k then al else 0.0)
  {
    assert (keys + [kl])[..|keys|] == keys;
    assert (amounts + [al])[..|amounts|] == amounts;
  }

  lemma {:induction false} SumOfZero<K>(ps: seq<(K, real)>)
    requires forall j :: 0 <= j < |ps| ==> ps[j].1 == 0.0
    ensures SumOf(ps) == 0.0
  {
    if ps != [] {
      SumOfZero(ps[..|ps| - 1]);
    }
  }

  /** One more row adds its amount to the totals of the keys listed, once if
      its key is listed (the keys being distinct) and not at all otherwise. */
  lemma {:induction false} PairsStep<K>(ds: seq<K>, keys: seq<K>, amounts: seq<real>, kl: K, al: real)
    requires |keys| == |amounts| && Distinct(ds)
    ensures SumOf(Pairs(ds, keys + [kl], amounts + [al]))
              == SumOf(Pairs(ds, keys, amounts)) + (if kl in ds then al else 0.0)
  {
    if ds != [] {
      var m := |ds| - 1;
      var pre := ds[..m];
      assert Distinct(pre);
      PairsStep(pre, keys, amounts, kl, al);
      assert Pairs(ds, keys + [kl], amounts + [al])[..m] == Pairs(pre, keys + [kl], amounts + [al]);
      assert Pairs(ds, keys, amounts)[..m] == Pairs(pre, keys, amounts);
      TotalAppend(keys, amounts, kl, al, ds[m]);
      assert ds == pre + [ds[m]];
      assert kl in ds <==> kl in pre || kl == ds[m];
      assert kl == ds[m] ==> kl !in pre;
    }
  }

  /** Summing the totals of distinct keys that cover every row gives the sum
      of all rows: grouping neither loses nor double-counts an amount. */
  lemma {:induction false} TotalsConserve<K>(ds: seq<K>, keys: seq<K>, amounts: seq<real>)
    requires |keys| == |amounts| && Distinct(ds)
    requires forall i :: 0 <= i < |keys| ==> keys[i] in ds
    ensures SumOf(Pairs(ds, keys, amounts)) == Sum(amounts)
  {
    if keys == [] {
      SumOfZero(Pairs(ds, keys, amounts));
    } else {
      var n := |keys| - 1;
      TotalsConserve(ds, keys[..n], amounts[..n]);
      PairsStep(ds, keys[..n], amounts[..n], keys[n], amounts[n]);
      assert keys[..n] + [keys[n]] == keys;
      assert amounts[..n] + [amounts[n]] == amounts;
    }
  }

  /** The groups are one per distinct key, each key with its own total, and
      together they add up to the sum of all rows. */
  lemma GroupsSpec<K>(keys: seq<K>, amounts: seq<real>)
    requires |keys| == |amounts|
    ensures var g := Groups(keys, amounts);
            && Distinct(g)
            && |g| == |Dedup(keys)|
            && (forall j :: 0 <= j < |g| ==> g[j].1 == Total(keys, amounts, g[j].0))
            && (forall k :: k in keys <==> exists j :: 0 <= j < |g| && g[j].0 == k)
            && SumOf(g) == Sum(amounts)
  {
    GroupKeys(keys, amounts);
    GroupsSum(keys, amounts);
  }

  lemma GroupKeys<K>(keys: seq<K>, amounts: seq<real>)
    requires |keys| == |amounts|
    ensures var g := Groups(keys, amounts);
            && Distinct(g)
            && |g| == |Dedup(keys)|
            && (forall k :: k in keys <==> exists j :: 0 <= j < |g| && g[j].0 == k)
  {
    var d := Dedup(keys);
    var g := Groups(keys, amounts);
    DedupSpec(keys);
    forall i, j | 0 <= i < j < |g| ensures g[i] != g[j] {
      assert g[i].0 == d[i] && g[j].0 == d[j];
    }
    forall k ensures k in keys <==> exists j :: 0 <= j < |g| && g[j].0 == k {
      if k in keys {
        var j :| 0 <= j < |d| && d[j] == k;
        assert g[j].0 == k;
      }
      if exists j :: 0 <= j < |g| && g[j].0 == k {
        var j :| 0 <= j < |g| && g[j].0 == k;
        assert d[j] in d;
      }
    }
  }

  lemma GroupsSum<K>(keys: seq<K>, amounts: seq<real>)
    requires |keys| == |amounts|
    ensures SumOf(Groups(keys, amounts)) == Sum(amounts)
  {
    var d := Dedup(keys);
    DedupSpec(keys);
    assert forall i :: 0 <= i < |keys| ==> keys[i] in d by {
      forall i | 0 <= i < |keys| ensures keys[i] in d {
        assert keys[i] in keys;
      }
    }
    TotalsConserve(d, keys, amounts);
  }

  lemma {:induction false} SumOfConcat<K>(u: seq<(K, real)>, v: seq<(K, real)>)
    ensures SumOf(u + v) == SumOf(u) + SumOf(v)
    decreases |v|
  {
    if v == [] {
      assert u + v == u;
    } else {
      var n := |v| - 1;
      SumOfConcat(u, v[..n]);
      assert (u + v)[..|u + v| - 1] == u + v[..n];
      assert (u + v)[|u + v| - 1] == v[n];
    }
  }

  /** Reordering the groups does not change their sum. */
  lemma {:induction false} SumOfPermutation<K>(a: seq<(K, real)>, b: seq<(K, real)>)
    requires multiset(a) == multiset(b)
    ensures SumOf(a) == SumOf(b)
    decreases |a|
  {
    if a == [] {
      assert |b| == |multiset(b)| == 0;
    } else {
      var n := |a| - 1;
      var x := a[n];
      assert x in multiset(b);
      var i :| 0 <= i < |b| && b[i] == x;
      var rest := b[..i] + b[i + 1..];
      assert b == b[..i] + [x] + b[i + 1..];
      assert a == a[..n] + [x];
      assert multiset(a[..n]) == multiset(a) - multiset{x};
      assert multiset(rest) == multiset(b) - multiset{x};
      SumOfPermutation(a[..n], rest);
      SumOfConcat(b[..i] + [x], b[i + 1..]);
      SumOfConcat(b[..i], [x]);
      SumOfConcat(b[..i], b[i + 1..]);
      assert SumOf([x]) == SumOf([x][..0]) + x.1;
    }
  }

  /** A reordering of a sequence without repeats has none either. */
  lemma DistinctPermutation<T>(a: seq<T>, b: seq<T>)
    requires multiset(a) == multiset(b) && Distinct(a)
    ensures Distinct(b)
  {
    DistinctNoTwins(a);
    forall i, j | 0 <= i < j < |b| ensures b[i] != b[j] {
      assert b[i] in multiset(a);
      CountAboveOneIffTwin(b, i);
    }
  }

  // ---------------------------------------------------------------------------
  // Columns as key and amount sequences

  /** The cells of column `c` of some rows that all have it. */
  function Labels(rows: seq<Row>, c: string): (ls: seq<Value>)
    requires forall i :: 0 <= i < |rows| ==> c in rows[i]
    ensures |ls| == |rows| && forall i :: 0 <= i < |rows| ==> ls[i] == rows[i][c]
  {
    seq(|rows|, i requires 0 <= i < |rows| => rows[i][c])
  }

  /** The `total_value` of each row, a missing one counting as 0. */
  function Amounts(rows: seq<Row>): (xs: seq<real>)
    requires forall i :: 0 <= i < |rows| ==> "total_value" in rows[i]
    ensures |xs| == |rows| && forall i :: 0 <= i < |rows| ==> xs[i] == Amount(rows[i]["total_value"])
  {
    seq(|rows|, i requires 0 <= i < |rows| => Amount(rows[i]["total_value"]))
  }

  /** The rows `groupby(c)` keeps with its default `dropna=True`: those whose
      key is present. */
  function Labelled(t: Table, c: string): (rows: seq<Row>)
    requires WellFormed(t) && c in t.columns
    ensures forall i :: 0 <= i < |rows| ==> rows[i].Keys == ColumnSet(t.columns) && rows[i][c] != Missing
    ensures forall row {:trigger row in rows} :: row in rows <==> row in t.rows && row[c] != Missing
  {
    var rows := Filter(t.rows, (row: Row) => c in row && row[c] != Missing);
    RowsOfSubsequence(t, rows);
    assert forall i :: 0 <= i < |rows| ==> rows[i] in rows;
    rows
  }

  /** No row is labelled exactly when every row misses the label. */
  lemma LabelledEmpty(t: Table, c: string)
    requires WellFormed(t) && c in t.columns
    ensures Labelled(t, c) == [] <==> forall i :: 0 <= i < |t.rows| ==> t.rows[i][c] == Missing
  {
    var rows := Labelled(t, c);
    if rows != [] {
      assert rows[0] in rows;
    }
    forall i | 0 <= i < |t.rows| && t.rows[i][c] != Missing ensures rows != [] {
      assert t.rows[i] in t.rows;
      assert t.rows[i] in rows;
    }
  }

  /** The keys `groupby(c)` uses are all present. */
  lemma LabelsPresent(t: Table, c: string)
    requires WellFormed(t) && c in t.columns
    ensures forall v :: v in Labels(Labelled(t, c), c) ==> v != Missing
  {
    var keys := Labels(Labelled(t, c), c);
    forall v | v in keys ensures v != Missing {
      var i :| 0 <= i < |keys| && keys[i] == v;
    }
  }

  // ---------------------------------------------------------------------------
  // Revenue by month

  /** A (year, month) group key; `None` is the NaN group that `dropna=False`
      keeps. */
  datatype MonthKey = MonthKey(year: Option<real>, month: Option<real>)

  function KeyOf(v: Value): Option<real> {
    if v.Num? then Some(v.x) else None
  }

  /** Ascending with NaN last (`na_position="last"`). */
  predicate OptLe(a: Option<real>, b: Option<real>) {
    b.None? || (a.Some? && a.value <= b.value)
  }

  /** `sort_values(["year", "month"])`: by year, then by month. */
  predicate KeyLe(a: MonthKey, b: MonthKey) {
    if a.year == b.year then OptLe(a.month, b.month) else OptLe(a.year, b.year)
  }

  lemma KeyLeTotalOrder(a: MonthKey, b: MonthKey, c: MonthKey)
    ensures KeyLe(a, b) || KeyLe(b, a)
    ensures KeyLe(a, b) && KeyLe(b, a) ==> a == b
    ensures KeyLe(a, b) && KeyLe(b, c) ==> KeyLe(a, c)
  {
  }

  predicate AscendingKeys(s: seq<(MonthKey, real)>) {
    forall i, j :: 0 <= i < j < |s| ==> KeyLe(s[i].0, s[j].0)
  }

  function InsertByKey(p: (MonthKey, real), s: seq<(MonthKey, real)>): (r: seq<(MonthKey, real)>)
    requires AscendingKeys(s)
    ensures AscendingKeys(r) && multiset(r) == multiset(s) + multiset{p}
  {
    if s == [] || KeyLe(p.0, s[0].0) then
      KeyBelowAscending(p, s);
      AscendingCons(p, s);
      [p] + s
    else
      AscendingTail(s);
      var rest := InsertByKey(p, s[1..]);
      KeyHeadBelowInserted(p, s, rest);
      AscendingCons(s[0], rest);
      assert s == [s[0]] + s[1..];
      [s[0]] + rest
  }

  lemma AscendingTail(s: seq<(MonthKey, real)>)
    requires AscendingKeys(s) && s != []
    ensures AscendingKeys(s[1..])
  {
    var tail := s[1..];
    forall i, j | 0 <= i < j < |tail| ensures KeyLe(tail[i].0, tail[j].0) {
      assert tail[i] == s[i + 1] && tail[j] == s[j + 1];
    }
  }

  lemma KeyBelowAscending(p: (MonthKey, real), s: seq<(MonthKey, real)>)
    requires AscendingKeys(s) && (s == [] || KeyLe(p.0, s[0].0))
    ensures forall y :: y in multiset(s) ==> KeyLe(p.0, y.0)
  {
    forall y | y in multiset(s) ensures KeyLe(p.0, y.0) {
      var j :| 0 <= j < |s| && s[j] == y;
      KeyLeTotalOrder(p.0, s[0].0, y.0);
    }
  }

  lemma AscendingCons(p: (MonthKey, real), s: seq<(MonthKey, real)>)
    requires AscendingKeys(s) && forall y :: y in multiset(s) ==> KeyLe(p.0, y.0)
    ensures AscendingKeys([p] + s)
  {
    var r := [p] + s;
    forall i, j | 0 <= i < j < |r| ensures KeyLe(r[i].0, r[j].0) {
      if i == 0 {
        assert r[j] == s[j - 1] && s[j - 1] in multiset(s);
      } else {
        assert r[i] == s[i - 1] && r[j] == s[j - 1];
      }
    }
  }

  lemma KeyHeadBelowInserted(p: (MonthKey, real), s: seq<(MonthKey, real)>, rest: seq<(MonthKey, real)>)
    requires AscendingKeys(s) && s != [] && !KeyLe(p.0, s[0].0)
    requires multiset(rest) == multiset(s[1..]) + multiset{p}
    ensures forall y :: y in multiset(rest) ==> KeyLe(s[0].0, y.0)
  {
    forall y | y in multiset(rest) ensures KeyLe(s[0].0, y.0) {
      if y == p {
        KeyLeTotalOrder(p.0, s[0].0, p.0);
      } else {
        assert y in multiset(s[1..]);
        var j :| 0 <= j < |s| - 1 && s[1..][j] == y;
        assert s[j + 1] == y;
      }
    }
  }

  function SortByKey(s: seq<(MonthKey, real)>): (r: seq<(MonthKey, real)>)
    ensures AscendingKeys(r) && multiset(r) == multiset(s)
  {
    if s == [] then []
    else
      assert s == [s[0]] + s[1..];
      InsertByKey(s[0], SortByKey(s[1..]))
  }

  function MonthKeys(rows: seq<Row>): (ks: seq<MonthKey>)
    requires forall i :: 0 <= i < |rows| ==> "year" in rows[i] && "month" in rows[i]
    ensures |ks| == |rows|
    ensures forall i :: 0 <= i < |rows| ==> ks[i] == MonthKey(KeyOf(rows[i]["year"]), KeyOf(rows[i]["month"]))
  {
    seq(|rows|, i requires 0 <= i < |rows| => MonthKey(KeyOf(rows[i]["year"]), KeyOf(rows[i]["month"])))
  }

  /** `groupby(["year", "month"], dropna=False)["total_value"].sum()`, sorted
      by year and month; absent when total_value or invoice_date is. */
  function RevenueByMonth(t: Table): (r: Option<seq<(MonthKey, real)>>)
    requires WellFormed(t)
    requires "invoice_date" in t.columns ==> "year" in t.columns && "month" in t.columns
    ensures r.Some? <==> "total_value" in t.columns && "invoice_date" in t.columns
  {
    if "total_value" in t.columns && "invoice_date" in t.columns then
      Some(SortByKey(Groups(MonthKeys(t.rows), Amounts(t.rows))))
    else None
  }

  /** One entry per (year, month) present, NaN included, in strictly
      ascending order, each holding the revenue of its rows; the entries add
      up to the revenue of the whole table. */
  lemma RevenueByMonthSpec(t: Table)
    requires WellFormed(t) && "total_value" in t.columns && "invoice_date" in t.columns
    requires "year" in t.columns && "month" in t.columns
    ensures var r := RevenueByMonth(t).value;
            var keys := MonthKeys(t.rows);
            var amounts := Amounts(t.rows);
            && (forall i, j :: 0 <= i < j < |r| ==> KeyLe(r[i].0, r[j].0) && r[i].0 != r[j].0)
            && (forall i :: 0 <= i < |r| ==> r[i].1 == Total(keys, amounts, r[i].0))
            && (forall k :: k in keys <==> exists i :: 0 <= i < |r| && r[i].0 == k)
            && SumOf(r) == Sum(amounts)
  {
    var keys := MonthKeys(t.rows);
    var amounts := Amounts(t.rows);
    RegroupedSpec(keys, amounts, RevenueByMonth(t).value);
  }

  // ---------------------------------------------------------------------------
  // Top products

  const TopCount := 10

  /** Non-increasing by total (`ascending=False`). */
  predicate DescendingTotals<K>(s: seq<(K, real)>) {
    forall i, j :: 0 <= i < j < |s| ==> s[i].1 >= s[j].1
  }

  function InsertByTotal<K>(p: (K, real), s: seq<(K, real)>): (r: seq<(K, real)>)
    requires DescendingTotals(s)
    ensures DescendingTotals(r) && multiset(r) == multiset(s) + multiset{p}
  {
    if s == [] || p.1 >= s[0].1 then
      TotalAboveDescending(p, s);
      DescendingCons(p, s);
      [p] + s
    else
      DescendingTail(s);
      var rest := InsertByTotal(p, s[1..]);
      InsertedBelowHead(p, s, rest);
      [s[0]] + rest
  }

  /** The step of InsertByTotal that keeps the head in front. */
  lemma InsertedBelowHead<K>(p: (K, real), s: seq<(K, real)>, rest: seq<(K, real)>)
    requires DescendingTotals(s) && s != [] && p.1 < s[0].1
    requires DescendingTotals(rest) && multiset(rest) == multiset(s[1..]) + multiset{p}
    ensures DescendingTotals([s[0]] + rest) && multiset([s[0]] + rest) == multiset(s) + multiset{p}
  {
    TotalHeadAboveInserted(p, s, rest);
    DescendingCons(s[0], rest);
    assert s == [s[0]] + s[1..];
  }

  lemma DescendingTail<K>(s: seq<(K, real)>)
    requires DescendingTotals(s) && s != []
    ensures DescendingTotals(s[1..])
  {
    var tail := s[1..];
    forall i, j | 0 <= i < j < |tail| ensures tail[i].1 >= tail[j].1 {
      assert tail[i] == s[i + 1] && tail[j] == s[j + 1];
    }
  }

  lemma TotalAboveDescending<K>(p: (K, real), s: seq<(K, real)>)
    requires DescendingTotals(s) && (s == [] || p.1 >= s[0].1)
    ensures forall y :: y in multiset(s) ==> p.1 >= y.1
  {
    forall y | y in multiset(s) ensures p.1 >= y.1 {
      var j :| 0 <= j < |s| && s[j] == y;
    }
  }

  lemma DescendingCons<K>(p: (K, real), s: seq<(K, real)>)
    requires DescendingTotals(s) && forall y :: y in multiset(s) ==> p.1 >= y.1
    ensures DescendingTotals([p] + s)
  {
    var r := [p] + s;
    forall i, j | 0 <= i < j < |r| ensures r[i].1 >= r[j].1 {
      if i == 0 {
        assert r[j] == s[j - 1] && s[j - 1] in multiset(s);
      } else {
        assert r[i] == s[i - 1] && r[j] == s[j - 1];
      }
    }
  }

  lemma TotalHeadAboveInserted<K>(p: (K, real), s: seq<(K, real)>, rest: seq<(K, real)>)
    requires DescendingTotals(s) && s != [] && p.1 < s[0].1
    requires multiset(rest) == multiset(s[1..]) + multiset{p}
    ensures forall y :: y in multiset(rest) ==> s[0].1 >= y.1
  {
    forall y | y in multiset(rest) ensures s[0].1 >= y.1 {
      if y != p {
        assert y in multiset(s[1..]);
        var j :| 0 <= j < |s| - 1 && s[1..][j] == y;
        assert s[j + 1] == y;
      }
    }
  }

  function SortByTotal<K>(s: seq<(K, real)>): (r: seq<(K, real)>)
    ensures DescendingTotals(r) && multiset(r) == multiset(s)
  {
    if s == [] then []
    else
      assert s == [s[0]] + s[1..];
      InsertByTotal(s[0], SortByTotal(s[1..]))
  }

  /** `head(n)` */
  function Head<T>(s: seq<T>, n: nat): (r: seq<T>)
    ensures |r| == if |s| < n then |s| else n
    ensures forall i :: 0 <= i < |r| ==> r[i] == s[i]
  {
    if |s| <= n then s else s[..n]
  }

  /** `groupby("description")["total_value"].sum()`, largest first, first ten;
      absent when total_value or description is. */
  function TopProducts(t: Table): (r: Option<seq<(Value, real)>>)
    requires WellFormed(t)
    ensures r.Some? <==> "total_value" in t.columns && "description" in t.columns
    ensures r.Some? ==> |r.value| <= TopCount
  {
    if "total_value" in t.columns && "description" in t.columns then
      var rows := Labelled(t, "description");
      Some(Head(SortByTotal(Groups(Labels(rows, "description"), Amounts(rows))), TopCount))
    else None
  }

  /** The first `n` groups by total: as many as there are groups up to `n`,
      distinct keys, each with its own total, largest first, and no group left
      out has a larger total than one kept. */
  lemma TopGroups<K>(keys: seq<K>, amounts: seq<real>, n: nat)
    requires |keys| == |amounts|
    ensures var r := Head(SortByTotal(Groups(keys, amounts)), n);
            var groups := |Dedup(keys)|;
            && |r| == (if groups < n then groups else n)
            && DescendingTotals(r)
            && (forall i, j :: 0 <= i < j < |r| ==> r[i].0 != r[j].0)
            && (forall i :: 0 <= i < |r| ==> r[i].0 in keys && r[i].1 == Total(keys, amounts, r[i].0))
            && (forall k, i :: k in keys && 0 <= i < |r| && (forall j :: 0 <= j < |r| ==> r[j].0 != k) ==>
                  Total(keys, amounts, k) <= r[i].1)
  {
    var s := SortByTotal(Groups(keys, amounts));
    RegroupedSpec(keys, amounts, s);
    TopOfRanking(keys, amounts, s, n);
  }

  /** The first `n` entries of a ranking by total of distinct keys: nothing
      left out has a larger total than an entry kept. */
  lemma TopOfRanking<K>(keys: seq<K>, amounts: seq<real>, s: seq<(K, real)>, n: nat)
    requires |keys| == |amounts| && DescendingTotals(s)
    requires forall i, j :: 0 <= i < j < |s| ==> s[i].0 != s[j].0
    requires forall i :: 0 <= i < |s| ==> s[i].0 in keys && s[i].1 == Total(keys, amounts, s[i].0)
    requires forall k :: k in keys ==> exists l :: 0 <= l < |s| && s[l].0 == k
    ensures var r := Head(s, n);
            && DescendingTotals(r)
            && (forall i, j :: 0 <= i < j < |r| ==> r[i].0 != r[j].0)
            && (forall i :: 0 <= i < |r| ==> r[i].0 in keys && r[i].1 == Total(keys, amounts, r[i].0))
            && (forall k, i :: k in keys && 0 <= i < |r| && (forall j :: 0 <= j < |r| ==> r[j].0 != k) ==>
                  Total(keys, amounts, k) <= r[i].1)
  {
    var r := Head(s, n);
    forall k, i | k in keys && 0 <= i < |r| && (forall j :: 0 <= j < |r| ==> r[j].0 != k)
      ensures Total(keys, amounts, k) <= r[i].1
    {
      var l :| 0 <= l < |s| && s[l].0 == k;
      assert l >= |r|;
      assert r[i] == s[i] && s[i].1 >= s[l].1;
    }
    forall i, j | 0 <= i < j < |r| ensures r[i].1 >= r[j].1 && r[i].0 != r[j].0 {
      assert r[i] == s[i] && r[j] == s[j];
    }
  }

  /** Any reordering of the groups keeps them: distinct keys, each with its
      own total, every key present, the same grand total. */
  lemma RegroupedSpec<K>(keys: seq<K>, amounts: seq<real>, s: seq<(K, real)>)
    requires |keys| == |amounts| && multiset(s) == multiset(Groups(keys, amounts))
    ensures && |s| == |Dedup(keys)|
            && (forall i, j :: 0 <= i < j < |s| ==> s[i].0 != s[j].0)
            && (forall i :: 0 <= i < |s| ==> s[i].0 in keys && s[i].1 == Total(keys, amounts, s[i].0))
            && (forall k :: k in keys <==> exists l :: 0 <= l < |s| && s[l].0 == k)
            && SumOf(s) == Sum(amounts)
  {
    var g := Groups(keys, amounts);
    GroupsSpec(keys, amounts);
    assert |s| == |multiset(s)| == |multiset(g)| == |g|;
    DistinctPermutation(g, s);
    SumOfPermutation(g, s);
    RegroupedEntries(keys, amounts, s);
    forall i, j | 0 <= i < j < |s| ensures s[i].0 != s[j].0 {
      assert s[i] != s[j];
    }
    forall k | k in keys ensures exists l :: 0 <= l < |s| && s[l].0 == k {
      var m :| 0 <= m < |g| && g[m].0 == k;
      assert g[m] in multiset(s);
      var l :| 0 <= l < |s| && s[l] == g[m];
    }
  }

  lemma RegroupedEntries<K>(keys: seq<K>, amounts: seq<real>, s: seq<(K, real)>)
    requires |keys| == |amounts| && multiset(s) == multiset(Groups(keys, amounts))
    ensures forall i :: 0 <= i < |s| ==> s[i].0 in keys && s[i].1 == Total(keys, amounts, s[i].0)
  {
    var g := Groups(keys, amounts);
    GroupsSpec(keys, amounts);
    forall i | 0 <= i < |s| ensures s[i].0 in keys && s[i].1 == Total(keys, amounts, s[i].0) {
      assert s[i] in multiset(g);
      var j :| 0 <= j < |g| && g[j] == s[i];
    }
  }

  /** At most ten distinct products with a description, largest total first,
      as many as there are products up to ten, each with its own sales; no
      product left out sold more than one that is listed. */
  lemma TopProductsSpec(t: Table)
    requires WellFormed(t) && "total_value" in t.columns && "description" in t.columns
    ensures var r := TopProducts(t).value;
            var rows := Labelled(t, "description");
            var keys := Labels(rows, "description");
            var amounts := Amounts(rows);
            var groups := |Dedup(keys)|;
            && |r| == (if groups < TopCount then groups else TopCount)
            && DescendingTotals(r)
            && (forall i, j :: 0 <= i < j < |r| ==> r[i].0 != r[j].0)
            && (forall i :: 0 <= i < |r| ==> r[i].0 in keys && r[i].0 != Missing)
            && (forall i :: 0 <= i < |r| ==> r[i].1 == Total(keys, amounts, r[i].0))
            && (forall k, i :: k in keys && 0 <= i < |r| && (forall j :: 0 <= j < |r| ==> r[j].0 != k) ==>
                  Total(keys, amounts, k) <= r[i].1)
  {
    var rows := Labelled(t, "description");
    var keys := Labels(rows, "description");
    TopGroups(keys, Amounts(rows), TopCount);
    LabelsPresent(t, "description");
  }

  // ---------------------------------------------------------------------------
  // Overall metrics

  /** The present cells of a column. */
  function PresentCells(col: seq<Value>): (vs: seq<Value>)
    ensures forall v {:trigger v in vs} :: v in vs <==> v in col && v != Missing
  {
    Filter(col, (v: Value) => v != Missing)
  }

  /** `df["customer_id"].nunique(dropna=True)`; `None` without the column. */
  function UniqueCustomers(t: Table): (n: Option<nat>)
    requires WellFormed(t)
    ensures n.Some? <==> "customer_id" in t.columns
  {
    if "customer_id" in t.columns then Some(|Dedup(PresentCells(Column(t, "customer_id")))|)
    else None
  }

  lemma {:induction false} DistinctCard<T>(s: seq<T>)
    requires Distinct(s)
    ensures |set x | x in s| == |s|
  {
    if s != [] {
      var n := |s| - 1;
      assert Distinct(s[..n]);
      DistinctCard(s[..n]);
      assert (set x | x in s) == (set x | x in s[..n]) + {s[n]};
      assert s[n] !in s[..n];
    }
  }

  lemma {:induction false} CardAtMostLength<T>(s: seq<T>)
    ensures |set x | x in s| <= |s|
  {
    if s != [] {
      var n := |s| - 1;
      CardAtMostLength(s[..n]);
      assert (set x | x in s) == (set x | x in s[..n]) + {s[n]};
    }
  }

  /** A sequence has as many distinct values as its deduplication has
      elements, and no more than it has elements. */
  lemma DedupCard<T>(s: seq<T>)
    ensures |Dedup(s)| == |set x | x in s| <= |s|
  {
    var d := Dedup(s);
    DedupSpec(s);
    DistinctCard(d);
    assert (set x | x in d) == (set x | x in s);
    CardAtMostLength(s);
  }

  /** The count is the number of distinct present customer ids, so at most
      the number of rows. */
  lemma UniqueCustomersSpec(t: Table)
    requires WellFormed(t) && "customer_id" in t.columns
    ensures var col := Column(t, "customer_id");
            && UniqueCustomers(t).value == |set i | 0 <= i < |col| && col[i] != Missing :: col[i]|
            && UniqueCustomers(t).value <= |t.rows|
  {
    var col := Column(t, "customer_id");
    var present := PresentCells(col);
    DedupCard(present);
    var ids := set i | 0 <= i < |col| && col[i] != Missing :: col[i];
    forall v ensures v in present <==> v in ids {
      if v in present {
        assert v in col;
      }
    }
    assert (set x | x in present) == ids;
  }

  /** `groupby("invoice_no")["total_value"].sum().mean()`: `None` without
      either column or without a single order. */
  function AverageOrderValue(t: Table): (r: Option<real>)
    requires WellFormed(t)
    ensures r.Some? ==> "invoice_no" in t.columns && "total_value" in t.columns
  {
    if "invoice_no" in t.columns && "total_value" in t.columns then
      var rows := Labelled(t, "invoice_no");
      var g := Groups(Labels(rows, "invoice_no"), Amounts(rows));
      if g == [] then None else Some(SumOf(g) / |g| as real)
    else None
  }

  /** The average is the revenue of the rows with an invoice number divided
      by the number of distinct invoices; it is absent exactly when no row has
      an invoice number. */
  lemma AverageOrderValueSpec(t: Table)
    requires WellFormed(t) && "invoice_no" in t.columns && "total_value" in t.columns
    ensures var rows := Labelled(t, "invoice_no");
            var orders := |Dedup(Labels(rows, "invoice_no"))|;
            && (AverageOrderValue(t).None? <==> rows == [])
            && (rows != [] ==> orders > 0 && AverageOrderValue(t).value == Sum(Amounts(rows)) / orders as real)
  {
    var rows := Labelled(t, "invoice_no");
    var keys := Labels(rows, "invoice_no");
    GroupsSpec(keys, Amounts(rows));
    if rows != [] {
      assert keys[0] in keys;
    }
  }

  /** The metrics and the two tables `create_summary_tables` writes. */
  datatype Report = Report(
    revenueByMonth: Option<seq<(MonthKey, real)>>,
    topProducts: Option<seq<(Value, real)>>,
    uniqueCustomers: Option<nat>,
    averageOrderValue: Option<real>)

  function CreateSummaryTables(t: Table): (rep: Report)
    requires WellFormed(t)
    requires "invoice_date" in t.columns ==> "year" in t.columns && "month" in t.columns
    ensures rep.revenueByMonth.Some? <==> "total_value" in t.columns && "invoice_date" in t.columns
    ensures rep.topProducts.Some? <==> "total_value" in t.columns && "description" in t.columns
    ensures rep.uniqueCustomers.Some? <==> "customer_id" in t.columns
    ensures rep.averageOrderValue.Some? <==>
              && "invoice_no" in t.columns && "total_value" in t.columns
              && exists i :: 0 <= i < |t.rows| && t.rows[i]["invoice_no"] != Missing
  {
    if "invoice_no" in t.columns && "total_value" in t.columns then
      AverageOrderValueSpec(t);
      LabelledEmpty(t, "invoice_no");
      Report(RevenueByMonth(t), TopProducts(t), UniqueCustomers(t), AverageOrderValue(t))
    else
      Report(RevenueByMonth(t), TopProducts(t), UniqueCustomers(t), AverageOrderValue(t))
  }
}
