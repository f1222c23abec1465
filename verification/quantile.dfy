/** `Series.quantile` and `detect_outliers_iqr` on the non-missing values of
    one numeric column, in exact arithmetic. */
module Quantiles {
  import opened Tables

  predicate Sorted(s: seq<real>) {
    forall i, j :: 0 <= i <= j < |s| ==> s[i] <= s[j]
  }

  /** Insert `x` into a sorted sequence. */
  function Insert(x: real, s: seq<real>): (r: seq<real>)
    requires Sorted(s)
    ensures Sorted(r) && multiset(r) == multiset(s) + multiset{x}
  {
    if s == [] || x <= s[0] then
      BelowSorted(x, s);
      SortedCons(x, s);
      [x] + s
    else
      SortedTail(s);
      var rest := Insert(x, s[1..]);
      HeadBelowInserted(x, s, rest);
      SortedCons(s[0], rest);
      assert s == [s[0]] + s[1..];
      [s[0]] + rest
  }

  lemma BelowSorted(x: real, s: seq<real>)
    requires Sorted(s) && (s == [] || x <= s[0])
    ensures forall y :: y in multiset(s) ==> x <= y
  {
    forall y | y in multiset(s) ensures x <= y {
      var j :| 0 <= j < |s| && s[j] == y;
    }
  }

  lemma SortedCons(x: real, s: seq<real>)
    requires Sorted(s) && forall y :: y in multiset(s) ==> x <= y
    ensures Sorted([x] + s)
  {
    var r := [x] + s;
    forall i, j | 0 <= i <= j < |r| ensures r[i] <= r[j] {
      if i == 0 && j > 0 {
        assert r[j] == s[j - 1] && s[j - 1] in multiset(s);
      } else if i > 0 {
        assert r[i] == s[i - 1] && r[j] == s[j - 1];
      }
    }
  }

  lemma HeadBelowInserted(x: real, s: seq<real>, rest: seq<real>)
    requires Sorted(s) && s != [] && s[0] < x
    requires multiset(rest) == multiset(s[1..]) + multiset{x}
    ensures forall y :: y in multiset(rest) ==> s[0] <= y
  {
    forall y | y in multiset(rest) ensures s[0] <= y {
      if y != x {
        assert y in multiset(s[1..]);
        var j :| 0 <= j < |s| - 1 && s[1..][j] == y;
        assert s[j + 1] == y;
      }
    }
  }

  /** The values in ascending order (insertion sort). */
  function Sort(s: seq<real>): (r: seq<real>)
    ensures Sorted(r) && multiset(r) == multiset(s)
  {
    if s == [] then []
    else
      assert s == [s[0]] + s[1..];
      Insert(s[0], Sort(s[1..]))
  }

  lemma SortedTail(s: seq<real>)
    requires Sorted(s) && s != []
    ensures Sorted(s[1..])
  {
    forall i, j | 0 <= i <= j < |s| - 1 ensures s[1..][i] <= s[1..][j] {
      assert s[1..][i] == s[i + 1] && s[1..][j] == s[j + 1];
    }
  }

  /** Two sorted sequences with the same elements are equal: the order of the
      values in a column does not matter to anything computed from its sort. */
  lemma {:induction false} SortedUnique(a: seq<real>, b: seq<real>)
    requires Sorted(a) && Sorted(b) && multiset(a) == multiset(b)
    ensures a == b
    decreases |a|
  {
    if a != [] {
      assert a[0] in multiset(b);
      assert b != [];
      assert b[0] in multiset(a);
      assert b[0] <= a[0] by {
        var i :| 0 <= i < |b| && b[i] == a[0];
      }
      assert a[0] <= b[0] by {
        var j :| 0 <= j < |a| && a[j] == b[0];
      }
      assert a == [a[0]] + a[1..];
      assert b == [b[0]] + b[1..];
      assert multiset(a[1..]) == multiset(a) - multiset{a[0]};
      assert multiset(b[1..]) == multiset(b) - multiset{b[0]};
      SortedTail(a);
      SortedTail(b);
      SortedUnique(a[1..], b[1..]);
    }
  }

  /** Sorting an already sorted sequence changes nothing. */
  lemma SortOfSorted(s: seq<real>)
    requires Sorted(s)
    ensures Sort(s) == s
  {
    SortedUnique(Sort(s), s);
  }

  // ---------------------------------------------------------------------------
  // quantile(p): linear interpolation between order statistics, definition 7
  // of Hyndman and Fan (the numpy and pandas default)

  /** The value at fractional position `h` (0-based) of a sorted sequence:
      `xs[lo] + (h - lo) * (xs[lo + 1] - xs[lo])` with `lo` the floor of `h`. */
  function Interpolate(xs: seq<real>, h: real): (q: real)
    requires xs != [] && 0.0 <= h <= (|xs| - 1) as real
  {
    var lo := h.Floor;
    if lo == |xs| - 1 then xs[lo]
    else xs[lo] + (h - lo as real) * (xs[lo + 1] - xs[lo])
  }

  lemma MulNonneg(x: real, y: real)
    requires 0.0 <= x && 0.0 <= y
    ensures 0.0 <= x * y
  {
  }

  /** The position of the p-quantile, `(n - 1) * p`, lies within the sequence. */
  lemma PositionInRange(n: nat, p: real)
    requires n > 0 && 0.0 <= p <= 1.0
    ensures 0.0 <= (n - 1) as real * p <= (n - 1) as real
  {
    MulNonneg((n - 1) as real, p);
    MulNonneg((n - 1) as real, 1.0 - p);
  }

  function Quantile(xs: seq<real>, p: real): (q: real)
    requires xs != [] && Sorted(xs) && 0.0 <= p <= 1.0
  {
    PositionInRange(|xs|, p);
    Interpolate(xs, (|xs| - 1) as real * p)
  }

  /** Linear interpolation stays between its end points and grows with the
      fraction. */
  lemma Lerp(a: real, b: real, f: real)
    requires a <= b && 0.0 <= f <= 1.0
    ensures a <= a + f * (b - a) <= b
  {
    MulNonneg(f, b - a);
    MulNonneg(1.0 - f, b - a);
  }

  lemma LerpMonotone(a: real, b: real, f1: real, f2: real)
    requires a <= b && f1 <= f2
    ensures a + f1 * (b - a) <= a + f2 * (b - a)
  {
    MulNonneg(f2 - f1, b - a);
  }

  /** The interpolated value lies between the two order statistics around
      `h`, and so between the least and the greatest value. */
  lemma InterpolateBetween(xs: seq<real>, h: real)
    requires xs != [] && Sorted(xs) && 0.0 <= h <= (|xs| - 1) as real
    ensures var lo := h.Floor;
            && 0 <= lo < |xs|
            && xs[lo] <= Interpolate(xs, h)
            && (lo + 1 < |xs| ==> Interpolate(xs, h) <= xs[lo + 1])
            && xs[0] <= Interpolate(xs, h) <= xs[|xs| - 1]
  {
    var lo := h.Floor;
    assert lo as real <= h < lo as real + 1.0;
    if lo < |xs| - 1 {
      var f := h - lo as real;
      assert Interpolate(xs, h) == xs[lo] + f * (xs[lo + 1] - xs[lo]);
      Lerp(xs[lo], xs[lo + 1], f);
      assert xs[lo + 1] <= xs[|xs| - 1];
    } else {
      assert Interpolate(xs, h) == xs[lo];
    }
    assert xs[0] <= xs[lo];
  }

  lemma InterpolateMonotone(xs: seq<real>, h1: real, h2: real)
    requires xs != [] && Sorted(xs) && 0.0 <= h1 <= h2 <= (|xs| - 1) as real
    ensures Interpolate(xs, h1) <= Interpolate(xs, h2)
  {
    var lo1 := h1.Floor;
    var lo2 := h2.Floor;
    InterpolateBetween(xs, h1);
    InterpolateBetween(xs, h2);
    if lo1 == lo2 {
      if lo1 < |xs| - 1 {
        LerpMonotone(xs[lo1], xs[lo1 + 1], h1 - lo1 as real, h2 - lo1 as real);
      }
    } else {
      assert lo1 < lo2;
      assert xs[lo1 + 1] <= xs[lo2];
    }
  }

  /** The quantile lies between the least and the greatest value. */
  lemma QuantileBetween(xs: seq<real>, p: real)
    requires xs != [] && Sorted(xs) && 0.0 <= p <= 1.0
    ensures xs[0] <= Quantile(xs, p) <= xs[|xs| - 1]
  {
    PositionInRange(|xs|, p);
    InterpolateBetween(xs, (|xs| - 1) as real * p);
  }

  /** The first quartile never exceeds the third. */
  lemma QuartilesOrdered(xs: seq<real>)
    requires xs != [] && Sorted(xs)
    ensures Quantile(xs, 0.25) <= Quantile(xs, 0.75)
  {
    var m := (|xs| - 1) as real;
    InterpolateMonotone(xs, m * 0.25, m * 0.75);
  }

  // ---------------------------------------------------------------------------
  // detect_outliers_iqr

  datatype Bounds = Bounds(lower: real, upper: real)

  /** `lower = Q1 - 1.5 * IQR`, `upper = Q3 + 1.5 * IQR` over the sorted values;
      None for an empty series, whose quartiles are NaN. */
  function IqrBounds(xs: seq<real>): (b: Option<Bounds>)
    ensures b.None? <==> xs == []
  {
    if xs == [] then None else Some(Fences(Sort(xs)))
  }

  /** The fences of a sorted, non-empty series. */
  function Fences(s: seq<real>): Bounds
    requires s != [] && Sorted(s)
  {
    var q1 := Quantile(s, 0.25);
    var q3 := Quantile(s, 0.75);
    var iqr := q3 - q1;
    Bounds(q1 - 1.5 * iqr, q3 + 1.5 * iqr)
  }

  /** `(series < lower) | (series > upper)`: a comparison with NaN bounds is
      false. */
  predicate Outside(x: real, b: Option<Bounds>) {
    b.Some? && (x < b.value.lower || x > b.value.upper)
  }

  /** The mask over the non-missing values together with the bounds. */
  datatype Detection = Detection(mask: seq<bool>, bounds: Option<Bounds>)

  function DetectOutliersIqr(xs: seq<real>): (d: Detection)
    ensures |d.mask| == |xs| && d.bounds == IqrBounds(xs)
    ensures forall i :: 0 <= i < |xs| ==> (d.mask[i] <==> Outside(xs[i], d.bounds))
  {
    var b := IqrBounds(xs);
    Detection(seq(|xs|, i requires 0 <= i < |xs| => Outside(xs[i], b)), b)
  }

  /** The bounds bracket the quartiles, which lie between the least and the
      greatest value and are in order, so the fences are never inverted and
      no value between the quartiles (nor exactly on a fence) is flagged. */
  lemma IqrBoundsSpec(xs: seq<real>)
    requires xs != []
    ensures var s := Sort(xs);
            var q1 := Quantile(s, 0.25);
            var q3 := Quantile(s, 0.75);
            var b := IqrBounds(xs).value;
            && b.lower == q1 - 1.5 * (q3 - q1) && b.upper == q3 + 1.5 * (q3 - q1)
            && s[0] <= q1 <= q3 <= s[|s| - 1]
            && b.lower <= q1 && q3 <= b.upper
            && (forall x :: q1 <= x <= q3 ==> !Outside(x, Some(b)))
            && !Outside(b.lower, Some(b)) && !Outside(b.upper, Some(b))
  {
    var s := Sort(xs);
    QuartilesOrdered(s);
    QuantileBetween(s, 0.25);
    QuantileBetween(s, 0.75);
  }

  /** The fences depend only on the values, not on their order. */
  lemma IqrBoundsOrderFree(xs: seq<real>, ys: seq<real>)
    requires multiset(xs) == multiset(ys)
    ensures IqrBounds(xs) == IqrBounds(ys)
  {
    SortedUnique(Sort(xs), Sort(ys));
    assert |xs| == |multiset(xs)| == |multiset(ys)| == |ys|;
  }

  /** A worked example: in 1, 2, 2, 3, 3, 3, 4, 4, 100 the quartiles are 2 and
      4, the fences -1 and 7, and only 100 is flagged. */
  const Example: seq<real> := [1.0, 2.0, 2.0, 3.0, 3.0, 3.0, 4.0, 4.0, 100.0]

  lemma ExampleSorted()
    ensures Sorted(Example)
  {
  }

  lemma ExampleQuartiles()
    ensures Sorted(Example)
    ensures Quantile(Example, 0.25) == 2.0 && Quantile(Example, 0.75) == 4.0
  {
    ExampleSorted();
    assert Quantile(Example, 0.25) == 2.0 by {
      assert 8.0 * 0.25 == 2.0;
      assert Interpolate(Example, 2.0) == 2.0;
    }
    assert Quantile(Example, 0.75) == 4.0 by {
      assert 8.0 * 0.75 == 6.0;
      assert Interpolate(Example, 6.0) == 4.0;
    }
  }

  /** The fences of a sorted series are computed from it directly. */
  lemma IqrBoundsOfSorted(xs: seq<real>)
    requires xs != [] && Sorted(xs)
    ensures IqrBounds(xs) == Some(Fences(xs))
  {
    SortOfSorted(xs);
  }

  lemma IqrExampleBounds()
    ensures IqrBounds(Example) == Some(Bounds(-1.0, 7.0))
  {
    ExampleQuartiles();
    IqrBoundsOfSorted(Example);
    assert Fences(Example) == Bounds(-1.0, 7.0);
  }

  /** Against the fences -1 and 7 only the last example value is outside. */
  lemma ExampleMask(d: Detection)
    requires |d.mask| == |Example| && d.bounds == Some(Bounds(-1.0, 7.0))
    requires forall i :: 0 <= i < |Example| ==> (d.mask[i] <==> Outside(Example[i], d.bounds))
    ensures d.mask == [false, false, false, false, false, false, false, false, true]
  {
  }

  lemma IqrExample()
    ensures DetectOutliersIqr(Example).bounds == Some(Bounds(-1.0, 7.0))
    ensures DetectOutliersIqr(Example).mask == [false, false, false, false, false, false, false, false, true]
  {
    IqrExampleBounds();
    ExampleMask(DetectOutliersIqr(Example));
  }
}
