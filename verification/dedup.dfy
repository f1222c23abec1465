/** `deduplicate_and_log`: the log of full-row duplicates (`duplicated(keep=False)`)
    and the table with the first occurrence of each row (`drop_duplicates()`).
    Rows are compared on every column; two missing cells compare equal, as in
    pandas. */
module Deduplication {
  import opened Tables

  // ---------------------------------------------------------------------------
  // On sequences

  /** `s[i]` equals some other element of `s`. */
  predicate HasTwin<T(==)>(s: seq<T>, i: nat)
    requires i < |s|
  {
    exists j :: 0 <= j < |s| && j != i && s[j] == s[i]
  }

  /** An element occurs more than once exactly when some position holding it
      has a twin, which is how the log's filter is written. */
  lemma CountAboveOneIffTwin<T>(s: seq<T>, i: nat)
    requires i < |s|
    ensures multiset(s)[s[i]] > 1 <==> HasTwin(s, i)
  {
    var x := s[i];
    assert s == s[..i] + [x] + s[i + 1..];
    assert multiset(s)[x] == multiset(s[..i])[x] + 1 + multiset(s[i + 1..])[x];
    if multiset(s)[x] > 1 {
      if x in s[..i] {
        var j :| 0 <= j < i && s[..i][j] == x;
        assert s[j] == x;
      } else {
        assert x in s[i + 1..];
        var j :| 0 <= j < |s| - i - 1 && s[i + 1..][j] == x;
        assert s[i + 1 + j] == x;
      }
    }
    if HasTwin(s, i) {
      var j :| 0 <= j < |s| && j != i && s[j] == s[i];
      if j < i {
        assert s[..i][j] == x;
      } else {
        assert s[i + 1..][j - i - 1] == x;
      }
    }
  }

  /** The mask of first occurrences: position `i` is kept when its value does
      not occur earlier. */
  function FirstOccurrences<T(==)>(s: seq<T>): (mask: seq<bool>)
    ensures |mask| == |s| && forall i :: 0 <= i < |s| ==> (mask[i] <==> s[i] !in s[..i])
  {
    seq(|s|, i requires 0 <= i < |s| => s[i] !in s[..i])
  }

  function Dedup<T(==)>(s: seq<T>): seq<T> {
    Select(s, FirstOccurrences(s))
  }

  lemma {:induction false} FirstIndexExists<T>(s: seq<T>, x: T)
    requires x in s
    ensures exists i :: 0 <= i < |s| && s[i] == x && x !in s[..i]
  {
    if s[0] == x {
      assert s[..0] == [];
      assert 0 < |s| && s[0] == x && x !in s[..0];
    } else {
      assert s == [s[0]] + s[1..];
      FirstIndexExists(s[1..], x);
      var i :| 0 <= i < |s[1..]| && s[1..][i] == x && x !in s[1..][..i];
      assert s[..i + 1] == [s[0]] + s[1..][..i];
      assert s[i + 1] == x && x !in s[..i + 1];
    }
  }

  /** drop_duplicates keeps, in the original order, exactly the first
      occurrence of every distinct row: the result has no repeats, holds the
      same values as the input, and its k-th element is the input element at
      the k-th first-occurrence position. */
  lemma DedupSpec<T>(s: seq<T>)
    ensures var d := Dedup(s);
            var ix := TrueIndices(FirstOccurrences(s));
            && Distinct(d)
            && (forall x :: x in d <==> x in s)
            && |d| == |ix|
            && (forall k :: 0 <= k < |d| ==> d[k] == s[ix[k]] && s[ix[k]] !in s[..ix[k]])
            && IsSubsequence(d, s)
  {
    var mask := FirstOccurrences(s);
    var d := Dedup(s);
    var ix := TrueIndices(mask);
    SelectAt(s, mask);
    SubsequenceOfSelect(s, mask);
    forall k, l | 0 <= k < l < |d| ensures d[k] != d[l] {
      assert ix[k] < ix[l];
      assert s[ix[l]] !in s[..ix[l]];
      assert s[..ix[l]][ix[k]] == s[ix[k]];
    }
    forall x ensures x in d <==> x in s {
      SelectMembers(s, mask, x);
      if x in s {
        FirstIndexExists(s, x);
      }
    }
  }

  /** Deduplicating a sequence without repeats changes nothing. */
  lemma DedupDistinct<T>(s: seq<T>)
    requires Distinct(s)
    ensures Dedup(s) == s
  {
    SelectAllTrue(s, FirstOccurrences(s));
  }

  /** No element of a sequence without repeats has a twin. */
  lemma DistinctNoTwins<T>(s: seq<T>)
    requires Distinct(s)
    ensures forall x :: x in s ==> multiset(s)[x] <= 1
  {
    forall x | x in s ensures multiset(s)[x] <= 1 {
      var i :| 0 <= i < |s| && s[i] == x;
      CountAboveOneIffTwin(s, i);
    }
  }

  // ---------------------------------------------------------------------------
  // On tables

  /** `df[df.duplicated(keep=False)]`: every row that equals another row,
      first occurrences included, each as often as it occurs. */
  function DuplicateLog(t: Table): (log: Table)
    requires WellFormed(t)
    ensures WellFormed(log) && log.columns == t.columns
    ensures forall row {:trigger row in log.rows} ::
              row in log.rows <==> row in t.rows && multiset(t.rows)[row] > 1
    ensures forall row {:trigger multiset(log.rows)[row]} ::
              multiset(log.rows)[row] == if multiset(t.rows)[row] > 1 then multiset(t.rows)[row] else 0
  {
    var kept := Filter(t.rows, (row: Row) => multiset(t.rows)[row] > 1);
    RowsOfSubsequence(t, kept);
    Table(t.columns, kept)
  }

  /** The log holds exactly the rows that have a twin somewhere in the table,
      in their original order. */
  lemma DuplicateLogIff(t: Table, i: nat)
    requires WellFormed(t) && i < |t.rows|
    ensures t.rows[i] in DuplicateLog(t).rows <==> HasTwin(t.rows, i)
    ensures IsSubsequence(DuplicateLog(t).rows, t.rows)
  {
    CountAboveOneIffTwin(t.rows, i);
    FilterIsSelect(t.rows, (row: Row) => multiset(t.rows)[row] > 1);
  }

  /** `df.drop_duplicates()` */
  function DropDuplicates(t: Table): (r: Table)
    requires WellFormed(t)
    ensures WellFormed(r) && r.columns == t.columns
  {
    var kept := Dedup(t.rows);
    forall row | row in kept ensures row in t.rows {
      SelectMembers(t.rows, FirstOccurrences(t.rows), row);
    }
    RowsOfSubsequence(t, kept);
    Table(t.columns, kept)
  }

  /** Running the stage on its own output returns the same table and an empty
      log. */
  lemma DeduplicateTwice(t: Table)
    requires WellFormed(t)
    ensures DropDuplicates(DropDuplicates(t)) == DropDuplicates(t)
    ensures DuplicateLog(DropDuplicates(t)).rows == []
  {
    var d := DropDuplicates(t);
    DedupSpec(t.rows);
    DedupDistinct(d.rows);
    DistinctNoTwins(d.rows);
    FilterNone(d.rows, (row: Row) => multiset(d.rows)[row] > 1);
  }

  /** Two equal rows and a third: one of the equal rows is kept ... */
  lemma DedupExample(a: Row, b: Row)
    requires a != b
    ensures Dedup([a, b, a]) == [a, b]
  {
    var s := [a, b, a];
    var mask := FirstOccurrences(s);
    assert s[..2] == [a, b] && s[..1] == [a] && s[..0] == [];
    assert mask == [true, true, false];
    assert Select(s[..1], mask[..1]) == [a];
    assert Select(s[..2], mask[..2]) == [a, b];
  }

  /** ... and both are logged. */
  lemma DuplicateLogExample(cols: seq<string>, a: Row, b: Row)
    requires a != b && WellFormed(Table(cols, [a, b, a]))
    ensures DuplicateLog(Table(cols, [a, b, a])).rows == [a, a]
  {
    var s := [a, b, a];
    assert multiset(s)[a] == 2 && multiset(s)[b] == 1;
    FilterTwice(a, b, (row: Row) => multiset(s)[row] > 1);
  }

  /** Filtering `[a, b, a]` with a test that passes `a` and fails `b`. */
  lemma FilterTwice<T(!new)>(a: T, b: T, p: T -> bool)
    requires p(a) && !p(b)
    ensures Filter([a, b, a], p) == [a, a]
  {
    var s := [a, b, a];
    assert s[..2] == [a, b] && s[..1] == [a] && s[..0] == [];
    assert Filter(s[..1], p) == [a];
    assert Filter(s[..2], p) == [a];
  }
}
