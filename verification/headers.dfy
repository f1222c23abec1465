/** Header harmonisation (`standardize_column_names`): every header is
    normalised, then for each of eight canonical names the first of its
    accepted spellings present among the headers is renamed to it. */
module Headers {
  import opened Tables
  import opened Text

  // ---------------------------------------------------------------------------
  // Normalisation: strip, lower, spaces and hyphens to underscores

  function ReplaceChar(s: string, from: char, to: char): (r: string)
    ensures |r| == |s|
    ensures forall i :: 0 <= i < |s| ==> r[i] == if s[i] == from then to else s[i]
  {
    seq(|s|, i requires 0 <= i < |s| => if s[i] == from then to else s[i])
  }

  /** `c.strip().lower().replace(" ", "_").replace("-", "_")` */
  function Normalize(h: string): string {
    ReplaceChar(ReplaceChar(Lower(Strip(h)), ' ', '_'), '-', '_')
  }

  /** What `Normalize` does to one character of the stripped header. */
  function NormalizeChar(c: char): char {
    if c == ' ' || c == '-' then '_' else LowerChar(c)
  }

  lemma NormalizeAt(h: string)
    ensures |Normalize(h)| == |Strip(h)|
    ensures forall i :: 0 <= i < |Strip(h)| ==> Normalize(h)[i] == NormalizeChar(Strip(h)[i])
  {
  }

  /** For a header without surrounding whitespace, normalising is the three
      character replacements alone. */
  lemma NormalizeTrimmed(h: string)
    requires Trimmed(h)
    ensures Normalize(h) == ReplaceChar(ReplaceChar(Lower(h), ' ', '_'), '-', '_')
  {
    StripTrimmed(h);
  }

  /** What a normalised header looks like. */
  predicate IsNormalized(n: string) {
    && Trimmed(n)
    && forall i :: 0 <= i < |n| ==> n[i] != ' ' && n[i] != '-' && !IsUpper(n[i])
  }

  lemma NormalizeShape(h: string)
    ensures IsNormalized(Normalize(h))
    ensures |Normalize(h)| <= |h|
  {
    var s := Strip(h);
    var n := Normalize(h);
    NormalizeAt(h);
    if s != [] {
      assert n[0] == NormalizeChar(s[0]) && n[|n| - 1] == NormalizeChar(s[|s| - 1]);
    }
  }

  /** A normalised header is its own normal form, so normalising twice is
      normalising once. */
  lemma NormalizeFixes(n: string)
    requires IsNormalized(n)
    ensures Normalize(n) == n
  {
    StripTrimmed(n);
    NormalizeAt(n);
  }

  lemma NormalizeIdempotent(h: string)
    ensures Normalize(Normalize(h)) == Normalize(h)
  {
    NormalizeShape(h);
    NormalizeFixes(Normalize(h));
  }

  /** Lower-casing a normalised header changes nothing (the source's `c.lower()`
      in `cols_lower`). */
  lemma LowerOfNormalized(n: string)
    requires IsNormalized(n)
    ensures Lower(n) == n
  {
  }

  function NormalizeAll(hs: seq<string>): (ns: seq<string>)
    ensures |ns| == |hs| && forall i :: 0 <= i < |hs| ==> ns[i] == Normalize(hs[i])
  {
    seq(|hs|, i requires 0 <= i < |hs| => Normalize(hs[i]))
  }

  // ---------------------------------------------------------------------------
  // The alias table

  /** Each canonical name with its accepted spellings, highest priority first. */
  const Aliases: seq<(string, seq<string>)> := [
    ("invoice_no", ["invoiceno", "invoice_no", "invoice_number"]),
    ("invoice_date", ["invoicedate", "invoice_date", "date"]),
    ("stock_code", ["stockcode", "stock_code", "product_code"]),
    ("description", ["description", "product_description", "item_description"]),
    ("quantity", ["quantity", "qty"]),
    ("unit_price", ["unitprice", "unit_price", "price"]),
    ("customer_id", ["customerid", "customer_id", "cust_id"]),
    ("country", ["country", "market"])
  ]

  predicate IsCanonical(n: string) {
    exists a :: 0 <= a < |Aliases| && Aliases[a].0 == n
  }

  /** No spelling is accepted by two canonical names, and each canonical name
      is one of its own spellings. */
  lemma AliasesDisjoint()
    ensures forall a, b, k, l ::
      (0 <= a < |Aliases| && 0 <= b < |Aliases| && 0 <= k < |Aliases[a].1| && 0 <= l < |Aliases[b].1| &&
       Aliases[a].1[k] == Aliases[b].1[l]) ==> a == b
    ensures forall a :: 0 <= a < |Aliases| ==> Aliases[a].0 in Aliases[a].1
    ensures Distinct(seq(|Aliases|, a requires 0 <= a < |Aliases| => Aliases[a].0))
  {
  }

  /** Index of the first spelling in `cands[from..]` that occurs in `names`. */
  function FirstPresentFrom(cands: seq<string>, names: seq<string>, from: nat): (r: Option<nat>)
    requires from <= |cands|
    ensures r.Some? ==> from <= r.value < |cands| && cands[r.value] in names
                        && forall l :: from <= l < r.value ==> cands[l] !in names
    ensures r.None? ==> forall l :: from <= l < |cands| ==> cands[l] !in names
    decreases |cands| - from
  {
    if from == |cands| then None
    else if cands[from] in names then Some(from)
    else FirstPresentFrom(cands, names, from + 1)
  }

  function FirstPresent(cands: seq<string>, names: seq<string>): Option<nat> {
    FirstPresentFrom(cands, names, 0)
  }

  /** `rename_map` after the first `k` canonical names have been scanned. */
  function RenameMapUpTo(names: seq<string>, k: nat): map<string, string>
    requires k <= |Aliases|
  {
    if k == 0 then map[]
    else
      var m := RenameMapUpTo(names, k - 1);
      var cands := Aliases[k - 1].1;
      match FirstPresent(cands, names)
      case None => m
      case Some(j) => m[cands[j] := Aliases[k - 1].0]
  }

  function RenameMap(names: seq<string>): map<string, string> {
    RenameMapUpTo(names, |Aliases|)
  }

  /** Exactly the chosen spellings are renamed, each to its canonical name. */
  lemma {:induction false} RenameMapUpToSpec(names: seq<string>, k: nat, n: string)
    requires k <= |Aliases|
    ensures n in RenameMapUpTo(names, k) <==>
      exists a :: 0 <= a < k && FirstPresent(Aliases[a].1, names).Some? &&
                  Aliases[a].1[FirstPresent(Aliases[a].1, names).value] == n
    ensures forall a :: (0 <= a < k && FirstPresent(Aliases[a].1, names).Some? &&
                         Aliases[a].1[FirstPresent(Aliases[a].1, names).value] == n) ==>
                  RenameMapUpTo(names, k)[n] == Aliases[a].0
  {
    AliasesDisjoint();
    if k > 0 {
      RenameMapUpToSpec(names, k - 1, n);
    }
  }

  function Renamed(n: string, m: map<string, string>): string {
    if n in m then m[n] else n
  }

  /** The header list `standardize_column_names` produces. */
  function Standardized(hs: seq<string>): (out: seq<string>)
    ensures |out| == |hs|
  {
    var ns := NormalizeAll(hs);
    var m := RenameMap(ns);
    seq(|ns|, i requires 0 <= i < |ns| => Renamed(ns[i], m))
  }

  /** The loops of the source: normalise every header (`col_map`), build the
      lower-case lookup `cols_lower`, then `rename_map` by scanning each
      canonical name's spellings in priority order, stopping at the first one
      present, and finally rename. */
  method StandardizeHeaders(hs: seq<string>) returns (out: seq<string>)
    ensures out == Standardized(hs)
  {
    var ns: seq<string> := [];
    for i := 0 to |hs|
      invariant ns == NormalizeAll(hs[..i])
    {
      ns := ns + [Normalize(hs[i])];
    }
    assert hs[..|hs|] == hs;
    forall i | 0 <= i < |ns| ensures Lower(ns[i]) == ns[i] {
      NormalizeShape(hs[i]);
      LowerOfNormalized(ns[i]);
    }
    var renameMap := BuildRenameMap(ns);
    out := RenameHeaders(ns, renameMap);
  }

  /** The candidate scan over `cols_lower`. */
  method BuildRenameMap(ns: seq<string>) returns (renameMap: map<string, string>)
    requires forall i :: 0 <= i < |ns| ==> Lower(ns[i]) == ns[i]
    ensures renameMap == RenameMap(ns)
  {
    var colsLower: map<string, string> := map[];
    for i := 0 to |ns|
      invariant forall n :: n in colsLower <==> n in ns[..i]
      invariant forall n :: n in colsLower ==> colsLower[n] == n
    {
      assert ns[..i + 1] == ns[..i] + [ns[i]];
      colsLower := colsLower[Lower(ns[i]) := ns[i]];
    }
    assert ns[..|ns|] == ns;

    renameMap := map[];
    for a := 0 to |Aliases|
      invariant renameMap == RenameMapUpTo(ns, a)
    {
      var target := Aliases[a].0;
      var cands := Aliases[a].1;
      var l := 0;
      while l < |cands|
        invariant 0 <= l <= |cands|
        invariant FirstPresentFrom(cands, ns, 0) == FirstPresentFrom(cands, ns, l)
        invariant renameMap == RenameMapUpTo(ns, a)
      {
        if cands[l] in colsLower {
          renameMap := renameMap[colsLower[cands[l]] := target];
          break;
        }
        l := l + 1;
      }
    }
  }

  /** `rename(columns=m)` on the header list: a header that is a key of `m`
      takes its value, every other stays. */
  method RenameHeaders(ns: seq<string>, m: map<string, string>) returns (out: seq<string>)
    ensures |out| == |ns|
    ensures forall k :: 0 <= k < |ns| ==> out[k] == Renamed(ns[k], m)
  {
    out := [];
    for i := 0 to |ns|
      invariant |out| == i
      invariant forall k :: 0 <= k < i ==> out[k] == Renamed(ns[k], m)
    {
      out := out + [if ns[i] in m then m[ns[i]] else ns[i]];
    }
  }

  // ---------------------------------------------------------------------------
  // What the renaming guarantees

  /** The spelling chosen for canonical name `a` is `n`. */
  predicate ChosenFor(a: nat, names: seq<string>, n: string)
    requires a < |Aliases|
  {
    var j := FirstPresent(Aliases[a].1, names);
    j.Some? && Aliases[a].1[j.value] == n
  }

  /** Every header comes out as its normalised form or as a canonical name, and
      it is renamed only when its normalised form is the spelling chosen for
      that canonical name. */
  lemma StandardizedShape(hs: seq<string>, i: nat)
    requires i < |hs|
    ensures Standardized(hs)[i] == Normalize(hs[i]) || IsCanonical(Standardized(hs)[i])
    ensures Standardized(hs)[i] != Normalize(hs[i]) ==>
      exists a :: 0 <= a < |Aliases| && Standardized(hs)[i] == Aliases[a].0 &&
                  ChosenFor(a, NormalizeAll(hs), Normalize(hs[i]))
  {
    var ns := NormalizeAll(hs);
    var n := ns[i];
    var m := RenameMap(ns);
    assert Standardized(hs)[i] == Renamed(n, m);
    RenameMapUpToSpec(ns, |Aliases|, n);
    if n in m {
      var a :| 0 <= a < |Aliases| && FirstPresent(Aliases[a].1, ns).Some? &&
               Aliases[a].1[FirstPresent(Aliases[a].1, ns).value] == n;
      assert m[n] == Aliases[a].0;
      assert ChosenFor(a, ns, n);
    }
  }

  /** Position of `x` in `s` (its first occurrence), or |s| when absent. */
  function IndexIn(s: seq<string>, x: string): (k: nat)
    ensures k <= |s|
    ensures k < |s| ==> s[k] == x && forall j :: 0 <= j < k ==> s[j] != x
    ensures k == |s| ==> x !in s
  {
    if s == [] then 0 else if s[0] == x then 0 else 1 + IndexIn(s[1..], x)
  }

  lemma IndexInFirst(s: seq<string>, j: nat)
    requires j < |s| && Distinct(s)
    ensures IndexIn(s, s[j]) == j
  {
  }

  /** First match wins: the chosen spelling becomes the canonical name, and
      every other spelling of the same canonical name keeps its normalised form. */
  lemma FirstCandidateWins(hs: seq<string>, a: nat, i: nat)
    requires a < |Aliases| && i < |hs|
    requires FirstPresent(Aliases[a].1, NormalizeAll(hs)).Some?
    ensures var cands := Aliases[a].1;
            var j := FirstPresent(cands, NormalizeAll(hs)).value;
            && (Normalize(hs[i]) == cands[j] ==> Standardized(hs)[i] == Aliases[a].0)
            && (Normalize(hs[i]) in cands && Normalize(hs[i]) != cands[j] ==>
                  Standardized(hs)[i] == Normalize(hs[i]))
  {
    var ns := NormalizeAll(hs);
    var n := ns[i];
    AliasesDisjoint();
    RenameMapUpToSpec(ns, |Aliases|, n);
    if n in Aliases[a].1 && n != Aliases[a].1[FirstPresent(Aliases[a].1, ns).value] {
      assert n !in RenameMap(ns) by {
        forall b | 0 <= b < |Aliases| && FirstPresent(Aliases[b].1, ns).Some?
          ensures Aliases[b].1[FirstPresent(Aliases[b].1, ns).value] != n
        {
        }
      }
    }
  }

  /** A header that is no accepted spelling keeps its normalised name. */
  lemma UnmatchedKeepsName(hs: seq<string>, i: nat)
    requires i < |hs|
    requires forall a :: 0 <= a < |Aliases| ==> Normalize(hs[i]) !in Aliases[a].1
    ensures Standardized(hs)[i] == Normalize(hs[i])
  {
    RenameMapUpToSpec(NormalizeAll(hs), |Aliases|, Normalize(hs[i]));
  }

  /** A canonical name that has a spelling among the normalised headers
      appears among the standardised ones. */
  lemma SpellingGivesCanonical(hs: seq<string>, a: nat, l: nat)
    requires a < |Aliases| && l < |Aliases[a].1| && Aliases[a].1[l] in NormalizeAll(hs)
    ensures Aliases[a].0 in Standardized(hs)
  {
    var ns := NormalizeAll(hs);
    var cands := Aliases[a].1;
    assert FirstPresent(cands, ns).Some?;
    var j := FirstPresent(cands, ns).value;
    var i :| 0 <= i < |ns| && ns[i] == cands[j];
    FirstCandidateWins(hs, a, i);
    assert Standardized(hs)[i] == Aliases[a].0;
  }

  /** A canonical name among the standardised headers comes from one of its
      spellings. */
  lemma CanonicalHasSpelling(hs: seq<string>, a: nat)
    requires a < |Aliases| && Aliases[a].0 in Standardized(hs)
    ensures exists l :: 0 <= l < |Aliases[a].1| && Aliases[a].1[l] in NormalizeAll(hs)
  {
    var ns := NormalizeAll(hs);
    var out := Standardized(hs);
    var cands := Aliases[a].1;
    AliasesDisjoint();
    var i :| 0 <= i < |out| && out[i] == Aliases[a].0;
    RenameMapUpToSpec(ns, |Aliases|, ns[i]);
    if ns[i] in RenameMap(ns) {
      var b :| 0 <= b < |Aliases| && FirstPresent(Aliases[b].1, ns).Some? &&
               Aliases[b].1[FirstPresent(Aliases[b].1, ns).value] == ns[i];
      assert Aliases[b].0 == Aliases[a].0;
      assert b == a;
      assert cands[FirstPresent(cands, ns).value] in ns;
    } else {
      assert ns[i] == Aliases[a].0;
      var l := IndexIn(cands, Aliases[a].0);
      assert cands[l] in ns;
    }
  }

  /** A canonical name appears among the standardised headers exactly when one
      of its spellings appears among the normalised ones. */
  lemma CanonicalPresentIff(hs: seq<string>, a: nat)
    requires a < |Aliases|
    ensures Aliases[a].0 in Standardized(hs) <==>
            exists l :: 0 <= l < |Aliases[a].1| && Aliases[a].1[l] in NormalizeAll(hs)
  {
    if exists l :: 0 <= l < |Aliases[a].1| && Aliases[a].1[l] in NormalizeAll(hs) {
      var l :| 0 <= l < |Aliases[a].1| && Aliases[a].1[l] in NormalizeAll(hs);
      SpellingGivesCanonical(hs, a, l);
    }
    if Aliases[a].0 in Standardized(hs) {
      CanonicalHasSpelling(hs, a);
    }
  }

  lemma NormalizeInvoiceNo(h: string)
    requires h == "InvoiceNo"
    ensures Normalize(h) == "invoiceno"
  {
    NormalizeTrimmed(h);
    var l := Lower(h);
    assert l == "invoiceno";
    var r := ReplaceChar(l, ' ', '_');
    assert r == l;
    assert ReplaceChar(r, '-', '_') == r;
  }

  lemma NormalizeUnitPrice(h: string)
    requires h == "UnitPrice"
    ensures Normalize(h) == "unitprice"
  {
    NormalizeTrimmed(h);
    var l := Lower(h);
    assert l == "unitprice";
    var r := ReplaceChar(l, ' ', '_');
    assert r == l;
    assert ReplaceChar(r, '-', '_') == r;
  }

  lemma NormalizeUnitSpacePrice(h: string)
    requires h == "Unit Price"
    ensures Normalize(h) == "unit_price"
  {
    NormalizeTrimmed(h);
    var l := Lower(h);
    assert l == "unit price";
    var r := ReplaceChar(l, ' ', '_');
    assert r == "unit_price";
    assert ReplaceChar(r, '-', '_') == r;
  }

  lemma NormalizeQty(h: string)
    requires h == "Qty"
    ensures Normalize(h) == "qty"
  {
    NormalizeTrimmed(h);
    var l := Lower(h);
    assert l == "qty";
    var r := ReplaceChar(l, ' ', '_');
    assert r == l;
    assert ReplaceChar(r, '-', '_') == r;
  }

  lemma NormalizePair(a: string, b: string)
    ensures NormalizeAll([a, b]) == [Normalize(a), Normalize(b)]
  {
  }

  lemma InvoiceNoChosen()
    ensures FirstPresent(Aliases[0].1, ["invoiceno", "unitprice"]) == Some(0)
  {
  }

  lemma UnitPriceChosen()
    ensures FirstPresent(Aliases[5].1, ["invoiceno", "unitprice"]) == Some(0)
  {
  }

  lemma RenameInvoiceNoUnitPrice()
    ensures var m := RenameMap(["invoiceno", "unitprice"]);
            "invoiceno" in m && m["invoiceno"] == "invoice_no" && "unitprice" in m && m["unitprice"] == "unit_price"
  {
    var ns := ["invoiceno", "unitprice"];
    InvoiceNoChosen();
    UnitPriceChosen();
    RenameMapUpToSpec(ns, |Aliases|, "invoiceno");
    RenameMapUpToSpec(ns, |Aliases|, "unitprice");
    assert Aliases[0].1[0] == "invoiceno";
    assert Aliases[5].1[0] == "unitprice";
  }

  /** "InvoiceNo" becomes invoice_no and "UnitPrice" becomes unit_price. */
  lemma ExampleInvoiceNoUnitPrice(a: string, b: string)
    requires a == "InvoiceNo" && b == "UnitPrice"
    ensures Standardized([a, b]) == ["invoice_no", "unit_price"]
  {
    NormalizeInvoiceNo(a);
    NormalizeUnitPrice(b);
    NormalizePair(a, b);
    RenameInvoiceNoUnitPrice();
    var out := Standardized([a, b]);
    assert out[0] == "invoice_no";
    assert out[1] == "unit_price";
  }

  lemma UnitPriceSecondChosen()
    ensures FirstPresent(Aliases[5].1, ["unit_price", "qty"]) == Some(1)
  {
  }

  lemma QtyChosen()
    ensures FirstPresent(Aliases[4].1, ["unit_price", "qty"]) == Some(1)
  {
  }

  lemma RenameUnitPriceQty()
    ensures var m := RenameMap(["unit_price", "qty"]);
            "unit_price" in m && m["unit_price"] == "unit_price" && "qty" in m && m["qty"] == "quantity"
  {
    var ns := ["unit_price", "qty"];
    UnitPriceSecondChosen();
    QtyChosen();
    RenameMapUpToSpec(ns, |Aliases|, "unit_price");
    RenameMapUpToSpec(ns, |Aliases|, "qty");
    assert Aliases[5].1[1] == "unit_price";
    assert Aliases[4].1[1] == "qty";
  }

  /** "Unit Price" becomes unit_price (its first spelling "unitprice" is
      absent) and "Qty" becomes quantity. */
  lemma ExampleUnitPriceQty(a: string, b: string)
    requires a == "Unit Price" && b == "Qty"
    ensures Standardized([a, b]) == ["unit_price", "quantity"]
  {
    NormalizeUnitSpacePrice(a);
    NormalizeQty(b);
    NormalizePair(a, b);
    RenameUnitPriceQty();
    var out := Standardized([a, b]);
    assert out[0] == "unit_price";
    assert out[1] == "quantity";
  }
}
