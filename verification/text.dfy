/** The Python string methods the pipeline relies on: `str.strip()`,
    `str.lower()`, `str.upper()` and `str.title()`.

    The input file is decoded as ISO-8859-1, so every character has a code
    point below 0x100; IsSpace is exactly Python's `str.isspace()` on that range.
    Case mapping covers the letters of ISO-8859-1 whose other case is in
    ISO-8859-1 too. */
module Text {

  predicate IsSpace(c: char) {
    c == ' ' || ('\t' <= c <= '\r') || ('\U{1C}' <= c <= '\U{1F}') || c == '\U{85}' || c == '\U{A0}'
  }

  /** Capital letters of ISO-8859-1: A-Z and U+00C0..U+00DE except the
      multiplication sign U+00D7. */
  predicate IsUpper(c: char) {
    ('A' <= c <= 'Z') || ('\U{C0}' <= c <= '\U{DE}' && c != '\U{D7}')
  }

  /** Small letters of ISO-8859-1: a-z, U+00DF..U+00FF except the division
      sign U+00F7, and the three letters U+00AA, U+00B5 and U+00BA. */
  predicate IsLower(c: char) {
    ('a' <= c <= 'z') || ('\U{DF}' <= c <= '\U{FF}' && c != '\U{F7}')
    || c == '\U{AA}' || c == '\U{B5}' || c == '\U{BA}'
  }

  predicate IsCased(c: char) {
    IsUpper(c) || IsLower(c)
  }

  /** Every capital maps to the small letter 0x20 above it. */
  function LowerChar(c: char): (r: char)
    ensures IsCased(r) <==> IsCased(c)
    ensures !IsUpper(r)
  {
    if IsUpper(c) then (c as int + 32) as char else c
  }

  /** Small letters whose capital is in ISO-8859-1 map to it; U+00DF, U+00FF,
      U+00B5, U+00AA and U+00BA have none there and are left alone. */
  function UpperChar(c: char): (r: char)
    ensures IsCased(r) <==> IsCased(c)
  {
    if ('a' <= c <= 'z') || ('\U{E0}' <= c <= '\U{FE}' && c != '\U{F7}') then (c as int - 32) as char else c
  }

  // ---------------------------------------------------------------------------
  // strip()

  /** Number of leading whitespace characters. */
  function LeadLen(s: string): (k: nat)
    ensures k <= |s|
    ensures forall j :: 0 <= j < k ==> IsSpace(s[j])
    ensures k < |s| ==> !IsSpace(s[k])
  {
    if s == [] || !IsSpace(s[0]) then 0 else 1 + LeadLen(s[1..])
  }

  /** Number of trailing whitespace characters. */
  function TrailLen(s: string): (k: nat)
    ensures k <= |s|
    ensures forall j :: |s| - k <= j < |s| ==> IsSpace(s[j])
    ensures k < |s| ==> !IsSpace(s[|s| - 1 - k])
  {
    if s == [] || !IsSpace(s[|s| - 1]) then 0 else 1 + TrailLen(s[..|s| - 1])
  }

  /** `s.strip()`: the infix left after removing whitespace at both ends. */
  function Strip(s: string): (r: string)
    ensures exists a, b {:trigger s[a..b]} ::
              && 0 <= a <= b <= |s| && r == s[a..b]
              && (forall j :: 0 <= j < a ==> IsSpace(s[j]))
              && (forall j :: b <= j < |s| ==> IsSpace(s[j]))
    ensures r == [] || (!IsSpace(r[0]) && !IsSpace(r[|r| - 1]))
  {
    var a := LeadLen(s);
    var t := s[a..];
    var b := a + (|t| - TrailLen(t));
    assert t[..|t| - TrailLen(t)] == s[a..b];
    s[a..b]
  }

  /** A string with no whitespace at either end. */
  predicate Trimmed(s: string) {
    s == [] || (!IsSpace(s[0]) && !IsSpace(s[|s| - 1]))
  }

  lemma StripTrimmed(s: string)
    requires Trimmed(s)
    ensures Strip(s) == s
  {
    assert LeadLen(s) == 0;
    assert s[0..] == s;
  }

  lemma StripIdempotent(s: string)
    ensures Strip(Strip(s)) == Strip(s)
  {
    StripTrimmed(Strip(s));
  }

  // ---------------------------------------------------------------------------
  // lower()

  function Lower(s: string): (r: string)
    ensures |r| == |s|
  {
    seq(|s|, i requires 0 <= i < |s| => LowerChar(s[i]))
  }

  // ---------------------------------------------------------------------------
  // title()

  /** CPython's title() on `s[i..]`: a character after a cased one is
      lower-cased, any other is upper-cased. `prevCased` tells whether the
      character before position `i` was cased. */
  function TitleFrom(s: string, i: nat, prevCased: bool): (r: string)
    requires i <= |s|
    ensures |r| == |s| - i
    decreases |s| - i
  {
    if i == |s| then []
    else [if prevCased then LowerChar(s[i]) else UpperChar(s[i])] + TitleFrom(s, i + 1, IsCased(s[i]))
  }

  function Title(s: string): (r: string)
    ensures |r| == |s|
  {
    TitleFrom(s, 0, false)
  }

  /** The positional reading of title(): a character that starts a word (its
      predecessor is not a letter) is upper-cased, every other is lower-cased. */
  lemma {:induction false} TitleFromAt(s: string, i: nat, prevCased: bool, k: nat)
    requires i + k < |s|
    ensures TitleFrom(s, i, prevCased)[k] ==
      if (if k == 0 then prevCased else IsCased(s[i + k - 1])) then LowerChar(s[i + k]) else UpperChar(s[i + k])
    decreases k
  {
    if k > 0 {
      TitleFromAt(s, i + 1, IsCased(s[i]), k - 1);
    }
  }

  lemma TitleAt(s: string, k: nat)
    requires k < |s|
    ensures Title(s)[k] ==
      if k > 0 && IsCased(s[k - 1]) then LowerChar(s[k]) else UpperChar(s[k])
  {
    TitleFromAt(s, 0, false, k);
  }

  /** Case mapping neither creates nor removes letters or whitespace. */
  lemma TitleKeepsKinds(s: string, k: nat)
    requires k < |s|
    ensures IsCased(Title(s)[k]) <==> IsCased(s[k])
    ensures IsSpace(Title(s)[k]) <==> IsSpace(s[k])
  {
    TitleAt(s, k);
  }

  lemma TitleIdempotent(s: string)
    ensures Title(Title(s)) == Title(s)
  {
    var t := Title(s);
    forall k | 0 <= k < |s| ensures Title(t)[k] == t[k] {
      TitleAt(t, k);
      TitleAt(s, k);
      if k > 0 {
        TitleKeepsKinds(s, k - 1);
      }
    }
  }

  /** A single word comes out capitalised: first letter upper case, the
      rest lower case. */
  lemma TitleWord(s: string)
    requires s != [] && forall k :: 0 <= k < |s| ==> IsCased(s[k])
    ensures Title(s) == [UpperChar(s[0])] + Lower(s[1..])
  {
    forall k | 0 <= k < |s| ensures Title(s)[k] == ([UpperChar(s[0])] + Lower(s[1..]))[k] {
      TitleAt(s, k);
    }
  }

  /** Position `k` of `s` is a space, a capital starting a word, or a small
      letter continuing one. */
  predicate CapitalisedAt(s: string, k: nat)
    requires k < |s|
  {
    s[k] == ' ' || if k == 0 || s[k - 1] == ' ' then 'A' <= s[k] <= 'Z' else 'a' <= s[k] <= 'z'
  }

  /** Capitalised words separated by spaces are left as they are. */
  lemma TitleFixed(s: string)
    requires forall k :: 0 <= k < |s| ==> CapitalisedAt(s, k)
    ensures Title(s) == s
  {
    forall k | 0 <= k < |s| ensures Title(s)[k] == s[k] {
      TitleAt(s, k);
      assert CapitalisedAt(s, k);
      if k > 0 {
        assert CapitalisedAt(s, k - 1);
      }
    }
  }

  /** Title-casing two words joined by a space title-cases each word. */
  lemma TitleJoin(a: string, b: string)
    ensures Title(a + [' '] + b) == Title(a) + [' '] + Title(b)
  {
    var s := a + [' '] + b;
    forall k | 0 <= k < |s| ensures Title(s)[k] == (Title(a) + [' '] + Title(b))[k] {
      TitleAt(s, k);
      if k < |a| {
        TitleAt(a, k);
      } else if k > |a| {
        TitleAt(b, k - |a| - 1);
      }
    }
  }

  /** Two words that title-casing leaves alone, joined by a space, are left
      alone too. */
  lemma TitleJoinFixed(s: string, u: string, k: string)
    requires s == u + [' '] + k && Title(u) == u && Title(k) == k
    ensures Title(s) == s
  {
    TitleJoin(u, k);
  }

  /** Title-casing a string without whitespace at its ends keeps it so. */
  lemma TitleTrimmed(s: string)
    requires Trimmed(s)
    ensures Trimmed(Title(s))
  {
    if s != [] {
      TitleKeepsKinds(s, 0);
      TitleKeepsKinds(s, |s| - 1);
    }
  }
}
