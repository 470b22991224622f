/**
 The two character classes of Python 3 `str` that the contact form relies on:
 the whitespace that `str.strip()` removes and the word characters that the
 regular-expression class `\w` matches, together with `str.strip()` itself.
 */
module PyText {

  /** The characters for which `str.isspace()` holds: the ones `str.strip()` with no argument removes. */
  const WhitespaceChars: set<char> := {
    '\t', '\n', '\U{B}', '\U{C}', '\r',                  // tab, line feed, vertical tab, form feed, carriage return
    '\U{1C}', '\U{1D}', '\U{1E}', '\U{1F}',             // information separators
    ' ', '\U{85}', '\U{A0}', '\U{1680}',                  // space, next line, no-break space, ogham space mark
    '\U{2000}', '\U{2001}', '\U{2002}', '\U{2003}', '\U{2004}', '\U{2005}',
    '\U{2006}', '\U{2007}', '\U{2008}', '\U{2009}', '\U{200A}',  // en quad .. hair space
    '\U{2028}', '\U{2029}',                               // line and paragraph separators
    '\U{202F}', '\U{205F}', '\U{3000}'                     // narrow no-break, medium mathematical and ideographic spaces
  }

  predicate IsWhitespace(c: char)
  {
    c in WhitespaceChars
  }

  /**
   The non-ASCII characters that Unicode classes as alphanumeric (letters and
   numbers of every script). The table is not spelled out: this constant
   stands for it, and nothing proved here depends on which characters it holds.
   */
  const NonAsciiAlnum: set<char>

  /** The regular-expression class `\w` of a Python 3 `str` pattern. */
  predicate IsWordChar(c: char)
  {
    || ('a' <= c <= 'z') || ('A' <= c <= 'Z') || ('0' <= c <= '9') || c == '_'
    || (c >= '\U{80}' && !IsWhitespace(c) && c in NonAsciiAlnum)
  }

  predicate AllWhitespace(s: string)
  {
    forall i :: 0 <= i < |s| ==> IsWhitespace(s[i])
  }

  /** What `str.strip()` leaves: no whitespace at either end. */
  predicate IsStripped(s: string)
  {
    s == [] || (!IsWhitespace(s[0]) && !IsWhitespace(s[|s| - 1]))
  }

  /**
   The forward scan of `str.strip()`: from position `i`, the position of the
   first character that is not whitespace, or `|s|` when there is none.
   */
  function SkipLeading(s: string, i: nat): (k: nat)
    requires i <= |s|
    ensures i <= k <= |s|
    ensures forall m :: i <= m < k ==> IsWhitespace(s[m])
    ensures k == |s| || !IsWhitespace(s[k])
    decreases |s| - i
  {
    if i < |s| && IsWhitespace(s[i]) then SkipLeading(s, i + 1) else i
  }

  /**
   The backward scan of `str.strip()`: from the end `j`, the position just
   after the last character at or after `lo` that is not whitespace, or `lo`
   when there is none.
   */
  function SkipTrailing(s: string, lo: nat, j: nat): (k: nat)
    requires lo <= j <= |s|
    ensures lo <= k <= j
    ensures forall m :: k <= m < j ==> IsWhitespace(s[m])
    ensures k == lo || !IsWhitespace(s[k - 1])
    decreases j
  {
    if lo < j && IsWhitespace(s[j - 1]) then SkipTrailing(s, lo, j - 1) else j
  }

  /** Where the result of `str.strip()` starts in its argument. */
  function StripStart(s: string): (k: nat)
    ensures k <= |s|
  {
    SkipLeading(s, 0)
  }

  /** Where the result of `str.strip()` ends in its argument. */
  function StripEnd(s: string): (k: nat)
    ensures StripStart(s) <= k <= |s|
  {
    SkipTrailing(s, StripStart(s), |s|)
  }

  /** `str.strip()`: the slice between the two scans. */
  function Strip(s: string): (r: string)
    ensures IsStripped(r)
    ensures |r| <= |s|
  {
    s[StripStart(s)..StripEnd(s)]
  }

  /** `str.strip()` only removes whitespace, and only at the two ends. */
  lemma StripDecomposes(s: string)
    ensures StripStart(s) + |Strip(s)| <= |s|
    ensures Strip(s) == s[StripStart(s)..StripStart(s) + |Strip(s)|]
    ensures AllWhitespace(s[..StripStart(s)])
    ensures AllWhitespace(s[StripStart(s) + |Strip(s)|..])
  {
    var i, j := StripStart(s), StripEnd(s);
    var before, after := s[..i], s[j..];
    assert forall m :: 0 <= m < |before| ==> before[m] == s[m];
    assert forall m :: 0 <= m < |after| ==> after[m] == s[j + m];
  }

  /**
   The reference definition of `str.strip()`: whatever way `s` is split into
   whitespace, a part with no whitespace at its ends, and whitespace, the
   middle part is the result.
   */
  lemma StripUnique(w1: string, t: string, w2: string)
    requires AllWhitespace(w1) && AllWhitespace(w2) && IsStripped(t)
    ensures Strip(w1 + t + w2) == t
  {
    var x := w1 + t + w2;
    assert forall m :: 0 <= m < |w1| ==> x[m] == w1[m];
    assert forall m :: 0 <= m < |w2| ==> x[|w1| + |t| + m] == w2[m];
    var i, j := StripStart(x), StripEnd(x);
    if t == [] {
      assert i == |x|;
      assert x[i..j] == [];
    } else {
      assert x[|w1|] == t[0];
      assert i == |w1|;
      assert x[|w1| + |t| - 1] == t[|t| - 1];
      assert j == |w1| + |t|;
      assert x[i..j] == t;
    }
  }

  /** A string with no whitespace at its ends is left as it is. */
  lemma StripFixesStripped(t: string)
    requires IsStripped(t)
    ensures Strip(t) == t
  {
    assert [] + t + [] == t;
    StripUnique([], t, []);
  }

  /** Stripping twice is stripping once. */
  lemma StripIdempotent(s: string)
    ensures Strip(Strip(s)) == Strip(s)
  {
    StripFixesStripped(Strip(s));
  }

  /** Whitespace followed by whitespace is whitespace. */
  lemma AllWhitespaceConcat(a: string, b: string)
    requires AllWhitespace(a) && AllWhitespace(b)
    ensures AllWhitespace(a + b)
  {
    forall i | 0 <= i < |a + b| ensures IsWhitespace((a + b)[i]) {
      if i >= |a| { assert (a + b)[i] == b[i - |a|]; }
    }
  }

  /** Regroups `w1 + (a + t + b) + w2` as `(w1 + a) + t + (b + w2)`. */
  lemma Regroup(w1: string, a: string, t: string, b: string, w2: string)
    ensures w1 + (a + t + b) + w2 == (w1 + a) + t + (b + w2)
  {
  }

  /** Whitespace added around a string does not change what `str.strip()` returns. */
  lemma StripIgnoresPadding(w1: string, s: string, w2: string)
    requires AllWhitespace(w1) && AllWhitespace(w2)
    ensures Strip(w1 + s + w2) == Strip(s)
  {
    StripDecomposes(s);
    var k := StripStart(s);
    var t := Strip(s);
    var a, b := s[..k], s[k + |t|..];
    assert s == a + t + b by {
      assert s[k..] == t + b;
      assert s == a + s[k..];
    }
    AllWhitespaceConcat(w1, a);
    AllWhitespaceConcat(b, w2);
    Regroup(w1, a, t, b, w2);
    StripUnique(w1 + a, t, b + w2);
  }

  /** A string strips to nothing exactly when it is all whitespace. */
  lemma StripEmptyIff(s: string)
    ensures Strip(s) == [] <==> AllWhitespace(s)
  {
    if AllWhitespace(s) {
      assert s == s + [] + [];
      StripUnique(s, [], []);
    } else {
      StripDecomposes(s);
    }
  }
}
