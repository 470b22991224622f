/**
 The e-mail pattern of the contact form, `^[\w\.-]+@[\w\.-]+\.\w+$`, as
 Python's `re.match` applies it. `MatchesPattern` is what the regular expression
 accepts; `IsValidEmail` is a direct character-level test, proved to accept
 exactly the same strings once the input has been stripped.
 */
module EmailPattern {
  import opened PyText

  /** The class `[\w\.-]`. */
  predicate IsNameChar(c: char)
  {
    IsWordChar(c) || c == '.' || c == '-'
  }

  predicate AllNameChars(s: string)
  {
    forall i :: 0 <= i < |s| ==> IsNameChar(s[i])
  }

  predicate AllWordChars(s: string)
  {
    forall i :: 0 <= i < |s| ==> IsWordChar(s[i])
  }

  /**
   `[\w\.-]+@[\w\.-]+\.\w+` matched against the whole of `e`: a non-empty
   local part, the `@` at `at`, a non-empty domain part, the `.` at `dot`,
   and a non-empty run of word characters up to the end.
   */
  ghost predicate FullMatch(e: string)
  {
    exists at, dot :: 0 < at && at + 1 < dot && dot + 1 < |e| && e[at] == '@' && e[dot] == '.' &&
      AllNameChars(e[..at]) && AllNameChars(e[at + 1..dot]) && AllWordChars(e[dot + 1..])
  }

  /**
   What `re.match` does with the anchored pattern: `^` ties the match to the
   start, and `$` matches at the very end or just before a final line feed.
   */
  ghost predicate MatchesPattern(e: string)
  {
    FullMatch(e) || (|e| > 0 && e[|e| - 1] == '\n' && FullMatch(e[..|e| - 1]))
  }

  /** The position of the first `c` in `s`, or `|s|` when there is none. */
  function FirstIndexOf(s: string, c: char): (k: nat)
    ensures k <= |s|
    ensures k < |s| ==> s[k] == c
    ensures forall i :: 0 <= i < k ==> s[i] != c
  {
    if s == [] then 0
    else if s[0] == c then 0
    else 1 + FirstIndexOf(s[1..], c)
  }

  /** The position of the last character of `s` outside `\w`, or -1 when there is none. */
  function LastNonWordIndex(s: string): (k: int)
    ensures -1 <= k < |s|
    ensures k >= 0 ==> !IsWordChar(s[k])
    ensures forall i :: k < i < |s| ==> IsWordChar(s[i])
  {
    if s == [] then -1
    else if !IsWordChar(s[|s| - 1]) then |s| - 1
    else LastNonWordIndex(s[..|s| - 1])
  }

  /**
   The character-level test: the first `@` has something before it, every
   other character is in `[\w\.-]`, and the last character outside `\w` is a
   `.` that comes at least two places after the `@` and is not the last.
   */
  predicate IsValidEmail(e: string)
  {
    var at := FirstIndexOf(e, '@');
    var dot := LastNonWordIndex(e);
    && 0 < at && at + 1 < dot && dot + 1 < |e| && e[dot] == '.'
    && forall i :: 0 <= i < |e| && i != at ==> IsNameChar(e[i])
  }

  /** The character-level test accepts exactly what the pattern matches in full. */
  lemma IsValidEmailIffFullMatch(e: string)
    ensures IsValidEmail(e) <==> FullMatch(e)
  {
    if IsValidEmail(e) {
      ValidIsFullMatch(e);
    }
    if FullMatch(e) {
      FullMatchIsValid(e);
    }
  }

  /** The `@` and `.` that the character-level test finds are a full match's witnesses. */
  lemma ValidIsFullMatch(e: string)
    requires IsValidEmail(e)
    ensures FullMatch(e)
  {
    var at := FirstIndexOf(e, '@');
    var dot := LastNonWordIndex(e);
    assert AllNameChars(e[..at]) by {
      forall i | 0 <= i < at ensures IsNameChar(e[..at][i]) { assert e[..at][i] == e[i]; }
    }
    var domain, top := e[at + 1..dot], e[dot + 1..];
    forall i | 0 <= i < |domain| ensures IsNameChar(domain[i]) { assert domain[i] == e[at + 1 + i]; }
    forall i | 0 <= i < |top| ensures IsWordChar(top[i]) { assert top[i] == e[dot + 1 + i]; }
  }

  /** A full match's `@` is the first `@`, and its `.` is the last character outside `\w`. */
  lemma FullMatchIsValid(e: string)
    requires FullMatch(e)
    ensures IsValidEmail(e)
  {
    var a, d :| 0 < a && a + 1 < d && d + 1 < |e| && e[a] == '@' && e[d] == '.' &&
      AllNameChars(e[..a]) && AllNameChars(e[a + 1..d]) && AllWordChars(e[d + 1..]);
    FirstAtOfMatch(e, a);
    LastNonWordAt(e, d);
    NameCharsOfMatch(e, a, d);
  }

  /** `@` is not in `[\w\.-]`, so an `@` preceded only by such characters is the first one. */
  lemma FirstAtOfMatch(e: string, a: nat)
    requires a < |e| && e[a] == '@' && AllNameChars(e[..a])
    ensures FirstIndexOf(e, '@') == a
  {
    forall i | 0 <= i < a ensures e[i] != '@' { assert e[..a][i] == e[i]; }
  }

  /** A character outside `\w` followed only by word characters is the last character outside `\w`. */
  lemma LastNonWordAt(e: string, d: nat)
    requires d < |e| && !IsWordChar(e[d]) && AllWordChars(e[d + 1..])
    ensures LastNonWordIndex(e) == d
  {
    forall i | d < i < |e| ensures IsWordChar(e[i]) { assert e[d + 1..][i - d - 1] == e[i]; }
  }

  /** In a full match, every character other than the `@` is in `[\w\.-]`. */
  lemma NameCharsOfMatch(e: string, a: nat, d: nat)
    requires a < d < |e| && e[d] == '.'
    requires AllNameChars(e[..a]) && AllNameChars(e[a + 1..d]) && AllWordChars(e[d + 1..])
    ensures forall i :: 0 <= i < |e| && i != a ==> IsNameChar(e[i])
  {
    forall i | 0 <= i < |e| && i != a ensures IsNameChar(e[i]) {
      if i < a {
        assert e[..a][i] == e[i];
      } else if i < d {
        assert e[a + 1..d][i - a - 1] == e[i];
      } else if i > d {
        assert e[d + 1..][i - d - 1] == e[i];
      }
    }
  }

  /**
   On a stripped string the line-feed allowance of `$` never applies, so the
   character-level test is exactly what `re.match` decides.
   */
  lemma StrippedMatchesIffValid(e: string)
    requires IsStripped(e)
    ensures MatchesPattern(e) <==> IsValidEmail(e)
  {
    IsValidEmailIffFullMatch(e);
  }

  /**
   An accepted address holds exactly one `@`, and neither whitespace nor the
   `|` of the log format, since neither is in `[\w\.-]`.
   */
  lemma ValidEmailShape(e: string)
    requires IsValidEmail(e)
    ensures multiset(e)['@'] == 1
    ensures forall i :: 0 <= i < |e| ==> !IsWhitespace(e[i]) && e[i] != '|'
    ensures '|' !in e
    ensures IsStripped(e)
  {
    var at := FirstIndexOf(e, '@');
    assert e == e[..at] + [e[at]] + e[at + 1..];
    assert '@' !in e[..at];
    var rest := e[at + 1..];
    forall i | 0 <= i < |rest| ensures rest[i] != '@' { assert rest[i] == e[at + 1 + i]; }
    assert '@' !in rest;
    assert multiset(e) == multiset(e[..at]) + multiset([e[at]]) + multiset(e[at + 1..]);
  }

  /** A typical address, `jane@example.com`, is accepted. */
  lemma ExampleAccepted()
    ensures IsValidEmail("jane@example.com")
  {
    var e := "jane@example.com";
    assert e[4] == '@' && e[12] == '.';
    assert e[..4] == "jane" && e[5..12] == "example" && e[13..] == "com";
    assert FullMatch(e);
    IsValidEmailIffFullMatch(e);
  }

  /** An address without `@` is rejected. */
  lemma ExampleRejected()
    ensures !IsValidEmail("not-an-email")
  {
    // The last character outside `\w` is the `-`, not a `.`.
    var e := "not-an-email";
    assert e[6] == '-' && e[7..] == "email";
    LastNonWordAt(e, 6);
  }
}
