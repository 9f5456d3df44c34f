/**
 The part of JavaScript's `String.prototype.trim` the task list relies on:
 removing leading and trailing white space from the text typed by the user.
 */
module JsString {

  /** The code points ECMAScript's `trim` strips: the WhiteSpace production
      (tab, vertical tab, form feed, no-break space, zero-width no-break space
      and every space separator of category Zs) together with the
      LineTerminator production (line feed, carriage return, line separator,
      paragraph separator). */
  predicate IsWhitespace(c: char) {
    || c == '\U{0009}' || c == '\U{000B}' || c == '\U{000C}' || c == '\U{FEFF}'
    || c == '\U{0020}' || c == '\U{00A0}' || c == '\U{1680}'
    || ('\U{2000}' <= c <= '\U{200A}')
    || c == '\U{202F}' || c == '\U{205F}' || c == '\U{3000}'
    || c == '\U{000A}' || c == '\U{000D}' || c == '\U{2028}' || c == '\U{2029}'
  }

  /** Every character of `s` is white space (vacuously true of ""). */
  predicate AllWhitespace(s: string) {
    forall k :: 0 <= k < |s| ==> IsWhitespace(s[k])
  }

  /** Neither end of `s` is white space; "" qualifies. */
  predicate IsTrimmed(s: string) {
    s == [] || (!IsWhitespace(s[0]) && !IsWhitespace(s[|s| - 1]))
  }

  /** Length of the longest all-white-space prefix of `s`. */
  function LeadingWhitespace(s: string): (n: nat)
    ensures n <= |s|
    ensures AllWhitespace(s[..n])
    ensures n < |s| ==> !IsWhitespace(s[n])
  {
    if |s| == 0 || !IsWhitespace(s[0]) then 0
    else 1 + LeadingWhitespace(s[1..])
  }

  /** Length of `s` once its longest all-white-space suffix is dropped. */
  function ContentEnd(s: string): (m: nat)
    ensures m <= |s|
    ensures AllWhitespace(s[m..])
    ensures m > 0 ==> !IsWhitespace(s[m - 1])
  {
    if |s| == 0 || !IsWhitespace(s[|s| - 1]) then |s|
    else ContentEnd(s[..|s| - 1])
  }

  /** `s` without its leading and trailing white space. */
  function Trim(s: string): (t: string)
    ensures IsTrimmed(t)
    ensures t == [] <==> AllWhitespace(s)
    ensures exists i :: 0 <= i <= |s| - |t| && t == s[i..i + |t|]
                        && AllWhitespace(s[..i]) && AllWhitespace(s[i + |t|..])
  {
    var i := LeadingWhitespace(s);
    var rest := s[i..];
    var t := rest[..ContentEnd(rest)];
    assert t == s[i..i + |t|];
    assert s[i + |t|..] == rest[ContentEnd(rest)..];
    BlankMiddle(s, i, i + |t|);
    t
  }

  /** When the middle `s[i..j]` is empty, white space on both sides makes all
      of `s` white space. */
  lemma BlankMiddle(s: string, i: nat, j: nat)
    requires i <= j <= |s|
    requires AllWhitespace(s[..i]) && AllWhitespace(s[j..])
    ensures i == j ==> AllWhitespace(s)
  {
    if i == j {
      forall k | 0 <= k < |s|
        ensures IsWhitespace(s[k])
      {
        if k < i { assert s[k] == s[..i][k]; }
        else { assert s[k] == s[j..][k - j]; }
      }
    }
  }

  /** A string with no white space at either end is its own trim. */
  lemma TrimOfTrimmed(s: string)
    requires IsTrimmed(s)
    ensures Trim(s) == s
  {
    if s != [] {
      assert LeadingWhitespace(s) == 0;
      assert ContentEnd(s) == |s|;
    }
  }

  /** Trimming twice is trimming once. */
  lemma TrimIdempotent(s: string)
    ensures Trim(Trim(s)) == Trim(s)
  {
    TrimOfTrimmed(Trim(s));
  }

  /** Two white-space prefixes that each stop at a non-white-space
      character stop at the same place. */
  lemma SamePrefixStop(s: string, a: nat, b: nat)
    requires a < |s| && b < |s|
    requires AllWhitespace(s[..a]) && !IsWhitespace(s[a])
    requires AllWhitespace(s[..b]) && !IsWhitespace(s[b])
    ensures a == b
  {
  }

  /** Two white-space suffixes that each start after a non-white-space
      character start at the same place. */
  lemma SameSuffixStart(s: string, a: nat, b: nat)
    requires 0 < a <= |s| && 0 < b <= |s|
    requires AllWhitespace(s[a..]) && !IsWhitespace(s[a - 1])
    requires AllWhitespace(s[b..]) && !IsWhitespace(s[b - 1])
    ensures a == b
  {
  }

  /** Trim is the only way to cut `s` into white space, a trimmed middle and
      white space: any such middle is exactly `Trim(s)`. */
  lemma TrimUnique(s: string, i: nat, j: nat)
    requires i <= j <= |s|
    requires AllWhitespace(s[..i]) && AllWhitespace(s[j..])
    requires IsTrimmed(s[i..j])
    ensures Trim(s) == s[i..j]
  {
    var a := LeadingWhitespace(s);
    var rest := s[a..];
    var e := a + ContentEnd(rest);
    assert Trim(s) == s[a..e];
    assert s[e..] == rest[ContentEnd(rest)..];
    if i == j {
      BlankMiddle(s, i, j);
    } else {
      assert s[i] == s[i..j][0];
      assert s[j - 1] == s[i..j][j - 1 - i];
      SamePrefixStop(s, a, i);
      SameSuffixStart(s, e, j);
    }
  }
}
