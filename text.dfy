/**
  The part of JavaScript's `String.prototype.trim` that `addTask` relies on:
  white space and line terminators are removed from both ends of a string.
  Strings are sequences of Unicode scalar values, so unpaired UTF-16
  surrogates cannot occur; every character `trim` strips lies in the Basic
  Multilingual Plane, so trimming is the same either way.

  The trimming functions carry no postconditions of their own: what they
  compute is stated by the lemmas below them, so that modules using `Trim`
  do not pay for these facts where they do not need them.
 */
module Text {

  /** The characters ECMAScript counts as WhiteSpace or LineTerminator,
      which is the set `trim` strips: tab, line feed, vertical tab, form feed,
      carriage return, space, no-break space, the byte order mark, the other
      space separators (Zs) and the two Unicode line/paragraph separators. */
  predicate IsWhitespace(c: char) {
    || c == '\t' || c == '\n' || c == '\U{000B}' || c == '\U{000C}' || c == '\r'
    || c == ' ' || c == '\U{00A0}' || c == '\U{FEFF}' || c == '\U{1680}'
    || ('\U{2000}' <= c <= '\U{200A}')
    || c == '\U{2028}' || c == '\U{2029}' || c == '\U{202F}' || c == '\U{205F}'
    || c == '\U{3000}'
  }

  /** Every character of `s` is white space (the empty string included). */
  predicate AllWhitespace(s: string) {
    forall k :: 0 <= k < |s| ==> IsWhitespace(s[k])
  }

  /** `s` without its leading white space. */
  function TrimStart(s: string): string
    decreases |s|
  {
    if s == [] || !IsWhitespace(s[0]) then s else TrimStart(s[1..])
  }

  /** `s` without its trailing white space. */
  function TrimEnd(s: string): string
    decreases |s|
  {
    if s == [] || !IsWhitespace(s[|s| - 1]) then s else TrimEnd(s[..|s| - 1])
  }

  /** JavaScript's `s.trim()`. */
  function Trim(s: string): string {
    TrimEnd(TrimStart(s))
  }

  /** `TrimStart` drops a white-space prefix and stops at the first other
      character. */
  lemma {:induction false} TrimStartSpec(s: string)
    ensures |TrimStart(s)| <= |s| && TrimStart(s) == s[|s| - |TrimStart(s)|..]
    ensures forall k :: 0 <= k < |s| - |TrimStart(s)| ==> IsWhitespace(s[k])
    ensures TrimStart(s) != [] ==> !IsWhitespace(TrimStart(s)[0])
    decreases |s|
  {
    if s != [] && IsWhitespace(s[0]) {
      TrimStartSpec(s[1..]);
    }
  }

  /** `TrimEnd` drops a white-space suffix and stops at the last other
      character. */
  lemma {:induction false} TrimEndSpec(s: string)
    ensures |TrimEnd(s)| <= |s| && TrimEnd(s) == s[..|TrimEnd(s)|]
    ensures forall k :: |TrimEnd(s)| <= k < |s| ==> IsWhitespace(s[k])
    ensures TrimEnd(s) != [] ==> !IsWhitespace(TrimEnd(s)[|TrimEnd(s)| - 1])
    decreases |s|
  {
    if s != [] && IsWhitespace(s[|s| - 1]) {
      TrimEndSpec(s[..|s| - 1]);
    }
  }

  /** How many white-space characters `s` starts with. */
  function LeadingWhitespace(s: string): (n: nat)
    ensures n <= |s|
    ensures forall k :: 0 <= k < n ==> IsWhitespace(s[k])
    ensures n < |s| ==> !IsWhitespace(s[n])
  {
    TrimStartSpec(s);
    |s| - |TrimStart(s)|
  }

  /** `s.trim()` is the slice of `s` that starts after its leading white space
      and neither starts nor ends with white space; everything cut away on the
      right is white space too. */
  lemma TrimSpec(s: string)
    ensures LeadingWhitespace(s) + |Trim(s)| <= |s|
    ensures Trim(s) == s[LeadingWhitespace(s)..LeadingWhitespace(s) + |Trim(s)|]
    ensures forall k :: LeadingWhitespace(s) + |Trim(s)| <= k < |s| ==> IsWhitespace(s[k])
    ensures Trim(s) != [] ==> !IsWhitespace(Trim(s)[0]) && !IsWhitespace(Trim(s)[|Trim(s)| - 1])
  {
    TrimStartSpec(s);
    TrimEndSpec(TrimStart(s));
  }

  /** The guard `!text.trim()` of `addTask`: the trimmed text is the empty
      string, which happens exactly when the text is all white space. */
  predicate IsBlank(s: string): (b: bool)
    ensures b <==> AllWhitespace(s)
  {
    TrimSpec(s);
    Trim(s) == []
  }

  /** Trimming twice is trimming once. */
  lemma TrimIdempotent(s: string)
    ensures Trim(Trim(s)) == Trim(s)
  {
    TrimSpec(s);
    var r := Trim(s);
    assert TrimStart(r) == r;
    assert TrimEnd(r) == r;
  }

  /** Text that neither starts nor ends with white space is stored as typed. */
  lemma TrimKeepsTrimmed(s: string)
    requires s != [] && !IsWhitespace(s[0]) && !IsWhitespace(s[|s| - 1])
    ensures Trim(s) == s && !IsBlank(s)
  {
  }

  /** The text of a task is never empty and never blank. */
  lemma TrimmedNotBlank(s: string)
    requires !IsBlank(s)
    ensures Trim(s) != [] && !IsBlank(Trim(s))
  {
    TrimIdempotent(s);
  }
}
