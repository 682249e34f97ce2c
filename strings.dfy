/**
 * Trimming as `String.prototype.trim` does it: leading and trailing
 * white space and line terminators are removed, nothing else.
 */
module Strings {

  /** The ECMAScript WhiteSpace and LineTerminator code points. */
  predicate IsWhitespace(c: char) {
    || c == '\t' || c == '\n' || c == '\U{000B}' || c == '\U{000C}' || c == '\r'
    || c == ' ' || c == '\U{00A0}' || c == '\U{1680}'
    || ('\U{2000}' <= c <= '\U{200A}')
    || c == '\U{2028}' || c == '\U{2029}' || c == '\U{202F}' || c == '\U{205F}'
    || c == '\U{3000}' || c == '\U{FEFF}'
  }

  ghost predicate AllWhitespace(s: string) {
    forall k :: 0 <= k < |s| ==> IsWhitespace(s[k])
  }

  /** Index of the first character that is not white space (|s| if none). */
  function LeadingEnd(s: string): (i: nat)
    ensures i <= |s|
    ensures forall k :: 0 <= k < i ==> IsWhitespace(s[k])
    ensures i < |s| ==> !IsWhitespace(s[i])
  {
    if s == [] || !IsWhitespace(s[0]) then 0 else 1 + LeadingEnd(s[1..])
  }

  /** Index just past the last character that is not white space (0 if none). */
  function TrailingStart(s: string): (j: nat)
    ensures j <= |s|
    ensures forall k :: j <= k < |s| ==> IsWhitespace(s[k])
    ensures j > 0 ==> !IsWhitespace(s[j - 1])
  {
    if s == [] || !IsWhitespace(s[|s| - 1]) then |s| else TrailingStart(s[..|s| - 1])
  }

  function Trim(s: string): (r: string)
    ensures |r| <= |s|
    ensures r == [] <==> AllWhitespace(s)
    ensures r != [] ==> !IsWhitespace(r[0]) && !IsWhitespace(r[|r| - 1])
  {
    var i := LeadingEnd(s);
    if i == |s| then [] else s[i..TrailingStart(s)]
  }

  /**
   * Reference definition: `r` is what remains of `s` once a white-space
   * prefix and a white-space suffix are cut off, and `r` itself neither
   * starts nor ends with white space.
   */
  ghost predicate IsTrimOf(r: string, s: string) {
    exists i, j :: 0 <= i <= j <= |s| && r == s[i..j]
      && AllWhitespace(s[..i]) && AllWhitespace(s[j..])
      && (r == [] || (!IsWhitespace(r[0]) && !IsWhitespace(r[|r| - 1])))
  }

  /** What Trim returns is a trim of its input in the reference sense. */
  lemma TrimIsTrimOf(s: string)
    ensures IsTrimOf(Trim(s), s)
  {
    var lead, trail := LeadingEnd(s), TrailingStart(s);
    if lead == |s| {
      assert s[..|s|] == s && s[|s|..] == [];
      assert Trim(s) == s[|s|..|s|];
    } else {
      assert s[lead] == s[lead..trail][0];
    }
  }

  /** A white-space prefix ending at a non-white-space character ends where LeadingEnd says. */
  lemma LeadingEndUnique(s: string, i: nat)
    requires i < |s| && AllWhitespace(s[..i]) && !IsWhitespace(s[i])
    ensures LeadingEnd(s) == i
  {
  }

  /** A white-space suffix starting after a non-white-space character starts where TrailingStart says. */
  lemma TrailingStartUnique(s: string, j: nat)
    requires 0 < j <= |s| && AllWhitespace(s[j..]) && !IsWhitespace(s[j - 1])
    ensures TrailingStart(s) == j
  {
  }

  /** Any reference trim of `s` is the one Trim returns. */
  lemma TrimOfUnique(s: string, r: string)
    requires IsTrimOf(r, s)
    ensures r == Trim(s)
  {
    var i, j :| 0 <= i <= j <= |s| && r == s[i..j]
      && AllWhitespace(s[..i]) && AllWhitespace(s[j..])
      && (r == [] || (!IsWhitespace(r[0]) && !IsWhitespace(r[|r| - 1])));
    if r == [] {
      forall k | 0 <= k < |s| ensures IsWhitespace(s[k]) {
        if k < i { assert s[..i][k] == s[k]; } else { assert s[j..][k - j] == s[k]; }
      }
    } else {
      assert s[i] == r[0] && s[j - 1] == r[|r| - 1];
      LeadingEndUnique(s, i);
      TrailingStartUnique(s, j);
    }
  }

  /** Trim computes exactly the reference trim, and that trim is unique. */
  lemma TrimSpec(s: string, r: string)
    ensures IsTrimOf(r, s) <==> r == Trim(s)
  {
    TrimIsTrimOf(s);
    if IsTrimOf(r, s) { TrimOfUnique(s, r); }
  }

  /** Trimming twice is trimming once. */
  lemma TrimIdempotent(s: string)
    ensures Trim(Trim(s)) == Trim(s)
  {
  }
}
