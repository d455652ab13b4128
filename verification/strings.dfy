/**
 * The Python string builtins the application relies on: slicing a prefix
 * (`s[:n]`), joining with a separator (`sep.join(ps)`) and `s.strip()`.
 * Strings are sequences of Unicode scalar values.
 */
module Strings {

  /** `s[:n]` for a non-negative `n`: the longest prefix of `s` with at most `n` characters. */
  function Prefix(s: string, n: nat): (r: string)
    ensures r <= s && |r| <= n
    ensures |r| < n ==> r == s
  {
    if n <= |s| then s[..n] else s
  }

  /** `sep.join(ps)`. */
  function Join(ps: seq<string>, sep: string): string
  {
    if ps == [] then "" else if |ps| == 1 then ps[0] else ps[0] + sep + Join(ps[1..], sep)
  }

  /** The summed length of the pieces. */
  function TotalLength(ps: seq<string>): nat
  {
    if ps == [] then 0 else |ps[0]| + TotalLength(ps[1..])
  }

  /** The joined text holds every piece and one separator between each two neighbours. */
  lemma {:induction false} JoinLength(ps: seq<string>, sep: string)
    requires ps != []
    ensures |Join(ps, sep)| == TotalLength(ps) + (|ps| - 1) * |sep|
  {
    if |ps| > 1 {
      JoinLength(ps[1..], sep);
      assert (|ps| - 1) * |sep| == (|ps[1..]| - 1) * |sep| + |sep|;
    }
  }

  /**
   * Trimming is stated for any character class `isSpace`, so that the proofs
   * do not depend on which characters are whitespace.
   * The number of leading characters in the class.
   */
  function LeadingSpaces(s: string, isSpace: char -> bool): (n: nat)
    ensures n <= |s|
    ensures forall k :: 0 <= k < n ==> isSpace(s[k])
    ensures n < |s| ==> !isSpace(s[n])
  {
    if s != [] && isSpace(s[0]) then 1 + LeadingSpaces(s[1..], isSpace) else 0
  }

  /** Where the trailing run of characters in the class begins. */
  function ContentEnd(s: string, isSpace: char -> bool): (n: nat)
    ensures n <= |s|
    ensures forall k :: n <= k < |s| ==> isSpace(s[k])
    ensures n > 0 ==> !isSpace(s[n - 1])
  {
    if s != [] && isSpace(s[|s| - 1]) then ContentEnd(s[..|s| - 1], isSpace) else |s|
  }

  /** `s.strip()` for the class `isSpace`: both runs removed, or nothing left when they meet. */
  function Trim(s: string, isSpace: char -> bool): string
  {
    var i := LeadingSpaces(s, isSpace);
    var j := ContentEnd(s, isSpace);
    if i < j then s[i..j] else []
  }

  /**
   * Trimming removes only characters of the class, keeps the text between
   * the two runs, and leaves a text that is empty exactly when every
   * character was in the class, and otherwise begins and ends outside it.
   */
  lemma TrimIsSlice(s: string, isSpace: char -> bool)
    ensures var i, j := LeadingSpaces(s, isSpace), ContentEnd(s, isSpace);
      i < j ==> Trim(s, isSpace) == s[i..j] && !isSpace(s[i]) && !isSpace(s[j - 1])
    ensures Trim(s, isSpace) == [] <==> forall k :: 0 <= k < |s| ==> isSpace(s[k])
  {
    var i, j := LeadingSpaces(s, isSpace), ContentEnd(s, isSpace);
    if i < j {
      assert !isSpace(s[i]);
    }
  }

  /** Trimming an already trimmed text changes nothing. */
  lemma TrimIdempotent(s: string, isSpace: char -> bool)
    ensures Trim(Trim(s, isSpace), isSpace) == Trim(s, isSpace)
  {
    var t := Trim(s, isSpace);
    TrimIsSlice(s, isSpace);
    if t != [] {
      var i, j := LeadingSpaces(s, isSpace), ContentEnd(s, isSpace);
      assert t[0] == s[i] && t[|t| - 1] == s[j - 1];
      assert LeadingSpaces(t, isSpace) == 0;
      assert ContentEnd(t, isSpace) == |t|;
      assert t[0..|t|] == t;
    }
  }

  /** The characters Python's `str.isspace()` accepts, which `str.strip()` removes. */
  predicate IsSpace(c: char)
  {
    ('\t' <= c <= '\r') || ('\U{1C}' <= c <= ' ') || c == '\U{85}' || c == '\U{A0}'
    || c == '\U{1680}' || ('\U{2000}' <= c <= '\U{200A}') || c == '\U{2028}' || c == '\U{2029}'
    || c == '\U{202F}' || c == '\U{205F}' || c == '\U{3000}'
  }

  /** `s.strip()`. */
  function Strip(s: string): string
  {
    Trim(s, IsSpace)
  }

  /** `s.strip()` neither begins nor ends with whitespace, and stripping it again changes nothing. */
  lemma StripIsStripped(s: string)
    ensures Strip(s) == [] || (!IsSpace(Strip(s)[0]) && !IsSpace(Strip(s)[|Strip(s)| - 1]))
    ensures Strip(Strip(s)) == Strip(s)
  {
    TrimIsSlice(s, IsSpace);
    TrimIdempotent(s, IsSpace);
  }
}
