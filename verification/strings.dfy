/** Character classes, case-insensitive search and trimming, as JavaScript strings behave on ASCII text. */
module Strings {
  import opened Wrappers

  /** The white space of JavaScript's `\s` class and of `String.prototype.trim`, restricted to ASCII:
      space, tab, line feed, vertical tab, form feed and carriage return. */
  predicate IsSpace(c: char)
  {
    c == ' ' || c == '\t' || c == '\n' || c == '\U{000B}' || c == '\U{000C}' || c == '\r'
  }

  predicate AllSpace(s: string)
  {
    forall i :: 0 <= i < |s| ==> IsSpace(s[i])
  }

  /** No white space at either end. */
  predicate IsTrimmed(s: string)
  {
    |s| == 0 || (!IsSpace(s[0]) && !IsSpace(s[|s| - 1]))
  }

  /** The case folding of a regular expression with the `i` flag and without `u`, on ASCII letters. */
  function LowerAscii(c: char): char
  {
    if 'A' <= c <= 'Z' then (c as int + 32) as char else c
  }

  /** `p` occurs in `s` starting at position `i`, ignoring ASCII case. */
  predicate OccursAt(s: string, i: nat, p: string)
  {
    i + |p| <= |s| && forall k :: 0 <= k < |p| ==> LowerAscii(s[i + k]) == LowerAscii(p[k])
  }

  /** Only `>` itself matches `>` when case is ignored (and likewise for `"`). */
  lemma OccursAtPunctuation(s: string, i: nat, c: char)
    requires !('a' <= c <= 'z') && !('A' <= c <= 'Z')
    ensures OccursAt(s, i, [c]) <==> i < |s| && s[i] == c
  {
    if i < |s| {
      assert OccursAt(s, i, [c]) <==> LowerAscii(s[i]) == LowerAscii([c][0]);
    }
  }

  /** Leftmost occurrence of `p` in `s` at or after position `from`, ignoring ASCII case. */
  function Find(s: string, p: string, from: nat): (r: Option<nat>)
    decreases |s| - from
    ensures r.Some? ==> from <= r.value && OccursAt(s, r.value, p)
    ensures r.Some? ==> forall k :: from <= k < r.value ==> !OccursAt(s, k, p)
    ensures r.None? ==> forall k :: from <= k ==> !OccursAt(s, k, p)
  {
    if from + |p| > |s| then None
    else if OccursAt(s, from, p) then Some(from)
    else Find(s, p, from + 1)
  }

  /** `Find` for a single character that is not a letter, stated character by character. */
  lemma FindChar(s: string, c: char, from: nat)
    requires !('a' <= c <= 'z') && !('A' <= c <= 'Z')
    ensures Find(s, [c], from).Some? ==>
      var g := Find(s, [c], from).value;
      g < |s| && s[g] == c && forall k :: from <= k < g ==> s[k] != c
    ensures Find(s, [c], from).None? ==> forall k :: from <= k < |s| ==> s[k] != c
  {
    forall k | from <= k < |s| {
      OccursAtPunctuation(s, k, c);
    }
  }

  /** Number of white-space characters at the start of `s`. */
  function LeadingSpace(s: string): (n: nat)
    ensures n <= |s|
    ensures forall i :: 0 <= i < n ==> IsSpace(s[i])
    ensures n == |s| || !IsSpace(s[n])
  {
    if |s| > 0 && IsSpace(s[0]) then 1 + LeadingSpace(s[1..]) else 0
  }

  /** Number of white-space characters at the end of `s`. */
  function TrailingSpace(s: string): (n: nat)
    ensures n <= |s|
    ensures forall i :: |s| - n <= i < |s| ==> IsSpace(s[i])
    ensures n == |s| || !IsSpace(s[|s| - n - 1])
  {
    if |s| > 0 && IsSpace(s[|s| - 1]) then 1 + TrailingSpace(s[..|s| - 1]) else 0
  }

  /** `String.prototype.trim`: the infix of `s` left when its leading and trailing white space is removed. */
  function Trim(s: string): (r: string)
    ensures IsTrimmed(r)
    ensures var a := LeadingSpace(s);
      && a + |r| <= |s| && r == s[a..a + |r|]
      && (forall i :: 0 <= i < a ==> IsSpace(s[i]))
      && (forall i :: a + |r| <= i < |s| ==> IsSpace(s[i]))
    ensures |r| == 0 <==> AllSpace(s)
  {
    var a := LeadingSpace(s);
    if a == |s| then "" else s[a..|s| - TrailingSpace(s)]
  }

  /** Trimming a string that has no white space at its ends changes nothing. */
  lemma TrimTrimmed(s: string)
    requires IsTrimmed(s)
    ensures Trim(s) == s
  {
  }

  /** A string holding a non-white-space character does not trim to the empty string. */
  lemma TrimNonEmpty(s: string, i: nat)
    requires i < |s| && !IsSpace(s[i])
    ensures |Trim(s)| > 0
  {
  }
}
