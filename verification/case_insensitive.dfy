/**
 * Case-insensitive string comparison, as used for header names and
 * connection tokens (Java's String.equalsIgnoreCase, restricted to ASCII
 * case folding).
 */
module CaseInsensitive {

  /** Folds an upper-case ASCII letter to lower case; every other character is unchanged. */
  function FoldChar(c: char): char {
    if 'A' <= c <= 'Z' then (c as int + 32) as char else c
  }

  /** The string with every character folded. */
  function Fold(s: string): (r: string)
    ensures |r| == |s|
    ensures forall i :: 0 <= i < |s| ==> r[i] == FoldChar(s[i])
  {
    seq(|s|, i requires 0 <= i < |s| => FoldChar(s[i]))
  }

  /**
   * Same length, and the characters agree pairwise once folded; that is, the
   * folded strings are equal.
   */
  predicate EqualsIgnoreCase(a: string, b: string)
    ensures EqualsIgnoreCase(a, b) <==> Fold(a) == Fold(b)
  {
    |a| == |b| && forall i :: 0 <= i < |a| ==> FoldChar(a[i]) == FoldChar(b[i])
  }

  /** The comparison is an equivalence relation. */
  lemma EqualsIgnoreCaseIsEquivalence(a: string, b: string, c: string)
    ensures EqualsIgnoreCase(a, a)
    ensures EqualsIgnoreCase(a, b) ==> EqualsIgnoreCase(b, a)
    ensures EqualsIgnoreCase(a, b) && EqualsIgnoreCase(b, c) ==> EqualsIgnoreCase(a, c)
  {
  }

  /** Equal strings compare equal; strings of different lengths never do. */
  lemma EqualsIgnoreCaseLength(a: string, b: string)
    ensures a == b ==> EqualsIgnoreCase(a, b)
    ensures |a| != |b| ==> !EqualsIgnoreCase(a, b)
  {
  }
}
