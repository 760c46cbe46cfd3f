/** Case-insensitive string comparison, as used by every name lookup of the restaurant.
    Java's `String.equalsIgnoreCase` is modelled on the ASCII letters: two strings are equal
    ignoring case when they have the same length and agree character by character after
    folding upper-case ASCII letters to lower case. */
module Strings {

  /** Folds an upper-case ASCII letter to lower case; every other character is kept. */
  function Lower(c: char): char {
    if 'A' <= c <= 'Z' then (c as int - 'A' as int + 'a' as int) as char else c
  }

  predicate EqualsIgnoreCase(a: string, b: string) {
    |a| == |b| && forall i :: 0 <= i < |a| ==> Lower(a[i]) == Lower(b[i])
  }

  /** The comparison is an equivalence: every lookup that re-resolves a name it has just
      found lands on a node whose name matches the original query. */
  lemma EqualsIgnoreCaseIsEquivalence(a: string, b: string, c: string)
    ensures EqualsIgnoreCase(a, a)
    ensures EqualsIgnoreCase(a, b) ==> EqualsIgnoreCase(b, a)
    ensures EqualsIgnoreCase(a, b) && EqualsIgnoreCase(b, c) ==> EqualsIgnoreCase(a, c)
  {
  }
}
