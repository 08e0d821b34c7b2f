/** Counting shared by several puzzles: the occurrences of a character in
    a string, and the size of a set inside another. */
module Counting {

  /** The number of times `c` occurs in `s`. */
  function Occurrences(s: string, c: char): (n: nat)
    ensures n <= |s|
  {
    if s == [] then 0 else Occurrences(s[..|s| - 1], c) + (if s[|s| - 1] == c then 1 else 0)
  }

  /** Counting is additive over concatenation. */
  lemma {:induction false} OccurrencesConcat(s: string, t: string, c: char)
    ensures Occurrences(s + t, c) == Occurrences(s, c) + Occurrences(t, c)
  {
    if t == [] {
      assert s + t == s;
    } else {
      OccurrencesConcat(s, t[..|t| - 1], c);
      assert (s + t)[..|s + t| - 1] == s + t[..|t| - 1];
    }
  }

  /** A character that never occurs counts 0; one that fills the string
      counts its length. */
  lemma {:induction false} OccurrencesUniform(s: string, c: char)
    ensures (forall k :: 0 <= k < |s| ==> s[k] != c) ==> Occurrences(s, c) == 0
    ensures (forall k :: 0 <= k < |s| ==> s[k] == c) ==> Occurrences(s, c) == |s|
  {
    if s != [] {
      OccurrencesUniform(s[..|s| - 1], c);
    }
  }

  /** A subset is no larger than the set holding it. */
  lemma SubsetSize<T>(a: set<T>, b: set<T>)
    requires a <= b
    ensures |a| <= |b|
  {
    assert b == a + (b - a);
  }
}
