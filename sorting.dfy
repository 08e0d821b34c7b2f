/** Sortedness shared by the puzzles that sort their input first. */
module Sorting {

  /** The values never decrease from left to right. */
  predicate Sorted(s: seq<int>)
  {
    forall i, j :: 0 <= i < j < |s| ==> s[i] <= s[j]
  }
}
