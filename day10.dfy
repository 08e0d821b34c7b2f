/** Adapter array (day10/src/main.rs): the joltage ratings of the adapters,
    with the outlet (0) and the device (three above the largest adapter)
    added and sorted; the counts of 1-jolt and 3-jolt differences along the
    chain, and the number of arrangements found by a backwards pass. */
module AdapterArray {
  import opened Outcomes
  import opened Sorting

  // ===== setup =====

  /** `sorted` is what `adapters.sort()` leaves: the same values in
      ascending order. */
  predicate IsSortOf(sorted: seq<int>, values: seq<int>)
  {
    Sorted(sorted) && multiset(sorted) == multiset(values)
  }

  /** The first and last of the sorted values are their least and largest. */
  lemma SortedEnds(ratings: seq<int>, sorted: seq<int>)
    requires IsSortOf(sorted, [0] + ratings)
    ensures |sorted| == |ratings| + 1
    ensures sorted[|sorted| - 1] in [0] + ratings && forall x :: x in ratings ==> x <= sorted[|sorted| - 1]
    ensures (forall x :: x in ratings ==> x >= 0) ==> sorted[0] == 0
  {
    assert |sorted| == |multiset([0] + ratings)| == |ratings| + 1;
    var last := sorted[|sorted| - 1];
    assert last in multiset(sorted);
    forall x | x in ratings
      ensures x <= last
    {
      assert x in multiset(sorted);
    }
    assert 0 in multiset(sorted);
    assert sorted[0] in multiset([0] + ratings);
    if forall x :: x in ratings ==> x >= 0 {
      var k :| 0 <= k < |sorted| && sorted[k] == 0;
      assert sorted[0] <= sorted[k];
      assert sorted[0] in [0] + ratings;
    }
  }

  /** The list after setup: the outlet 0 and the ratings, sorted by the
      library sort (given here as `sorted`), then the device, three above
      the last (largest) value. */
  function Setup(ratings: seq<int>, sorted: seq<int>): (a: seq<int>)
    requires IsSortOf(sorted, [0] + ratings)
    ensures |a| == |ratings| + 2 && Sorted(a)
    ensures a[|a| - 1] == a[|a| - 2] + 3
    ensures a[|a| - 2] in [0] + ratings && forall x :: x in ratings ==> x <= a[|a| - 2]
    ensures multiset(a[..|a| - 1]) == multiset([0] + ratings)
    ensures (forall x :: x in ratings ==> x >= 0) ==> a[0] == 0
  {
    SortedEnds(ratings, sorted);
    var a := sorted + [sorted[|sorted| - 1] + 3];
    assert a[..|a| - 1] == sorted;
    a
  }

  // ===== differences =====

  function Diff(a: seq<int>, i: int): int
    requires 1 <= i < |a|
  {
    a[i] - a[i - 1]
  }

  /** The number of consecutive differences equal to `d`. */
  function DiffCount(a: seq<int>, d: int): nat
  {
    if |a| < 2 then 0
    else DiffCount(a[..|a| - 1], d) + (if Diff(a, |a| - 1) == d then 1 else 0)
  }

  /** Every consecutive difference is 1, 2 or 3. */
  predicate SmallSteps(a: seq<int>)
  {
    forall i :: 1 <= i < |a| ==> 1 <= Diff(a, i) <= 3
  }

  /** Without a panic, every difference is counted once among the 1s, 2s
      and 3s. */
  lemma {:induction false} DiffCountsPartition(a: seq<int>)
    requires |a| >= 1 && SmallSteps(a)
    ensures DiffCount(a, 1) + DiffCount(a, 2) + DiffCount(a, 3) == |a| - 1
  {
    if |a| >= 2 {
      var front := a[..|a| - 1];
      assert forall i :: 1 <= i < |front| ==> Diff(front, i) == Diff(a, i);
      DiffCountsPartition(front);
    }
  }

  /** The difference loop: a difference of 1 or 3 is counted, 2 is
      ignored, and anything else panics. */
  method CountDifferences(adapters: seq<int>) returns (o: Outcome<(nat, nat)>)
    ensures o.Panic? <==> !SmallSteps(adapters)
    ensures o.Done? ==> o.value == (DiffCount(adapters, 1), DiffCount(adapters, 3))
  {
    var one, three := 0, 0;
    if |adapters| == 0 {
      // the range `1..0` is empty
      return Done((0, 0));
    }
    for i := 1 to |adapters|
      invariant forall k :: 1 <= k < i ==> 1 <= Diff(adapters, k) <= 3
      invariant one == DiffCount(adapters[..i], 1) && three == DiffCount(adapters[..i], 3)
    {
      var dif := adapters[i] - adapters[i - 1];
      assert adapters[..i + 1][..i] == adapters[..i];
      if dif == 1 {
        one := one + 1;
      } else if dif == 2 {
      } else if dif == 3 {
        three := three + 1;
      } else {
        assert !(1 <= Diff(adapters, i) <= 3);
        return Panic;
      }
    }
    assert adapters[..|adapters|] == adapters;
    o := Done((one, three));
  }

  // ===== arrangements =====

  /** Adapter `j` can be followed by adapter `j + d` (`d` in 1..3): it
      exists and is at most 3 jolts above. */
  predicate Link(a: seq<int>, j: int, d: int)
  {
    0 <= j && 1 <= d <= 3 && j + d < |a| && a[j + d] - a[j] <= 3
  }

  /** The number of ways to go from adapter `j` to the device, each step
      moving one to three places forward and at most three jolts up. */
  function Ways(a: seq<int>, j: nat): nat
    requires j < |a|
    decreases |a| - j
  {
    (if j == |a| - 1 then 1 else 0) +
    (if Link(a, j, 1) then Ways(a, j + 1) else 0) +
    (if Link(a, j, 2) then Ways(a, j + 2) else 0) +
    (if Link(a, j, 3) then Ways(a, j + 3) else 0)
  }

  /** When every step of the chain is 1 to 3 jolts, every adapter has at
      least one way to the device. */
  lemma {:induction false} WaysPositive(a: seq<int>, j: nat)
    requires SmallSteps(a) && j < |a|
    ensures Ways(a, j) >= 1
    decreases |a| - j
  {
    if j < |a| - 1 {
      assert 1 <= Diff(a, j + 1) <= 3;
      WaysPositive(a, j + 1);
    }
  }

  /** What `dp[j]` holds once the adapters from `lo` on have been
      propagated: the seed of the last adapter plus the ways through the
      followers at or after `lo`. */
  function Partial(a: seq<int>, j: nat, lo: int): nat
    requires j < |a|
  {
    (if j == |a| - 1 then 1 else 0) +
    (if j + 1 >= lo && Link(a, j, 1) then Ways(a, j + 1) else 0) +
    (if j + 2 >= lo && Link(a, j, 2) then Ways(a, j + 2) else 0) +
    (if j + 3 >= lo && Link(a, j, 3) then Ways(a, j + 3) else 0)
  }

  /** `dp` once the adapters from `lo` on have been propagated: final
      counts from `lo` on, partial ones before. */
  function Table(a: seq<int>, lo: nat): (t: seq<nat>)
    ensures |t| == |a|
  {
    seq(|a|, j requires 0 <= j < |a| => if j >= lo then Ways(a, j) else Partial(a, j, lo))
  }

  /** Adding the count at `i` to the entry `i - d` when `i - d` can reach
      `i`. */
  function Push(a: seq<int>, t: seq<nat>, i: nat, d: nat): (u: seq<nat>)
    requires |t| == |a| && i < |a|
    ensures |u| == |a|
  {
    if d <= i && Link(a, i - d, d) then t[i - d := t[i - d] + t[i]] else t
  }

  /** Entry `j` after one push from `i`. */
  lemma PushAt(a: seq<int>, t: seq<nat>, i: nat, d: nat, j: nat)
    requires |t| == |a| && i < |a| && j < |a| && 1 <= d
    ensures Push(a, t, i, d)[j] == t[j] + (if j + d == i && Link(a, j, d) then t[i] else 0)
  {
  }

  /** Entry `j` of the table before and after propagating adapter `i`. */
  lemma PropagateAt(a: seq<int>, i: nat, j: nat)
    requires i < |a| && j < |a|
    ensures Table(a, i)[j] ==
      Table(a, i + 1)[j] + (if j + 3 == i && Link(a, j, 3) then Table(a, i + 1)[i] else 0)
                         + (if j + 2 == i && Link(a, j, 2) then Table(a, i + 1)[i] else 0)
                         + (if j + 1 == i && Link(a, j, 1) then Table(a, i + 1)[i] else 0)
  {
    assert Table(a, i + 1)[i] == Ways(a, i);
  }

  /** Propagating adapter `i` (to `i - 3`, `i - 2`, `i - 1`, in that
      order) turns the table before it into the table after it. */
  lemma {:induction false} PropagateStep(a: seq<int>, i: nat)
    requires i < |a|
    ensures Push(a, Push(a, Push(a, Table(a, i + 1), i, 3), i, 2), i, 1) == Table(a, i)
  {
    var t := Table(a, i + 1);
    var t3 := Push(a, t, i, 3);
    var t2 := Push(a, t3, i, 2);
    var u := Push(a, t2, i, 1);
    PushAt(a, t, i, 3, i);
    PushAt(a, t3, i, 2, i);
    forall j | 0 <= j < |a|
      ensures u[j] == Table(a, i)[j]
    {
      PushAt(a, t, i, 3, j);
      PushAt(a, t3, i, 2, j);
      PushAt(a, t2, i, 1, j);
      PropagateAt(a, i, j);
    }
  }

  /** The backwards pass: `dp` starts with a 1 for the device, and each
      index, taken from the last down, adds its own count to the (up to
      three) earlier adapters that can reach it. An index's count is final
      when it is propagated, all its followers having been handled before. */
  method Arrangements(adapters: seq<int>) returns (dp: array<nat>)
    requires |adapters| >= 1
    ensures fresh(dp) && dp.Length == |adapters|
    ensures forall j :: 0 <= j < |adapters| ==> dp[j] == Ways(adapters, j)
  {
    var n := |adapters|;
    dp := new nat[n](_ => 0);
    dp[n - 1] := 1;
    var i := n;
    assert dp[..] == Table(adapters, n);
    while i > 0
      invariant 0 <= i <= n && dp.Length == n
      invariant dp[..] == Table(adapters, i)
    {
      i := i - 1;
      PushBack(adapters, dp, i, 3);
      PushBack(adapters, dp, i, 2);
      PushBack(adapters, dp, i, 1);
      PropagateStep(adapters, i);
    }
  }

  /** One guarded addition of the loop body: `dp[i - d] += dp[i]` when
      `i - d` is an index and adapter `i - d` can reach adapter `i`. */
  method PushBack(adapters: seq<int>, dp: array<nat>, i: nat, d: nat)
    requires dp.Length == |adapters| && i < |adapters| && 1 <= d <= 3
    modifies dp
    ensures dp[..] == Push(adapters, old(dp[..]), i, d)
  {
    if i - d >= 0 {
      if adapters[i] - adapters[i - d] <= 3 {
        dp[i - d] := dp[i - d] + dp[i];
      }
    }
  }
}
