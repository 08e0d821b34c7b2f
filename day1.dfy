/** Report repair (day1/src/main.rs): on the sorted expense report, a
    two-pointer search for two entries with a given sum, and for three
    entries by fixing each entry in turn and searching the others for the
    rest of the sum. */
module ReportRepair {
  import opened Outcomes
  import opened Sorting

  // ===== check_sum_2 =====

  /** The loop of `check_sum_2` from the pointers `i` (head) and `j`
      (tail): the indices of the pair it returns, or `None` for the
      `(-1, -1)` answer. `distinct == false` is the loop as written, which
      never compares the two pointers; `distinct == true` also gives up once
      they meet. */
  function Search2(s: seq<int>, target: int, i: nat, j: nat, distinct: bool): (r: Option<(nat, nat)>)
    requires i <= |s| && j < |s|
    ensures r.Some? ==> r.value.0 < |s| && r.value.1 < |s|
    decreases |s| - i + j
  {
    if i >= |s| || j == 0 || (distinct && i >= j) then None
    else if s[i] + s[j] == target then Some((i, j))
    else if s[i] + s[j] > target then Search2(s, target, i, j - 1, distinct)
    else Search2(s, target, i + 1, j, distinct)
  }

  /** What `check_sum_2` returns for a search result. */
  function Values2(s: seq<int>, r: Option<(nat, nat)>): (int, int)
    requires r.Some? ==> r.value.0 < |s| && r.value.1 < |s|
  {
    match r
    case None => (-1, -1)
    case Some((i, j)) => (s[i], s[j])
  }

  /** A pair found is two entries of the report (at the same index unless
      `distinct`) that sum to the target. */
  lemma {:induction false} Search2Sound(s: seq<int>, target: int, i: nat, j: nat, distinct: bool)
    requires i <= |s| && j < |s|
    ensures var r := Search2(s, target, i, j, distinct);
      r.Some? ==> (r.value.0 < |s| && r.value.1 < |s| && s[r.value.0] + s[r.value.1] == target &&
        (distinct ==> r.value.0 < r.value.1))
    decreases |s| - i + j
  {
    if i >= |s| || j == 0 || (distinct && i >= j) {
    } else if s[i] + s[j] == target {
    } else if s[i] + s[j] > target {
      Search2Sound(s, target, i, j - 1, distinct);
    } else {
      Search2Sound(s, target, i + 1, j, distinct);
    }
  }

  /** On a sorted report, when entries `p < q` between the pointers sum to
      the target, the search finds a pair at two distinct indices: the head
      never passes `p` and the tail never passes `q`. */
  lemma {:induction false} Search2Complete(s: seq<int>, target: int, i: nat, j: nat, distinct: bool, p: nat, q: nat)
    requires Sorted(s) && i <= p < q <= j < |s| && s[p] + s[q] == target
    ensures var r := Search2(s, target, i, j, distinct);
      r.Some? && r.value.0 < r.value.1 < |s|
    decreases |s| - i + j
  {
    if s[i] + s[j] == target {
    } else if s[i] + s[j] > target {
      assert s[i] <= s[p];
      Search2Complete(s, target, i, j - 1, distinct, p, q);
    } else {
      assert s[q] <= s[j];
      Search2Complete(s, target, i + 1, j, distinct, p, q);
    }
  }

  /** `check_sum_2`. The tail pointer starts at `len - 1`, which
      underflows (a panic) on an empty slice. */
  method CheckSum2(slice: seq<int>, target: int, distinct: bool) returns (r: Outcome<(int, int)>)
    ensures |slice| == 0 ==> r.Panic?
    ensures |slice| > 0 ==> r == Done(Values2(slice, Search2(slice, target, 0, |slice| - 1, distinct)))
  {
    if |slice| == 0 {
      return Panic;
    }
    var j: nat := |slice| - 1;
    var i: nat := 0;
    while true
      invariant i <= |slice| && j < |slice|
      invariant Search2(slice, target, i, j, distinct) == Search2(slice, target, 0, |slice| - 1, distinct)
      decreases |slice| - i + j
    {
      if i >= |slice| || j <= 0 || (distinct && i >= j) {
        return Done((-1, -1));
      }
      var sum := slice[i] + slice[j];
      if sum == target {
        return Done((slice[i], slice[j]));
      } else if sum > target {
        j := j - 1;
      } else {
        i := i + 1;
      }
    }
  }

  /** The meaning of `check_sum_2`: a pair other than `(-1, -1)` is two
      entries summing to the target; on a sorted report that has two
      entries at distinct indices with that sum, a pair at distinct indices
      is found. */
  lemma CheckSum2Meaning(s: seq<int>, target: int, distinct: bool)
    requires |s| >= 1
    ensures var r := Search2(s, target, 0, |s| - 1, distinct);
      (r.Some? ==> r.value.0 < |s| && r.value.1 < |s| && s[r.value.0] + s[r.value.1] == target) &&
      (distinct && r.Some? ==> r.value.0 < r.value.1)
    ensures Sorted(s) && (exists p, q :: 0 <= p < q < |s| && s[p] + s[q] == target) ==>
      var r := Search2(s, target, 0, |s| - 1, distinct);
      r.Some? && r.value.0 < r.value.1 < |s|
  {
    Search2Sound(s, target, 0, |s| - 1, distinct);
    if Sorted(s) && exists p, q :: 0 <= p < q < |s| && s[p] + s[q] == target {
      var p, q :| 0 <= p < q < |s| && s[p] + s[q] == target;
      Search2Complete(s, target, 0, |s| - 1, distinct, p, q);
    }
  }

  /** The example report, sorted: 1721 and 299 sum to 2020, with product
      514579. */
  lemma ExampleTwo()
    ensures Values2([299, 366, 675, 979, 1456, 1721], Search2([299, 366, 675, 979, 1456, 1721], 2020, 0, 5, false)) == (299, 1721)
    ensures 299 * 1721 == 514579
  {
  }

  /** The loop as written lets both pointers meet on one entry: on
      `[1, 1010, 5000]` no two entries sum to 2020, yet 1010 is reported
      twice; the guard `i >= j` reports no pair. */
  lemma SameEntryTwice()
    ensures !exists p, q :: 0 <= p < q < 3 && [1, 1010, 5000][p] + [1, 1010, 5000][q] == 2020
    ensures Search2([1, 1010, 5000], 2020, 0, 2, false) == Some((1, 1))
    ensures Search2([1, 1010, 5000], 2020, 0, 2, true) == None
  {
  }

  // ===== check_sum_3 =====

  /** The inner loop of `check_sum_3` for the entry `k`: a two-pointer
      search for the remaining sum `aux` that steps over index `k`. */
  function Search3(s: seq<int>, k: nat, aux: int, i: nat, j: nat, distinct: bool): (r: Option<(nat, nat)>)
    requires i <= |s| && j < |s|
    ensures r.Some? ==> r.value.0 < |s| && r.value.1 < |s|
    decreases |s| - i + j
  {
    if i >= |s| || j == 0 || (distinct && i >= j) then None
    else if i == k then Search3(s, k, aux, i + 1, j, distinct)
    else if j == k then Search3(s, k, aux, i, j - 1, distinct)
    else if s[i] + s[j] == aux then Some((i, j))
    else if s[i] + s[j] > aux then Search3(s, k, aux, i, j - 1, distinct)
    else Search3(s, k, aux, i + 1, j, distinct)
  }

  lemma {:induction false} Search3Sound(s: seq<int>, k: nat, aux: int, i: nat, j: nat, distinct: bool)
    requires i <= |s| && j < |s|
    ensures var r := Search3(s, k, aux, i, j, distinct);
      r.Some? ==> (r.value.0 < |s| && r.value.1 < |s| && r.value.0 != k && r.value.1 != k &&
        s[r.value.0] + s[r.value.1] == aux && (distinct ==> r.value.0 < r.value.1))
    decreases |s| - i + j
  {
    if i >= |s| || j == 0 || (distinct && i >= j) {
    } else if i == k {
      Search3Sound(s, k, aux, i + 1, j, distinct);
    } else if j == k || s[i] + s[j] > aux {
      if s[i] + s[j] != aux || j == k {
        Search3Sound(s, k, aux, i, j - 1, distinct);
      }
    } else if s[i] + s[j] != aux {
      Search3Sound(s, k, aux, i + 1, j, distinct);
    }
  }

  lemma {:induction false} Search3Complete(s: seq<int>, k: nat, aux: int, i: nat, j: nat, distinct: bool, p: nat, q: nat)
    requires Sorted(s) && i <= p < q <= j < |s| && p != k && q != k && s[p] + s[q] == aux
    ensures var r := Search3(s, k, aux, i, j, distinct);
      r.Some? && r.value.0 < r.value.1 < |s|
    decreases |s| - i + j
  {
    if i == k {
      Search3Complete(s, k, aux, i + 1, j, distinct, p, q);
    } else if j == k {
      Search3Complete(s, k, aux, i, j - 1, distinct, p, q);
    } else if s[i] + s[j] == aux {
    } else if s[i] + s[j] > aux {
      assert s[i] <= s[p];
      Search3Complete(s, k, aux, i, j - 1, distinct, p, q);
    } else {
      assert s[q] <= s[j];
      Search3Complete(s, k, aux, i + 1, j, distinct, p, q);
    }
  }

  /** The outer loop of `check_sum_3` from entry `k` on: the first entry
      whose inner search succeeds, with the pair found. */
  function Find3(s: seq<int>, target: int, k: nat, distinct: bool): (r: Option<(nat, nat, nat)>)
    ensures r.Some? ==> r.value.0 < |s| && r.value.1 < |s| && r.value.2 < |s|
    decreases |s| - k
  {
    if k >= |s| then None
    else match Search3(s, k, target - s[k], 0, |s| - 1, distinct)
      case Some((i, j)) => Some((k, i, j))
      case None => Find3(s, target, k + 1, distinct)
  }

  /** What `check_sum_3` returns for a search result. */
  function Values3(s: seq<int>, r: Option<(nat, nat, nat)>): (int, int, int)
    requires r.Some? ==> r.value.0 < |s| && r.value.1 < |s| && r.value.2 < |s|
  {
    match r
    case None => (-1, -1, -1)
    case Some((k, i, j)) => (s[k], s[i], s[j])
  }

  /** A triple found is three entries summing to the target, the fixed one
      at an index different from both others (which are different from each
      other too when `distinct`). */
  lemma {:induction false} Find3Sound(s: seq<int>, target: int, k: nat, distinct: bool)
    ensures var r := Find3(s, target, k, distinct);
      r.Some? ==> (r.value.0 != r.value.1 && r.value.0 != r.value.2 &&
        s[r.value.0] + s[r.value.1] + s[r.value.2] == target && (distinct ==> r.value.1 < r.value.2))
    decreases |s| - k
  {
    if k < |s| {
      Search3Sound(s, k, target - s[k], 0, |s| - 1, distinct);
      Find3Sound(s, target, k + 1, distinct);
    }
  }

  /** Three entries at distinct indices of a sorted report, the first at
      or after `k`, that sum to the target. */
  ghost predicate HasTriple(s: seq<int>, target: int, k: nat)
  {
    exists c, p, q :: k <= c < |s| && 0 <= p < q < |s| && c != p && c != q && s[c] + s[p] + s[q] == target
  }

  /** One turn of the outer loop. */
  lemma Find3Step(s: seq<int>, target: int, k: nat, distinct: bool)
    requires k < |s|
    ensures var r3 := Search3(s, k, target - s[k], 0, |s| - 1, distinct);
      Find3(s, target, k, distinct) == if r3.Some? then Some((k, r3.value.0, r3.value.1)) else Find3(s, target, k + 1, distinct)
  {
  }

  /** On a sorted report holding three entries at distinct indices with
      that sum, a triple is found, at three distinct indices when
      `distinct`. */
  lemma Find3Complete(s: seq<int>, target: int, k: nat, distinct: bool)
    requires Sorted(s) && HasTriple(s, target, k)
    ensures var r := Find3(s, target, k, distinct);
      r.Some? && (distinct ==> r.value.1 < r.value.2)
  {
    var c, p, q :| k <= c < |s| && 0 <= p < q < |s| && c != p && c != q && s[c] + s[p] + s[q] == target;
    Find3Reaches(s, target, k, distinct, c, p, q);
  }

  /** The outer loop reaches the entry `c` of a known triple, or stops
      earlier on another triple. */
  lemma {:induction false} Find3Reaches(s: seq<int>, target: int, k: nat, distinct: bool, c: nat, p: nat, q: nat)
    requires Sorted(s) && k <= c < |s| && p < q < |s| && c != p && c != q && s[c] + s[p] + s[q] == target
    ensures var r := Find3(s, target, k, distinct);
      r.Some? && (distinct ==> r.value.1 < r.value.2)
    decreases |s| - k
  {
    var aux := target - s[k];
    Find3Step(s, target, k, distinct);
    Search3Sound(s, k, aux, 0, |s| - 1, distinct);
    if c == k {
      Search3Complete(s, k, aux, 0, |s| - 1, distinct, p, q);
    } else if Search3(s, k, aux, 0, |s| - 1, distinct).None? {
      Find3Reaches(s, target, k + 1, distinct, c, p, q);
    }
  }

  /** `check_sum_3`: every entry `k` in turn, with an inner two-pointer
      search for `target - slice[k]` that skips index `k`. */
  method CheckSum3(slice: seq<int>, target: int, distinct: bool) returns (a: int, b: int, c: int)
    ensures (a, b, c) == Values3(slice, Find3(slice, target, 0, distinct))
  {
    var k := 0;
    while k < |slice|
      invariant k <= |slice|
      invariant Find3(slice, target, k, distinct) == Find3(slice, target, 0, distinct)
    {
      var aux := target - slice[k];
      var j: nat := |slice| - 1;
      var i: nat := 0;
      while true
        invariant i <= |slice| && j < |slice|
        invariant Search3(slice, k, aux, i, j, distinct) == Search3(slice, k, aux, 0, |slice| - 1, distinct)
        decreases |slice| - i + j
      {
        if i >= |slice| || j <= 0 || (distinct && i >= j) {
          break;
        }
        if i == k {
          i := i + 1;
        } else if j == k {
          j := j - 1;
        } else {
          var sum := slice[i] + slice[j];
          if sum == aux {
            return slice[k], slice[i], slice[j];
          } else if sum > aux {
            j := j - 1;
          } else {
            i := i + 1;
          }
        }
      }
      k := k + 1;
    }
    return -1, -1, -1;
  }

  /** The example report, sorted: 366, 675 and 979 sum to 2020, with
      product 241861950. */
  lemma ExampleThree()
    ensures Values3([299, 366, 675, 979, 1456, 1721], Find3([299, 366, 675, 979, 1456, 1721], 2020, 0, false)) == (366, 675, 979)
    ensures 366 * 675 * 979 == 241861950
  {
    var s := [299, 366, 675, 979, 1456, 1721];
    assert Search3(s, 0, 1721, 0, 5, false) == None;
    assert Search3(s, 1, 1654, 0, 5, false) == Some((2, 3));
  }

  /** The same flaw in `check_sum_3`: on `[10, 1005, 3000]` no three
      entries sum to 2020, yet 1005 is reported twice beside 10. */
  lemma SameEntryTwiceInTriple()
    ensures !exists p, q, r :: 0 <= p < q < r < 3 && [10, 1005, 3000][p] + [10, 1005, 3000][q] + [10, 1005, 3000][r] == 2020
    ensures Find3([10, 1005, 3000], 2020, 0, false) == Some((0, 1, 1))
    ensures Find3([10, 1005, 3000], 2020, 0, true) == None
  {
    var s := [10, 1005, 3000];
    assert Search3(s, 0, 2010, 0, 2, false) == Some((1, 1));
    assert Search3(s, 0, 2010, 0, 2, true) == None;
    assert Search3(s, 1, 1015, 0, 2, true) == None;
    assert Search3(s, 2, -980, 0, 2, true) == None;
  }
}
