/** Seating system (day11/src/main.rs): a grid of floor (0), empty (1) and
    occupied (2) seats, updated in rounds in which every seat looks at its
    eight neighbours in the grid as it was before the round. */
module SeatingSystem {
  import opened Outcomes

  // ===== encoding =====

  /** Reading a character of the map: `.` is floor, `L` an empty seat, and
      any other character an occupied seat. */
  function Encode(c: char): (v: int)
    ensures 0 <= v <= 2
    ensures v == 0 <==> c == '.'
    ensures v == 1 <==> c == 'L'
  {
    match c
    case '.' => 0
    case 'L' => 1
    case _ => 2
  }

  predicate Rectangular(g: seq<seq<int>>)
  {
    forall i :: 0 <= i < |g| ==> |g[i]| == |g[0]|
  }

  /** Every cell holds one of the three encodings. */
  predicate Cells(g: seq<seq<int>>)
  {
    forall i, j :: 0 <= i < |g| && 0 <= j < |g[i]| ==> 0 <= g[i][j] <= 2
  }

  /** The map as read from its lines, one row per line. */
  function EncodeMap(lines: seq<string>): (g: seq<seq<int>>)
    ensures |g| == |lines|
    ensures forall i :: 0 <= i < |g| ==> |g[i]| == |lines[i]|
    ensures forall i, j :: 0 <= i < |g| && 0 <= j < |g[i]| ==> (g[i][j] == 0 <==> lines[i][j] == '.')
    ensures Cells(g)
  {
    seq(|lines|, i requires 0 <= i < |lines| =>
      seq(|lines[i]|, j requires 0 <= j < |lines[i]| => Encode(lines[i][j])))
  }

  // ===== neighbours =====

  /** The cell `(r, c)` is inside the first `m` columns of the grid and
      occupied. */
  predicate Occupied(g: seq<seq<int>>, m: int, r: int, c: int)
  {
    0 <= r < |g| && 0 <= c < m && c < |g[r]| && g[r][c] == 2
  }

  predicate Around(i: int, j: int, r: int, c: int)
  {
    i - 1 <= r <= i + 2 && j - 1 <= c <= j + 2
  }

  /** The occupied cells other than `(i, j)` among those around it from
      `(r, c)` onwards, in the order of the two nested loops; a column that
      has run past carries over to the next row. */
  function CountFrom(g: seq<seq<int>>, m: int, i: int, j: int, r: int, c: int): nat
    requires Around(i, j, r, c)
    decreases i + 2 - r, j + 2 - c
  {
    if r == i + 2 then 0
    else if c == j + 2 then CountFrom(g, m, i, j, r + 1, j - 1)
    else (if (r != i || c != j) && Occupied(g, m, r, c) then 1 else 0) + CountFrom(g, m, i, j, r, c + 1)
  }

  /** The number of occupied cells among the eight around `(i, j)` that lie
      in the `|g|` rows and the first `m` columns. */
  function NeighbourCount(g: seq<seq<int>>, m: int, i: int, j: int): nat
  {
    CountFrom(g, m, i, j, i - 1, j - 1)
  }

  /** `neighbours`: two nested loops over the offsets, each bounds-checked
      against `n` rows and `m` columns. No row may be shorter than `m`. */
  method Neighbours(i: int, j: int, n: int, m: int, input: seq<seq<int>>) returns (count: nat)
    requires n == |input|
    requires forall r :: 0 <= r < |input| ==> m <= |input[r]|
    ensures count == NeighbourCount(input, m, i, j)
  {
    count := 0;
    for k := -1 to 2
      invariant count + CountFrom(input, m, i, j, i + k, j - 1) == NeighbourCount(input, m, i, j)
    {
      for l := -1 to 2
        invariant count + CountFrom(input, m, i, j, i + k, j + l) == NeighbourCount(input, m, i, j)
      {
        if (k, l) != (0, 0) {
          if i + k >= 0 && i + k < n {
            if j + l >= 0 && j + l < m {
              if input[i + k][j + l] == 2 {
                count := count + 1;
              }
            }
          }
        }
      }
    }
  }

  /** The position of `(r, c)` in the visiting order around `(i, j)`; the
      centre is at position 4 of 9. */
  function Position(i: int, j: int, r: int, c: int): int
  {
    3 * (r - i + 1) + (c - j + 1)
  }

  lemma {:induction false} CountFromBound(g: seq<seq<int>>, m: int, i: int, j: int, r: int, c: int)
    requires Around(i, j, r, c)
    requires r == i + 2 ==> c == j - 1
    ensures CountFrom(g, m, i, j, r, c) <= 9 - Position(i, j, r, c) - (if Position(i, j, r, c) <= 4 then 1 else 0)
    decreases i + 2 - r, j + 2 - c
  {
    if r == i + 2 {
    } else if c == j + 2 {
      CountFromBound(g, m, i, j, r + 1, j - 1);
    } else {
      CountFromBound(g, m, i, j, r, c + 1);
    }
  }

  /** At most eight neighbours: the centre is never counted. */
  lemma NeighbourBound(g: seq<seq<int>>, m: int, i: int, j: int)
    ensures NeighbourCount(g, m, i, j) <= 8
  {
    CountFromBound(g, m, i, j, i - 1, j - 1);
  }

  lemma {:induction false} CountFromIgnoresCentre(g: seq<seq<int>>, m: int, i: int, j: int, r: int, c: int, v: int)
    requires Around(i, j, r, c)
    requires 0 <= i < |g| && 0 <= j < |g[i]|
    ensures CountFrom(g[i := g[i][j := v]], m, i, j, r, c) == CountFrom(g, m, i, j, r, c)
    decreases i + 2 - r, j + 2 - c
  {
    if r == i + 2 {
    } else if c == j + 2 {
      CountFromIgnoresCentre(g, m, i, j, r + 1, j - 1, v);
    } else {
      CountFromIgnoresCentre(g, m, i, j, r, c + 1, v);
    }
  }

  /** The cell itself does not take part in its own count. */
  lemma NeighbourCountIgnoresCentre(g: seq<seq<int>>, m: int, i: int, j: int, v: int)
    requires 0 <= i < |g| && 0 <= j < |g[i]|
    ensures NeighbourCount(g[i := g[i][j := v]], m, i, j) == NeighbourCount(g, m, i, j)
  {
    CountFromIgnoresCentre(g, m, i, j, i - 1, j - 1, v);
  }

  // ===== one round =====

  predicate SameShape(g: seq<seq<int>>, h: seq<seq<int>>)
  {
    |g| == |h| && forall i :: 0 <= i < |g| ==> |g[i]| == |h[i]|
  }


  /** An empty seat with no occupied neighbour becomes occupied, an
      occupied seat with four or more becomes empty, and every other cell
      (floor in particular) stays as it is. */
  function NextCell(v: int, count: nat): int
  {
    if v == 1 && count == 0 then 2
    else if v == 2 && count >= 4 then 1
    else v
  }

  function NextRow(g: seq<seq<int>>, i: int): (r: seq<int>)
    requires 0 <= i < |g|
    ensures |r| == |g[i]|
  {
    seq(|g[i]|, j requires 0 <= j < |g[i]| => NextCell(g[i][j], NeighbourCount(g, |g[i]|, i, j)))
  }

  /** The grid after one round, every cell decided on `g`. */
  function NextGrid(g: seq<seq<int>>): seq<seq<int>>
  {
    seq(|g|, i requires 0 <= i < |g| => NextRow(g, i))
  }

  /** A round keeps the shape of the grid, never changes floor, and keeps a
      grid of the three encodings one. */
  lemma NextGridKeeps(g: seq<seq<int>>)
    ensures SameShape(g, NextGrid(g))
    ensures Rectangular(g) ==> Rectangular(NextGrid(g))
    ensures forall i, j :: 0 <= i < |g| && 0 <= j < |g[i]| && g[i][j] == 0 ==> NextGrid(g)[i][j] == 0
    ensures Cells(g) ==> Cells(NextGrid(g))
  {
  }

  /** The number of cells of `s` equal to `v`. */
  function Count(s: seq<int>, v: int): nat
  {
    if s == [] then 0 else Count(s[..|s| - 1], v) + (if s[|s| - 1] == v then 1 else 0)
  }

  function CountGrid(g: seq<seq<int>>, v: int): nat
  {
    if g == [] then 0 else CountGrid(g[..|g| - 1], v) + Count(g[|g| - 1], v)
  }

  /** The number of positions where `a` and `b` differ. */
  function Diffs(a: seq<int>, b: seq<int>): nat
    requires |a| == |b|
  {
    if a == [] then 0 else Diffs(a[..|a| - 1], b[..|b| - 1]) + (if a[|a| - 1] != b[|b| - 1] then 1 else 0)
  }

  function GridDiffs(g: seq<seq<int>>, h: seq<seq<int>>): nat
    requires SameShape(g, h)
  {
    if g == [] then 0 else GridDiffs(g[..|g| - 1], h[..|h| - 1]) + Diffs(g[|g| - 1], h[|h| - 1])
  }

  lemma {:induction false} DiffsZero(a: seq<int>, b: seq<int>)
    requires |a| == |b|
    ensures Diffs(a, b) == 0 <==> a == b
  {
    if a != [] {
      DiffsZero(a[..|a| - 1], b[..|b| - 1]);
      if a[..|a| - 1] == b[..|b| - 1] && a[|a| - 1] == b[|b| - 1] {
        assert a == a[..|a| - 1] + [a[|a| - 1]];
        assert b == b[..|b| - 1] + [b[|b| - 1]];
      }
    }
  }

  /** No cell differs exactly when the two grids are equal. */
  lemma {:induction false} GridDiffsZero(g: seq<seq<int>>, h: seq<seq<int>>)
    requires SameShape(g, h)
    ensures GridDiffs(g, h) == 0 <==> g == h
  {
    if g != [] {
      GridDiffsZero(g[..|g| - 1], h[..|h| - 1]);
      DiffsZero(g[|g| - 1], h[|h| - 1]);
      if g[..|g| - 1] == h[..|h| - 1] && g[|g| - 1] == h[|h| - 1] {
        assert g == g[..|g| - 1] + [g[|g| - 1]];
        assert h == h[..|h| - 1] + [h[|h| - 1]];
      }
    }
  }

  /** Deciding cell `j` of a row: the row now agrees with the new row one
      cell further, and the counts of changes and of occupied seats grow by
      that cell's share. */
  lemma CellStep(a: seq<int>, b: seq<int>, j: int)
    requires |a| == |b| && 0 <= j < |a|
    ensures (b[..j] + a[j..])[j := b[j]] == b[..j + 1] + a[j + 1..]
    ensures Diffs(a[..j + 1], b[..j + 1]) == Diffs(a[..j], b[..j]) + (if a[j] != b[j] then 1 else 0)
    ensures Count(b[..j + 1], 2) == Count(b[..j], 2) + (if b[j] == 2 then 1 else 0)
  {
    assert a[..j + 1] == a[..j] + [a[j]];
    assert b[..j + 1] == b[..j] + [b[j]];
    DiffsSnoc(a[..j], b[..j], a[j], b[j]);
    CountSnoc(b[..j], b[j], 2);
  }

  lemma CountSnoc(s: seq<int>, x: int, v: int)
    ensures Count(s + [x], v) == Count(s, v) + (if x == v then 1 else 0)
  {
    assert (s + [x])[..|s|] == s;
  }

  lemma DiffsSnoc(a: seq<int>, b: seq<int>, x: int, y: int)
    requires |a| == |b|
    ensures Diffs(a + [x], b + [y]) == Diffs(a, b) + (if x != y then 1 else 0)
  {
    assert (a + [x])[..|a|] == a;
    assert (b + [y])[..|b|] == b;
  }

  /** Deciding row `i` of a grid: the grid now agrees with the new grid one
      row further, and the counts grow by that row's share. */
  lemma RowStep(g: seq<seq<int>>, h: seq<seq<int>>, i: int)
    requires SameShape(g, h) && 0 <= i < |g|
    ensures (h[..i] + g[i..])[i := h[i]] == h[..i + 1] + g[i + 1..]
    ensures SameShape(g[..i], h[..i]) && SameShape(g[..i + 1], h[..i + 1])
    ensures GridDiffs(g[..i + 1], h[..i + 1]) == GridDiffs(g[..i], h[..i]) + Diffs(g[i], h[i])
    ensures CountGrid(h[..i + 1], 2) == CountGrid(h[..i], 2) + Count(h[i], 2)
  {
    assert g[..i + 1] == g[..i] + [g[i]];
    assert h[..i + 1] == h[..i] + [h[i]];
    GridSnoc(g[..i], h[..i], g[i], h[i], 2);
  }

  lemma GridSnoc(g: seq<seq<int>>, h: seq<seq<int>>, row: seq<int>, next: seq<int>, v: int)
    requires SameShape(g, h) && |row| == |next|
    ensures CountGrid(h + [next], v) == CountGrid(h, v) + Count(next, v)
    ensures SameShape(g + [row], h + [next])
    ensures GridDiffs(g + [row], h + [next]) == GridDiffs(g, h) + Diffs(row, next)
  {
    assert (h + [next])[..|h|] == h;
    assert (g + [row])[..|g|] == g;
  }

  /** A round reads only the grid before it: replacing a cell changes the
      decision for that cell only through its own value, never through
      its count. */
  lemma NextCellIgnoresOwnWrite(g: seq<seq<int>>, i: int, j: int, v: int)
    requires 0 <= i < |g| && 0 <= j < |g[i]|
    ensures NextGrid(g[i := g[i][j := v]])[i][j] == NextCell(v, NeighbourCount(g, |g[i]|, i, j))
  {
    NeighbourCountIgnoresCentre(g, |g[i]|, i, j, v);
  }

  /** Row `i` of a round: each cell of the row is decided on the grid
      `oldInput` taken before the round; `changes` counts the cells of the
      row that changed and `occupied` its occupied seats afterwards. */
  method RoundRow(oldInput: seq<seq<int>>, i: int) returns (row: seq<int>, changes: nat, occupied: nat)
    requires Rectangular(oldInput) && 0 <= i < |oldInput|
    ensures row == NextRow(oldInput, i)
    ensures changes == Diffs(oldInput[i], row)
    ensures occupied == Count(row, 2)
  {
    changes, occupied := 0, 0;
    row := oldInput[i];
    ghost var target := NextRow(oldInput, i);
    for j := 0 to |oldInput[i]|
      invariant row == target[..j] + oldInput[i][j..]
      invariant changes == Diffs(oldInput[i][..j], target[..j])
      invariant occupied == Count(target[..j], 2)
    {
      var cell := oldInput[i][j];
      var c := Neighbours(i, j, |oldInput|, |oldInput[i]|, oldInput);
      ghost var before := row;
      if cell == 1 {
        if c == 0 {
          row := row[j := 2];
          occupied := occupied + 1;
          changes := changes + 1;
        }
      } else if cell == 2 {
        if c >= 4 {
          row := row[j := 1];
          changes := changes + 1;
        } else {
          occupied := occupied + 1;
        }
      }
      assert target[j] == NextCell(cell, c);
      assert row == before[j := target[j]];
      CellStep(oldInput[i], target, j);
    }
    assert target[..|target|] + oldInput[i][|target|..] == target;
    assert oldInput[i][..|target|] == oldInput[i];
    assert target[..|target|] == target;
  }

  /** The body of the loop in `main` for one round: every cell is decided on
      a copy of the grid taken before the round and written into the grid;
      `changes` counts the cells that changed and `occupied` the occupied
      seats after the round. */
  method Round(input: seq<seq<int>>) returns (next: seq<seq<int>>, changes: nat, occupied: nat)
    requires Rectangular(input)
    ensures next == NextGrid(input)
    ensures changes == GridDiffs(input, next)
    ensures occupied == CountGrid(next, 2)
  {
    changes, occupied := 0, 0;
    var oldInput := input;
    next := input;
    ghost var target := NextGrid(oldInput);
    for i := 0 to |next|
      invariant next == target[..i] + oldInput[i..]
      invariant changes == GridDiffs(oldInput[..i], target[..i])
      invariant occupied == CountGrid(target[..i], 2)
    {
      var row, rowChanges, rowOccupied := RoundRow(oldInput, i);
      next := next[i := row];
      changes := changes + rowChanges;
      occupied := occupied + rowOccupied;
      RowStep(oldInput, target, i);
    }
    assert oldInput[..|oldInput|] == oldInput;
    assert target[..|target|] == target;
    assert target[..|target|] + oldInput[|target|..] == target;
  }

  /** `changes == 0` ends the outer loop exactly when the round left the
      grid as it was. */
  lemma StableIffNoChanges(g: seq<seq<int>>)
    ensures SameShape(g, NextGrid(g))
    ensures GridDiffs(g, NextGrid(g)) == 0 <==> NextGrid(g) == g
  {
    GridDiffsZero(g, NextGrid(g));
  }

  // ===== the rounds until nothing changes =====

  /** The grid after `k` rounds. */
  function Rounds(g: seq<seq<int>>, k: nat): seq<seq<int>>
  {
    if k == 0 then g else NextGrid(Rounds(g, k - 1))
  }

  /** A round leaves the grid as it was. */
  predicate Stable(g: seq<seq<int>>)
  {
    NextGrid(g) == g
  }

  /** Round `k` is the first one that changes nothing. */
  predicate FirstStable(g: seq<seq<int>>, k: nat)
  {
    Stable(Rounds(g, k)) && NoneStable(g, k)
  }

  /** None of the first `k` rounds changes nothing. */
  predicate NoneStable(g: seq<seq<int>>, k: nat)
  {
    forall j :: 0 <= j < k ==> !Stable(Rounds(g, j))
  }

  lemma NoneStableStep(g: seq<seq<int>>, k: nat)
    requires NoneStable(g, k) && !Stable(Rounds(g, k))
    ensures NoneStable(g, k + 1)
  {
  }

  /** Every round keeps the grid rectangular. */
  lemma {:induction false} RoundsRectangular(g: seq<seq<int>>, k: nat)
    requires Rectangular(g)
    ensures Rectangular(Rounds(g, k))
  {
    if k > 0 {
      RoundsRectangular(g, k - 1);
      NextGridKeeps(Rounds(g, k - 1));
    }
  }

  /** Once a round changes nothing, no later round does. */
  lemma {:induction false} StableStays(g: seq<seq<int>>, k: nat, j: nat)
    requires Stable(Rounds(g, k)) && k <= j
    ensures Rounds(g, j) == Rounds(g, k)
    decreases j - k
  {
    if j > k {
      StableStays(g, k, j - 1);
    }
  }

  /** The outer loop of `main`: rounds are run until one changes nothing,
      and then its occupied seats are the answer. The source loops for ever
      on a grid that never settles; `fuel` bounds the rounds run here, and
      `None` says that none of them settled. */
  method Settle(input: seq<seq<int>>, fuel: nat) returns (r: Option<nat>)
    requires Rectangular(input)
    ensures r.None? ==> NoneStable(input, fuel)
    ensures r.Some? ==> exists k :: 0 <= k < fuel && FirstStable(input, k) && r.value == CountGrid(Rounds(input, k), 2)
  {
    var grid := input;
    var k := 0;
    while k < fuel
      invariant k <= fuel && grid == Rounds(input, k) && Rectangular(grid)
      invariant NoneStable(input, k)
    {
      var next, changes, occupied := Round(grid);
      if changes == 0 {
        assert FirstStable(input, k) by {
          StableIffNoChanges(grid);
        }
        return Some(occupied);
      }
      assert NoneStable(input, k + 1) by {
        StableIffNoChanges(grid);
        NoneStableStep(input, k);
      }
      assert next == Rounds(input, k + 1);
      RoundsRectangular(input, k + 1);
      grid := next;
      k := k + 1;
    }
    r := None;
  }

  /** A block of four empty seats fills up in the first round ... */
  lemma ExampleBlockFills()
    ensures NextGrid([[1, 1], [1, 1]]) == [[2, 2], [2, 2]]
  {
    var e: seq<seq<int>> := [[1, 1], [1, 1]];
    assert NeighbourCount(e, 2, 0, 0) == 0 && NeighbourCount(e, 2, 0, 1) == 0;
    assert NeighbourCount(e, 2, 1, 0) == 0 && NeighbourCount(e, 2, 1, 1) == 0;
    assert NextRow(e, 0) == [2, 2];
    assert NextRow(e, 1) == [2, 2];
  }

  /** ... and then stays as it is, every seat seeing three occupied
      neighbours, with four seats occupied. */
  lemma ExampleBlockStable()
    ensures NextGrid([[2, 2], [2, 2]]) == [[2, 2], [2, 2]]
    ensures CountGrid([[2, 2], [2, 2]], 2) == 4
  {
    var f: seq<seq<int>> := [[2, 2], [2, 2]];
    assert NeighbourCount(f, 2, 0, 0) == 3 && NeighbourCount(f, 2, 0, 1) == 3;
    assert NeighbourCount(f, 2, 1, 0) == 3 && NeighbourCount(f, 2, 1, 1) == 3;
    assert NextRow(f, 0) == [2, 2] && NextRow(f, 1) == [2, 2];
    assert [2, 2][..1] == [2] && |[2][..0]| == 0;
    assert Count([2, 2], 2) == 2;
    assert f[..1] == [[2, 2]] && |f[..1][..0]| == 0;
  }
}
