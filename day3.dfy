/** Toboggan trajectory (day3/src/main.rs): the map is a list of rows of
    `.` (open) and `#` (tree) that repeat to the right; going down a slope
    from the top-left corner, count the trees met, for five slopes, and
    multiply the counts. */
module TobogganTrajectory {
  import opened Outcomes
  import opened Counting

  /** Row `n` is looked at on the slope `right`/`down` when it is a
      multiple of `down` rows below the top. */
  predicate Checked(n: nat, down: nat)
    requires down >= 1
  {
    n % down == 0
  }

  /** The column looked at in row `n`, before wrapping around the row:
      `right` places for every `down` rows. */
  function Place(n: nat, right: nat, down: nat): nat
    requires down >= 1
  {
    n / down * right
  }

  /** Row `n` is looked at and holds a tree where the slope crosses it
      (the map repeats, so the column wraps around the row's length). */
  predicate Hit(input: seq<string>, right: nat, down: nat, n: nat)
    requires down >= 1 && n < |input|
  {
    Checked(n, down) && |input[n]| > 0 && input[n][Place(n, right, down) % |input[n]|] == '#'
  }

  /** The number of trees met in the first `n` rows. */
  function Trees(input: seq<string>, right: nat, down: nat, n: nat): nat
    requires down >= 1 && n <= |input|
  {
    if n == 0 then 0 else Trees(input, right, down, n - 1) + (if Hit(input, right, down, n - 1) then 1 else 0)
  }

  /** The rows with a tree on the slope. */
  ghost function HitRows(input: seq<string>, right: nat, down: nat, n: nat): set<nat>
    requires down >= 1 && n <= |input|
  {
    set k: nat | k < n && Hit(input, right, down, k)
  }

  /** The rows looked at on the slope. */
  ghost function CheckedRows(n: nat, down: nat): set<nat>
    requires down >= 1
  {
    set k: nat | k < n && Checked(k, down)
  }

  /** The count is the number of rows that hold a tree where the slope
      crosses them. */
  lemma {:induction false} TreesCount(input: seq<string>, right: nat, down: nat, n: nat)
    requires down >= 1 && n <= |input|
    ensures Trees(input, right, down, n) == |HitRows(input, right, down, n)|
  {
    if n > 0 {
      TreesCount(input, right, down, n - 1);
      var last := n - 1;
      if Hit(input, right, down, last) {
        assert HitRows(input, right, down, n) == HitRows(input, right, down, last) + {last};
      } else {
        assert HitRows(input, right, down, n) == HitRows(input, right, down, last);
      }
    }
  }

  /** Only rows looked at can hold a tree on the slope, so the count is at
      most the number of rows looked at, itself at most the number of
      rows. */
  lemma TreesBound(input: seq<string>, right: nat, down: nat, n: nat)
    requires down >= 1 && n <= |input|
    ensures HitRows(input, right, down, n) <= CheckedRows(n, down)
    ensures Trees(input, right, down, n) <= |CheckedRows(n, down)| <= n
  {
    TreesCount(input, right, down, n);
    SubsetSize(HitRows(input, right, down, n), CheckedRows(n, down));
    RangeSize(CheckedRows(n, down), n);
  }

  lemma {:induction false} RangeSize(s: set<nat>, n: nat)
    requires forall k :: k in s ==> k < n
    ensures |s| <= n
  {
    if n > 0 {
      RangeSize(s - {n - 1}, n - 1);
    } else {
      assert s == {};
    }
  }

  /** A row looked at that is empty makes `place % line.len()` divide by
      zero. */
  predicate EmptyChecked(input: seq<string>, down: nat)
    requires down >= 1
  {
    exists n :: 0 <= n < |input| && Checked(n, down) && |input[n]| == 0
  }

  /** One of the five loops of `main`: `lineno` counts the rows, and a row
      that is looked at adds one to `count` when it holds a tree at
      `place % line.len()`. */
  method CountTrees(input: seq<string>, right: nat, down: nat) returns (o: Outcome<nat>)
    requires down == 1 || (down == 2 && right == 1)
    ensures o.Panic? <==> EmptyChecked(input, down)
    ensures o.Done? ==> o.value == Trees(input, right, down, |input|)
  {
    var count := 0;
    var lineno := 0;
    while lineno < |input|
      invariant lineno <= |input|
      invariant count == Trees(input, right, down, lineno)
      invariant forall n :: 0 <= n < lineno && Checked(n, down) ==> |input[n]| > 0
    {
      var line := input[lineno];
      if lineno % down == 0 {
        var place := if down == 1 then lineno * right else lineno / 2;
        assert place == Place(lineno, right, down);
        if |line| == 0 {
          return Panic;
        }
        if line[place % |line|] == '#' {
          count := count + 1;
        }
      }
      lineno := lineno + 1;
    }
    o := Done(count);
  }

  /** The answer: the product of the counts for right 3, 1, 5 and 7 down 1
      and for right 1 down 2, in the order `main` multiplies them. */
  function Product(input: seq<string>): nat
  {
    Trees(input, 3, 1, |input|) * Trees(input, 1, 1, |input|) * Trees(input, 5, 1, |input|) *
    Trees(input, 7, 1, |input|) * Trees(input, 1, 2, |input|)
  }

  /** Every row is looked at on a slope going down by one, so when no
      such slope panics, neither does any other. */
  lemma EveryRowChecked(input: seq<string>)
    requires !EmptyChecked(input, 1)
    ensures forall n :: 0 <= n < |input| ==> |input[n]| > 0
    ensures !EmptyChecked(input, 2)
  {
    forall n | 0 <= n < |input|
      ensures |input[n]| > 0
    {
      assert Checked(n, 1);
    }
  }

  lemma ProductIs(input: seq<string>, c31: nat, c11: nat, c51: nat, c71: nat, c12: nat)
    requires c31 == Trees(input, 3, 1, |input|) && c11 == Trees(input, 1, 1, |input|)
    requires c51 == Trees(input, 5, 1, |input|) && c71 == Trees(input, 7, 1, |input|)
    requires c12 == Trees(input, 1, 2, |input|)
    ensures Product(input) == 1 * c31 * c11 * c51 * c71 * c12
  {
  }

  /** `main`: the first loop reads the map (every row is looked at, so an
      empty row panics), then the four other slopes are counted over the
      stored rows, and `total` multiplies the five counts. */
  method Slopes(input: seq<string>) returns (o: Outcome<nat>)
    ensures o.Panic? <==> exists n :: 0 <= n < |input| && |input[n]| == 0
    ensures o.Done? ==> o.value == Product(input)
  {
    var total: int := 1;
    var c := CountTrees(input, 3, 1);
    if c.Panic? {
      return Panic;
    }
    total := total * c.value;
    var c11 := CountTrees(input, 1, 1);
    var c51 := CountTrees(input, 5, 1);
    var c71 := CountTrees(input, 7, 1);
    var c12 := CountTrees(input, 1, 2);
    EveryRowChecked(input);
    assert c11.Done? && c51.Done? && c71.Done? && c12.Done?;
    total := total * c11.value;
    total := total * c51.value;
    total := total * c71.value;
    total := total * c12.value;
    ProductIs(input, c.value, c11.value, c51.value, c71.value, c12.value);
    o := Done(total);
  }

  /** The map of the puzzle statement. */
  predicate ExampleMap(m: seq<string>)
  {
    |m| == 11 &&
    m[0] == "..##......." &&
    m[1] == "#...#...#.." &&
    m[2] == ".#....#..#." &&
    m[3] == "..#.#...#.#" &&
    m[4] == ".#...##..#." &&
    m[5] == "..#.##....." &&
    m[6] == ".#.#.#....#" &&
    m[7] == ".#........#" &&
    m[8] == "#.##...#..." &&
    m[9] == "#...##....#" &&
    m[10] == ".#..#...#.#"
  }

  lemma ExampleRight3Down1(m: seq<string>)
    requires ExampleMap(m)
    ensures Trees(m, 3, 1, 11) == 7
  {
    assert Trees(m, 3, 1, 1) == 0;
    assert Trees(m, 3, 1, 2) == 0;
    assert Trees(m, 3, 1, 3) == 1;
    assert Trees(m, 3, 1, 4) == 1;
    assert Trees(m, 3, 1, 5) == 2;
    assert Trees(m, 3, 1, 6) == 3;
    assert Trees(m, 3, 1, 7) == 3;
    assert Trees(m, 3, 1, 8) == 4;
    assert Trees(m, 3, 1, 9) == 5;
    assert Trees(m, 3, 1, 10) == 6;
    assert Trees(m, 3, 1, 11) == 7;
  }

  lemma ExampleRight1Down1(m: seq<string>)
    requires ExampleMap(m)
    ensures Trees(m, 1, 1, 11) == 2
  {
    assert Trees(m, 1, 1, 1) == 0;
    assert Trees(m, 1, 1, 2) == 0;
    assert Trees(m, 1, 1, 3) == 0;
    assert Trees(m, 1, 1, 4) == 0;
    assert Trees(m, 1, 1, 5) == 0;
    assert Trees(m, 1, 1, 6) == 1;
    assert Trees(m, 1, 1, 7) == 1;
    assert Trees(m, 1, 1, 8) == 1;
    assert Trees(m, 1, 1, 9) == 1;
    assert Trees(m, 1, 1, 10) == 1;
    assert Trees(m, 1, 1, 11) == 2;
  }

  lemma ExampleRight5Down1(m: seq<string>)
    requires ExampleMap(m)
    ensures Trees(m, 5, 1, 11) == 3
  {
    assert Trees(m, 5, 1, 1) == 0;
    assert Trees(m, 5, 1, 2) == 0;
    assert Trees(m, 5, 1, 3) == 0;
    assert Trees(m, 5, 1, 4) == 1;
    assert Trees(m, 5, 1, 5) == 2;
    assert Trees(m, 5, 1, 6) == 2;
    assert Trees(m, 5, 1, 7) == 2;
    assert Trees(m, 5, 1, 8) == 2;
    assert Trees(m, 5, 1, 9) == 3;
    assert Trees(m, 5, 1, 10) == 3;
    assert Trees(m, 5, 1, 11) == 3;
  }

  lemma ExampleRight7Down1(m: seq<string>)
    requires ExampleMap(m)
    ensures Trees(m, 7, 1, 11) == 4
  {
    assert Trees(m, 7, 1, 1) == 0;
    assert Trees(m, 7, 1, 2) == 0;
    assert Trees(m, 7, 1, 3) == 0;
    assert Trees(m, 7, 1, 4) == 1;
    assert Trees(m, 7, 1, 5) == 2;
    assert Trees(m, 7, 1, 6) == 3;
    assert Trees(m, 7, 1, 7) == 3;
    assert Trees(m, 7, 1, 8) == 3;
    assert Trees(m, 7, 1, 9) == 3;
    assert Trees(m, 7, 1, 10) == 3;
    assert Trees(m, 7, 1, 11) == 4;
  }

  lemma ExampleRight1Down2(m: seq<string>)
    requires ExampleMap(m)
    ensures Trees(m, 1, 2, 11) == 2
  {
    assert Trees(m, 1, 2, 1) == 0;
    assert Trees(m, 1, 2, 2) == 0;
    assert Trees(m, 1, 2, 3) == 1;
    assert Trees(m, 1, 2, 4) == 1;
    assert Trees(m, 1, 2, 5) == 1;
    assert Trees(m, 1, 2, 6) == 1;
    assert Trees(m, 1, 2, 7) == 2;
    assert Trees(m, 1, 2, 8) == 2;
    assert Trees(m, 1, 2, 9) == 2;
    assert Trees(m, 1, 2, 10) == 2;
    assert Trees(m, 1, 2, 11) == 2;
  }

  /** The example map meets 7 trees on right 3 down 1, and 2, 7, 3, 4
      and 2 on the five slopes, whose product is 336. */
  lemma Example(m: seq<string>)
    requires ExampleMap(m)
    ensures Trees(m, 3, 1, |m|) == 7
    ensures Trees(m, 1, 1, |m|) == 2 && Trees(m, 5, 1, |m|) == 3
    ensures Trees(m, 7, 1, |m|) == 4 && Trees(m, 1, 2, |m|) == 2
    ensures Product(m) == 336
  {
    ExampleRight3Down1(m);
    ExampleRight1Down1(m);
    ExampleRight5Down1(m);
    ExampleRight7Down1(m);
    ExampleRight1Down2(m);
  }
}
