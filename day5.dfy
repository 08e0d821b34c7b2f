/** Binary boarding (day5/src/main.rs): a boarding pass names its row with
    seven `F`/`B` characters and its column with three `L`/`R` characters,
    read as binary numbers; the seat ID is `row * 8 + col`, and the answer
    is the largest ID on the list. */
module BinaryBoarding {
  import opened Outcomes

  function Pow2(n: nat): (p: nat)
    ensures p >= 1
  {
    if n == 0 then 1 else 2 * Pow2(n - 1)
  }

  // ===== the reference: binary value and halving =====

  /** The characters of `s` that are `a` or `b`, in order. */
  function Only(s: string, a: char, b: char): (r: string)
    ensures |r| <= |s|
  {
    if s == [] then []
    else Only(s[..|s| - 1], a, b) + (if s[|s| - 1] == a || s[|s| - 1] == b then [s[|s| - 1]] else [])
  }

  /** `s` read as a binary number, most significant digit first, `one`
      standing for 1 and anything else for 0. */
  function Bits(s: string, one: char): nat
  {
    if s == [] then 0 else 2 * Bits(s[..|s| - 1], one) + (if s[|s| - 1] == one then 1 else 0)
  }

  lemma {:induction false} BitsBound(s: string, one: char)
    ensures Bits(s, one) < Pow2(|s|)
  {
    if s != [] {
      BitsBound(s[..|s| - 1], one);
    }
  }

  lemma {:induction false} BitsCons(s: string, one: char)
    requires s != []
    ensures Bits(s, one) == (if s[0] == one then Pow2(|s| - 1) else 0) + Bits(s[1..], one)
  {
    if |s| > 1 {
      BitsCons(s[..|s| - 1], one);
      assert s[..|s| - 1][1..] == s[1..][..|s| - 2];
    } else {
      assert s[1..] == [];
    }
  }

  /** The procedure of the puzzle: start with the `size` rows (or columns)
      from `lo`, and let every character keep the upper half (`upper`) or
      the lower half (anything else). */
  function Halve(s: string, upper: char, lo: nat, size: nat): nat
  {
    if s == [] then lo
    else Halve(s[1..], upper, if s[0] == upper then lo + size / 2 else lo, size / 2)
  }

  /** Halving a range of `2^|s|` seats is reading `s` as a binary number. */
  lemma {:induction false} HalvingIsBinary(s: string, upper: char, lo: nat)
    ensures Halve(s, upper, lo, Pow2(|s|)) == lo + Bits(s, upper)
  {
    if s != [] {
      BitsCons(s, upper);
      HalvingIsBinary(s[1..], upper, if s[0] == upper then lo + Pow2(|s|) / 2 else lo);
    }
  }

  // ===== one boarding pass =====

  predicate KnownChars(line: string)
  {
    forall k :: 0 <= k < |line| ==> line[k] in "FBLR"
  }

  /** What the loop over a line yields: a panic on a character other than
      `F`, `B`, `L`, `R`, or on an eighth row character or a fourth column
      character (a shift by a negative amount); otherwise the row and column
      characters read as binary numbers, each placed at the top of its
      seven or three bits. */
  function Pass(line: string): Outcome<(nat, nat)>
  {
    var rows := Only(line, 'F', 'B');
    var cols := Only(line, 'L', 'R');
    if !KnownChars(line) || |rows| > 7 || |cols| > 3 then Panic
    else Done((Bits(rows, 'B') * Pow2(7 - |rows|), Bits(cols, 'R') * Pow2(3 - |cols|)))
  }

  /** Appending a digit to the bits read so far, placed at bit `i`. */
  lemma BitsStep(s: string, c: char, one: char, i: nat)
    ensures Bits(s + [c], one) * Pow2(i) == Bits(s, one) * Pow2(i + 1) + (if c == one then Pow2(i) else 0)
  {
    assert (s + [c])[..|s|] == s;
    calc {
      Bits(s + [c], one) * Pow2(i);
      (2 * Bits(s, one) + (if c == one then 1 else 0)) * Pow2(i);
      Bits(s, one) * (2 * Pow2(i)) + (if c == one then Pow2(i) else 0);
    }
  }

  /** Filtering one more character appends it when it is kept. */
  lemma OnlySnoc(s: string, c: char, a: char, b: char)
    ensures Only(s + [c], a, b) == Only(s, a, b) + (if c == a || c == b then [c] else [])
  {
    assert (s + [c])[..|s|] == s;
  }

  /** What the characters of `s` have done to the loop's state: the bit
      positions `row_i` and `col_i` have moved down once per row and column
      character, and the bits read sit at the top of the row and column
      numbers. */
  ghost predicate Decoded(s: string, rowI: int, rowB: nat, colI: int, colB: nat)
  {
    KnownChars(s) &&
    rowI == 6 - |Only(s, 'F', 'B')| >= -1 &&
    colI == 2 - |Only(s, 'L', 'R')| >= -1 &&
    rowB == Bits(Only(s, 'F', 'B'), 'B') * Pow2(rowI + 1) &&
    colB == Bits(Only(s, 'L', 'R'), 'R') * Pow2(colI + 1)
  }

  /** One step of the loop: `B` sets the bit at `row_i` and `F` leaves it
      clear, both moving down a bit, and a shift by a negative `row_i`
      panics; `R` and `L` do the same for the column; any other character
      panics. */
  function Advance(st: (int, nat, int, nat), c: char): Outcome<(int, nat, int, nat)>
  {
    var (rowI, rowB, colI, colB) := st;
    if c == 'F' || c == 'B' then
      if rowI < 0 then Panic
      else Done((rowI - 1, rowB + (if c == 'B' then Pow2(rowI) else 0), colI, colB))
    else if c == 'L' || c == 'R' then
      if colI < 0 then Panic
      else Done((rowI, rowB, colI - 1, colB + (if c == 'R' then Pow2(colI) else 0)))
    else Panic
  }

  /** The state `(row_i, row_b, col_i, col_b)` of the loop after the
      characters of `s`. */
  function Scan(s: string): Outcome<(int, nat, int, nat)>
  {
    if s == [] then Done((6, 0, 2, 0))
    else
      match Scan(s[..|s| - 1])
      case Panic => Panic
      case Done(st) => Advance(st, s[|s| - 1])
  }

  lemma KnownSnoc(s: string, c: char)
    ensures KnownChars(s + [c]) <==> KnownChars(s) && c in "FBLR"
  {
    assert forall k :: 0 <= k < |s| ==> (s + [c])[k] == s[k];
    assert (s + [c])[|s|] == c;
  }

  /** One row character with a bit still free to set. */
  lemma RowStep(s: string, c: char, rowI: int, rowB: nat, colI: int, colB: nat)
    requires (c == 'F' || c == 'B') && rowI >= 0
    requires Decoded(s, rowI, rowB, colI, colB)
    ensures Decoded(s + [c], rowI - 1, rowB + (if c == 'B' then Pow2(rowI) else 0), colI, colB)
  {
    KnownSnoc(s, c);
    OnlySnoc(s, c, 'F', 'B');
    OnlySnoc(s, c, 'L', 'R');
    BitsStep(Only(s, 'F', 'B'), c, 'B', rowI);
    assert Only(s, 'L', 'R') + [] == Only(s, 'L', 'R');
  }

  /** One column character with a bit still free to set. */
  lemma ColStep(s: string, c: char, rowI: int, rowB: nat, colI: int, colB: nat)
    requires (c == 'L' || c == 'R') && colI >= 0
    requires Decoded(s, rowI, rowB, colI, colB)
    ensures Decoded(s + [c], rowI, rowB, colI - 1, colB + (if c == 'R' then Pow2(colI) else 0))
  {
    KnownSnoc(s, c);
    OnlySnoc(s, c, 'F', 'B');
    OnlySnoc(s, c, 'L', 'R');
    BitsStep(Only(s, 'L', 'R'), c, 'R', colI);
    assert Only(s, 'F', 'B') + [] == Only(s, 'F', 'B');
  }

  /** A state reached by reading `s` is the one `Pass` describes. */
  lemma DecodedIsPass(s: string, rowI: int, rowB: nat, colI: int, colB: nat)
    requires Decoded(s, rowI, rowB, colI, colB)
    ensures Pass(s) == Done((rowB, colB))
  {
  }

  /** Appending a character to a line that panics still panics. */
  lemma PanicSnoc(s: string, c: char)
    requires Pass(s).Panic?
    ensures Pass(s + [c]).Panic?
  {
    KnownSnoc(s, c);
    OnlySnoc(s, c, 'F', 'B');
    OnlySnoc(s, c, 'L', 'R');
  }

  /** A step of the loop that panics: the character is unknown, or it is
      the eighth row or fourth column character. */
  lemma StepPanics(s: string, c: char, rowI: int, rowB: nat, colI: int, colB: nat)
    requires Decoded(s, rowI, rowB, colI, colB) && Advance((rowI, rowB, colI, colB), c).Panic?
    ensures Pass(s + [c]).Panic?
  {
    KnownSnoc(s, c);
    OnlySnoc(s, c, 'F', 'B');
    OnlySnoc(s, c, 'L', 'R');
  }

  /** The loop computes `Pass`: it panics exactly when `Pass` does, and
      otherwise its state holds the bits `Pass` reads. */
  lemma {:induction false} ScanIsPass(s: string)
    ensures Scan(s).Panic? <==> Pass(s).Panic?
    ensures Scan(s).Done? ==> Decoded(s, Scan(s).value.0, Scan(s).value.1, Scan(s).value.2, Scan(s).value.3)
  {
    if s != [] {
      var front, c := s[..|s| - 1], s[|s| - 1];
      assert s == front + [c];
      ScanIsPass(front);
      match Scan(front)
      case Panic =>
        PanicSnoc(front, c);
      case Done(st) =>
        var (rowI, rowB, colI, colB) := st;
        if Advance(st, c).Panic? {
          StepPanics(front, c, rowI, rowB, colI, colB);
        } else {
          if c == 'F' || c == 'B' {
            RowStep(front, c, rowI, rowB, colI, colB);
          } else {
            ColStep(front, c, rowI, rowB, colI, colB);
          }
          var v := Scan(s).value;
          DecodedIsPass(s, v.0, v.1, v.2, v.3);
        }
    }
  }

  /** Once a prefix of the line panics, the whole line does. */
  lemma {:induction false} PanicSticks(line: string, t: nat)
    requires t <= |line| && Scan(line[..t]).Panic?
    ensures Scan(line).Panic?
    decreases |line| - t
  {
    if t < |line| {
      assert line[..t + 1][..t] == line[..t];
      PanicSticks(line, t + 1);
    } else {
      assert line[..t] == line;
    }
  }

  /** The loop over the characters of a line, one arm per character. */
  method DecodePass(line: string) returns (o: Outcome<(nat, nat)>)
    ensures o == Pass(line)
  {
    var rowI: int := 6;
    var rowB: nat := 0;
    var colI: int := 2;
    var colB: nat := 0;
    assert line[..0] == [];
    for t := 0 to |line|
      invariant Scan(line[..t]) == Done((rowI, rowB, colI, colB))
    {
      assert line[..t + 1][..t] == line[..t];
      match line[t]
      case 'F' =>
        if rowI < 0 {
          PanicSticks(line, t + 1);
          ScanIsPass(line);
          return Panic;
        }
        rowI := rowI - 1;
      case 'B' =>
        if rowI < 0 {
          PanicSticks(line, t + 1);
          ScanIsPass(line);
          return Panic;
        }
        rowB := rowB + Pow2(rowI);
        rowI := rowI - 1;
      case 'R' =>
        if colI < 0 {
          PanicSticks(line, t + 1);
          ScanIsPass(line);
          return Panic;
        }
        colB := colB + Pow2(colI);
        colI := colI - 1;
      case 'L' =>
        if colI < 0 {
          PanicSticks(line, t + 1);
          ScanIsPass(line);
          return Panic;
        }
        colI := colI - 1;
      case _ =>
        PanicSticks(line, t + 1);
        ScanIsPass(line);
        return Panic;
    }
    assert line[..|line|] == line;
    ScanIsPass(line);
    o := Done((rowB, colB));
  }

  /** A well-formed pass, seven row characters and three column
      characters, decodes to the row and column the halving procedure
      finds, a row in 0..127 and a column in 0..7. */
  lemma PassIsHalving(line: string)
    requires KnownChars(line) && |Only(line, 'F', 'B')| == 7 && |Only(line, 'L', 'R')| == 3
    ensures Pass(line).Done?
    ensures Pass(line).value == (Halve(Only(line, 'F', 'B'), 'B', 0, 128), Halve(Only(line, 'L', 'R'), 'R', 0, 8))
    ensures Pass(line).value.0 < 128 && Pass(line).value.1 < 8
  {
    HalvingIsBinary(Only(line, 'F', 'B'), 'B', 0);
    HalvingIsBinary(Only(line, 'L', 'R'), 'R', 0);
    BitsBound(Only(line, 'F', 'B'), 'B');
    BitsBound(Only(line, 'L', 'R'), 'R');
  }

  /** Any pass that decodes at all gives a row below 128 and a column
      below 8. */
  lemma PassBounds(line: string)
    requires Pass(line).Done?
    ensures Pass(line).value.0 < 128 && Pass(line).value.1 < 8
  {
    var rows := Only(line, 'F', 'B');
    var cols := Only(line, 'L', 'R');
    BitsBound(rows, 'B');
    BitsBound(cols, 'R');
    ScaledBound(Bits(rows, 'B'), |rows|, 7);
    ScaledBound(Bits(cols, 'R'), |cols|, 3);
    assert Pow2(7) == 128 && Pow2(3) == 8;
  }

  /** A number of `n` bits moved up to the top of `m` bits stays below
      `2^m`. */
  lemma ScaledBound(x: nat, n: nat, m: nat)
    requires x < Pow2(n) && n <= m
    ensures x * Pow2(m - n) < Pow2(m)
  {
    Pow2Add(n, m - n);
    var p := Pow2(m - n);
    assert x * p <= (Pow2(n) - 1) * p by {
      MulMonotone(x, Pow2(n) - 1, p);
    }
  }

  lemma MulMonotone(a: nat, b: nat, c: nat)
    requires a <= b
    ensures a * c <= b * c
  {
  }

  lemma {:induction false} Pow2Add(a: nat, b: nat)
    ensures Pow2(a) * Pow2(b) == Pow2(a + b)
  {
    if a > 0 {
      Pow2Add(a - 1, b);
    }
  }

  // ===== seat IDs =====

  /** `get_seat_id`. Row and column can be read back from the ID. */
  function SeatId(row: nat, col: nat): (id: nat)
    ensures col < 8 ==> id / 8 == row && id % 8 == col
    ensures row < 128 && col < 8 ==> id < 1024
  {
    row * 8 + col
  }

  lemma {:induction false} OnlyConcat(x: string, y: string, a: char, b: char)
    ensures Only(x + y, a, b) == Only(x, a, b) + Only(y, a, b)
    decreases |y|
  {
    if y == [] {
      assert x + y == x;
    } else {
      var y' := y[..|y| - 1];
      assert x + y == (x + y') + [y[|y| - 1]];
      OnlySnoc(x + y', y[|y| - 1], a, b);
      OnlySnoc(y', y[|y| - 1], a, b);
      assert y == y' + [y[|y| - 1]];
      OnlyConcat(x, y', a, b);
    }
  }

  /** Filtering keeps every character when all are `a` or `b`. */
  lemma {:induction false} OnlyAll(s: string, a: char, b: char)
    requires forall k :: 0 <= k < |s| ==> s[k] == a || s[k] == b
    ensures Only(s, a, b) == s
  {
    if s != [] {
      var front := s[..|s| - 1];
      assert forall k :: 0 <= k < |front| ==> front[k] == s[k];
      OnlyAll(front, a, b);
      assert front + [s[|s| - 1]] == s;
    }
  }

  /** Filtering keeps nothing when no character is `a` or `b`. */
  lemma {:induction false} OnlyNone(s: string, a: char, b: char)
    requires forall k :: 0 <= k < |s| ==> s[k] != a && s[k] != b
    ensures Only(s, a, b) == []
  {
    if s != [] {
      var front := s[..|s| - 1];
      assert forall k :: 0 <= k < |front| ==> front[k] == s[k];
      OnlyNone(front, a, b);
    }
  }

  /** The rows and columns of a pass of the documented shape, seven
      `F`/`B` characters followed by three `L`/`R` characters. */
  lemma WellFormedParts(rows: string, cols: string)
    requires |rows| == 7 && forall k :: 0 <= k < 7 ==> rows[k] == 'F' || rows[k] == 'B'
    requires |cols| == 3 && forall k :: 0 <= k < 3 ==> cols[k] == 'L' || cols[k] == 'R'
    ensures KnownChars(rows + cols)
    ensures Only(rows + cols, 'F', 'B') == rows && Only(rows + cols, 'L', 'R') == cols
  {
    OnlyConcat(rows, cols, 'F', 'B');
    OnlyConcat(rows, cols, 'L', 'R');
    OnlyAll(rows, 'F', 'B');
    OnlyNone(rows, 'L', 'R');
    OnlyNone(cols, 'F', 'B');
    OnlyAll(cols, 'L', 'R');
    var line := rows + cols;
    forall k | 0 <= k < |line|
      ensures line[k] in "FBLR"
    {
      if k < 7 {
        assert line[k] == rows[k];
      } else {
        assert line[k] == cols[k - 7];
      }
    }
  }

  /** A pass of the documented shape decodes to its two parts read as
      binary numbers, a row below 128 and a column below 8. */
  lemma WellFormedPass(rows: string, cols: string)
    requires |rows| == 7 && forall k :: 0 <= k < 7 ==> rows[k] == 'F' || rows[k] == 'B'
    requires |cols| == 3 && forall k :: 0 <= k < 3 ==> cols[k] == 'L' || cols[k] == 'R'
    ensures Pass(rows + cols) == Done((Bits(rows, 'B'), Bits(cols, 'R')))
    ensures Bits(rows, 'B') < 128 && Bits(cols, 'R') < 8
  {
    WellFormedParts(rows, cols);
    BitsBound(rows, 'B');
    BitsBound(cols, 'R');
    assert Pow2(0) == 1 && Pow2(3) == 8 && Pow2(7) == 128;
  }

  /** The example passes of the puzzle statement. */
  lemma Example1()
    ensures Pass("FBFBBFFRLR") == Done((44, 5)) && SeatId(44, 5) == 357
  {
    assert "FBFBBFFRLR" == "FBFBBFF" + "RLR";
    WellFormedPass("FBFBBFF", "RLR");
    assert Bits("F", 'B') == 0;
    assert "FB"[..1] == "F";
    assert Bits("FB", 'B') == 1;
    assert "FBF"[..2] == "FB";
    assert Bits("FBF", 'B') == 2;
    assert "FBFB"[..3] == "FBF";
    assert Bits("FBFB", 'B') == 5;
    assert "FBFBB"[..4] == "FBFB";
    assert Bits("FBFBB", 'B') == 11;
    assert "FBFBBF"[..5] == "FBFBB";
    assert Bits("FBFBBF", 'B') == 22;
    assert "FBFBBFF"[..6] == "FBFBBF";
    assert Bits("FBFBBFF", 'B') == 44;
    assert Bits("R", 'R') == 1;
    assert "RL"[..1] == "R";
    assert Bits("RL", 'R') == 2;
    assert "RLR"[..2] == "RL";
    assert Bits("RLR", 'R') == 5;
  }

  lemma Example2()
    ensures Pass("BFFFBBFRRR") == Done((70, 7)) && SeatId(70, 7) == 567
  {
    assert "BFFFBBFRRR" == "BFFFBBF" + "RRR";
    WellFormedPass("BFFFBBF", "RRR");
    assert Bits("B", 'B') == 1;
    assert "BF"[..1] == "B";
    assert Bits("BF", 'B') == 2;
    assert "BFF"[..2] == "BF";
    assert Bits("BFF", 'B') == 4;
    assert "BFFF"[..3] == "BFF";
    assert Bits("BFFF", 'B') == 8;
    assert "BFFFB"[..4] == "BFFF";
    assert Bits("BFFFB", 'B') == 17;
    assert "BFFFBB"[..5] == "BFFFB";
    assert Bits("BFFFBB", 'B') == 35;
    assert "BFFFBBF"[..6] == "BFFFBB";
    assert Bits("BFFFBBF", 'B') == 70;
    assert Bits("R", 'R') == 1;
    assert "RR"[..1] == "R";
    assert Bits("RR", 'R') == 3;
    assert "RRR"[..2] == "RR";
    assert Bits("RRR", 'R') == 7;
  }

  lemma Example3()
    ensures Pass("FFFBBBFRRR") == Done((14, 7)) && SeatId(14, 7) == 119
  {
    assert "FFFBBBFRRR" == "FFFBBBF" + "RRR";
    WellFormedPass("FFFBBBF", "RRR");
    assert Bits("F", 'B') == 0;
    assert "FF"[..1] == "F";
    assert Bits("FF", 'B') == 0;
    assert "FFF"[..2] == "FF";
    assert Bits("FFF", 'B') == 0;
    assert "FFFB"[..3] == "FFF";
    assert Bits("FFFB", 'B') == 1;
    assert "FFFBB"[..4] == "FFFB";
    assert Bits("FFFBB", 'B') == 3;
    assert "FFFBBB"[..5] == "FFFBB";
    assert Bits("FFFBBB", 'B') == 7;
    assert "FFFBBBF"[..6] == "FFFBBB";
    assert Bits("FFFBBBF", 'B') == 14;
    assert Bits("R", 'R') == 1;
    assert "RR"[..1] == "R";
    assert Bits("RR", 'R') == 3;
    assert "RRR"[..2] == "RR";
    assert Bits("RRR", 'R') == 7;
  }

  lemma Example4()
    ensures Pass("BBFFBBFRLL") == Done((102, 4)) && SeatId(102, 4) == 820
  {
    assert "BBFFBBFRLL" == "BBFFBBF" + "RLL";
    WellFormedPass("BBFFBBF", "RLL");
    assert Bits("B", 'B') == 1;
    assert "BB"[..1] == "B";
    assert Bits("BB", 'B') == 3;
    assert "BBF"[..2] == "BB";
    assert Bits("BBF", 'B') == 6;
    assert "BBFF"[..3] == "BBF";
    assert Bits("BBFF", 'B') == 12;
    assert "BBFFB"[..4] == "BBFF";
    assert Bits("BBFFB", 'B') == 25;
    assert "BBFFBB"[..5] == "BBFFB";
    assert Bits("BBFFBB", 'B') == 51;
    assert "BBFFBBF"[..6] == "BBFFBB";
    assert Bits("BBFFBBF", 'B') == 102;
    assert Bits("R", 'R') == 1;
    assert "RL"[..1] == "R";
    assert Bits("RL", 'R') == 2;
    assert "RLL"[..2] == "RL";
    assert Bits("RLL", 'R') == 4;
  }

  /** The seat ID of a pass that decodes. */
  function PassId(line: string): nat
    requires Pass(line).Done?
  {
    SeatId(Pass(line).value.0, Pass(line).value.1)
  }

  /** The loop in `main`: every line is decoded (a panic stops the
      program) and the largest seat ID is kept, starting from 0. */
  method MaxSeatId(lines: seq<string>) returns (o: Outcome<nat>)
    ensures o.Panic? <==> exists k :: 0 <= k < |lines| && Pass(lines[k]).Panic?
    ensures o.Done? ==> forall k :: 0 <= k < |lines| ==> PassId(lines[k]) <= o.value
    ensures o.Done? && o.value != 0 ==> exists k :: 0 <= k < |lines| && PassId(lines[k]) == o.value
  {
    var max := 0;
    for k := 0 to |lines|
      invariant forall q :: 0 <= q < k ==> Pass(lines[q]).Done? && PassId(lines[q]) <= max
      invariant max != 0 ==> exists q :: 0 <= q < k && Pass(lines[q]).Done? && PassId(lines[q]) == max
    {
      var pass := DecodePass(lines[k]);
      if pass.Panic? {
        return Panic;
      }
      var seatId := SeatId(pass.value.0, pass.value.1);
      if seatId > max {
        max := seatId;
      }
    }
    o := Done(max);
  }
}
