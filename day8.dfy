/** The handheld boot code (day8/src/main.rs): a program of `nop`, `jmp`
    and `acc` instructions is run until some instruction is about to run a
    second time, and the accumulator is reported. */
module HandheldHalting {
  import opened Outcomes

  /** An instruction as `decode` returns it: an opcode (0 `nop`, 1 `jmp`,
      2 `acc`, 3 anything else) and a signed argument. */
  datatype Instr = Instr(op: int, arg: int)

  /** The machine state: program counter and accumulator. */
  datatype State = State(pc: int, acc: int)

  /** `decode`: the opcode of a mnemonic. */
  function Decode(mnemonic: string, arg: int): (i: Instr)
    ensures 0 <= i.op <= 3 && i.arg == arg
  {
    match mnemonic
    case "nop" => Instr(0, arg)
    case "jmp" => Instr(1, arg)
    case "acc" => Instr(2, arg)
    case _ => Instr(3, arg)
  }

  function Mnemonic(op: int): string
  {
    if op == 0 then "nop" else if op == 1 then "jmp" else if op == 2 then "acc" else "???"
  }

  /** Decoding inverts the mnemonic of the three known opcodes, and every
      other mnemonic decodes to the opcode that makes `run` panic. */
  lemma DecodeMnemonic(op: int, mnemonic: string, arg: int)
    ensures 0 <= op <= 2 ==> Decode(Mnemonic(op), arg) == Instr(op, arg)
    ensures Decode(mnemonic, arg).op == 3 <==> mnemonic !in {"nop", "jmp", "acc"}
    ensures Decode(mnemonic, arg).op != 3 ==> Mnemonic(Decode(mnemonic, arg).op) == mnemonic
  {
  }

  /** One turn of `run`'s loop: fetch at `pc` (a panic when out of bounds),
      execute, and index the checker at the new `pc` (a panic when out of
      bounds; a negative target wraps to a huge `usize`). */
  function Exec(rom: seq<Instr>, s: State): (r: Outcome<State>)
    ensures r.Done? ==> 0 <= r.value.pc < |rom|
  {
    if !(0 <= s.pc < |rom|) then Panic
    else
      var ins := rom[s.pc];
      var next :=
        if ins.op == 0 then Done(State(s.pc + 1, s.acc))
        else if ins.op == 1 then Done(State(s.pc + ins.arg, s.acc))
        else if ins.op == 2 then Done(State(s.pc + 1, s.acc + ins.arg))
        else Panic;
      if next.Done? && 0 <= next.value.pc < |rom| then next else Panic
  }

  /** Number of instructions not yet marked as run. */
  function Unmarked(marked: seq<bool>): (k: nat)
    ensures k <= |marked|
  {
    if marked == [] then 0 else Unmarked(marked[..|marked| - 1]) + (if marked[|marked| - 1] then 0 else 1)
  }

  lemma {:induction false} UnmarkedUpdate(marked: seq<bool>, i: int)
    requires 0 <= i < |marked| && !marked[i]
    ensures Unmarked(marked[i := true]) == Unmarked(marked) - 1
    decreases |marked|
  {
    var last := |marked| - 1;
    var m := marked[i := true];
    if i == last {
      assert m[..last] == marked[..last];
    } else {
      assert m[..last] == marked[..last][i := true];
      UnmarkedUpdate(marked[..last], i);
    }
  }

  /** The rest of `run` from state `s`, with the checker holding `marked`. */
  function RunFrom(rom: seq<Instr>, marked: seq<bool>, s: State): Outcome<int>
    requires |marked| == |rom|
    decreases Unmarked(marked)
  {
    match Exec(rom, s)
    case Panic => Panic
    case Done(t) =>
      if marked[t.pc] then Done(t.acc)
      else
        UnmarkedUpdate(marked, t.pc);
        RunFrom(rom, marked[t.pc := true], t)
  }

  /** The checker as `run` allocates it; `markEntry` also marks instruction
      0, which the source does not do. */
  function InitialMarks(n: nat, markEntry: bool): (m: seq<bool>)
    ensures |m| == n
  {
    seq(n, i => markEntry && i == 0)
  }

  /** `run` on a program, from `pc = 0`, `acc = 0`. */
  function RunProgram(rom: seq<Instr>, markEntry: bool): Outcome<int>
  {
    RunFrom(rom, InitialMarks(|rom|, markEntry), State(0, 0))
  }

  /** `run`: `markEntry == false` is the loop as written; `markEntry == true`
      marks instruction 0 before the loop. */
  method Run(rom: seq<Instr>, markEntry: bool) returns (r: Outcome<int>)
    ensures r == RunProgram(rom, markEntry)
  {
    var checker := new bool[|rom|](i => markEntry && i == 0);
    assert checker[..] == InitialMarks(|rom|, markEntry);
    var pc, acc := 0, 0;
    while true
      invariant checker.Length == |rom|
      invariant RunFrom(rom, checker[..], State(pc, acc)) == RunProgram(rom, markEntry)
      decreases Unmarked(checker[..])
    {
      ghost var s := State(pc, acc);
      if !(0 <= pc < |rom|) {
        return Panic;
      }
      var ins := rom[pc];
      if ins.op == 0 {
        pc := pc + 1;
      } else if ins.op == 1 {
        pc := pc + ins.arg;
      } else if ins.op == 2 {
        acc := acc + ins.arg;
        pc := pc + 1;
      } else {
        assert Exec(rom, s) == Panic;
        return Panic;
      }
      if !(0 <= pc < |rom|) {
        assert Exec(rom, s) == Panic;
        return Panic;
      }
      assert Exec(rom, s) == Done(State(pc, acc));
      if checker[pc] {
        return Done(acc);
      }
      ghost var before := checker[..];
      UnmarkedUpdate(before, pc);
      checker[pc] := true;
      assert checker[..] == before[pc := true];
    }
  }

  // ===== a reference semantics: the machine run step by step =====

  /** The state after `n` turns of the loop, without any checker. */
  function Iterate(rom: seq<Instr>, n: nat): Outcome<State>
  {
    if n == 0 then Done(State(0, 0))
    else
      match Iterate(rom, n - 1)
      case Panic => Panic
      case Done(s) => Exec(rom, s)
  }

  function PcAt(rom: seq<Instr>, n: nat): int
  {
    match Iterate(rom, n)
    case Panic => -1
    case Done(s) => s.pc
  }

  /** What the instruction at `p` adds to the accumulator. */
  function AccDelta(rom: seq<Instr>, p: int): int
  {
    if 0 <= p < |rom| && rom[p].op == 2 then rom[p].arg else 0
  }

  /** The `acc` arguments of the instructions run in the first `n` turns. */
  function AccSum(rom: seq<Instr>, n: nat): int
  {
    if n == 0 then 0 else AccSum(rom, n - 1) + AccDelta(rom, PcAt(rom, n - 1))
  }

  /** The accumulator is the sum of the arguments of the `acc` instructions
      run so far. */
  lemma {:induction false} AccumulatorIsSum(rom: seq<Instr>, n: nat)
    ensures Iterate(rom, n).Done? ==> Iterate(rom, n).value.acc == AccSum(rom, n)
  {
    if n > 0 {
      AccumulatorIsSum(rom, n - 1);
    }
  }

  /** Turns `lo..hi` run without a panic and visit pairwise distinct
      instructions. */
  ghost predicate Distinct(rom: seq<Instr>, lo: nat, hi: int)
  {
    (forall j: nat :: lo <= j <= hi ==> Iterate(rom, j).Done?) &&
    (forall i: nat, j: nat :: lo <= i < j <= hi ==> PcAt(rom, i) != PcAt(rom, j))
  }

  /** Turn `k` reaches an instruction already visited at one of the turns
      `lo..k-1`, which all differ, and the accumulator is then `a`. */
  ghost predicate FirstRepeat(rom: seq<Instr>, lo: nat, k: nat, a: int)
  {
    Iterate(rom, k).Done? && Iterate(rom, k).value.acc == a && Distinct(rom, lo, k - 1) &&
    exists j: nat :: lo <= j < k && PcAt(rom, j) == PcAt(rom, k)
  }

  /** What the checker holds after turn `n` when the turns from `lo` on left
      their marks. */
  ghost predicate MarksVisited(rom: seq<Instr>, marked: seq<bool>, lo: nat, n: nat)
    requires |marked| == |rom|
  {
    forall p :: 0 <= p < |rom| ==> (marked[p] <==> exists j: nat :: lo <= j <= n && PcAt(rom, j) == p)
  }

  lemma {:induction false} RunFromMeaning(rom: seq<Instr>, marked: seq<bool>, lo: nat, n: nat, a: int)
    requires |marked| == |rom| && lo <= n + 1
    requires Iterate(rom, n).Done? && Distinct(rom, lo, n) && MarksVisited(rom, marked, lo, n)
    ensures RunFrom(rom, marked, Iterate(rom, n).value) == Done(a) ==> exists k: nat :: k > n && FirstRepeat(rom, lo, k, a)
    ensures RunFrom(rom, marked, Iterate(rom, n).value) == Panic ==>
      exists k: nat :: k > n && Iterate(rom, k) == Panic && Distinct(rom, lo, k - 1)
    decreases Unmarked(marked)
  {
    var s := Iterate(rom, n).value;
    assert Iterate(rom, n + 1) == Exec(rom, s);
    match Exec(rom, s)
    case Panic =>
    case Done(t) =>
      assert PcAt(rom, n + 1) == t.pc;
      if marked[t.pc] {
        var j: nat :| lo <= j <= n && PcAt(rom, j) == t.pc;
        assert FirstRepeat(rom, lo, n + 1, t.acc);
      } else {
        var m := marked[t.pc := true];
        UnmarkedUpdate(marked, t.pc);
        DistinctStep(rom, lo, n);
        MarksStep(rom, marked, lo, n);
        RunFromMeaning(rom, m, lo, n + 1, a);
      }
  }

  /** A turn that reaches an unmarked instruction extends the distinct run. */
  lemma DistinctStep(rom: seq<Instr>, lo: nat, n: nat)
    requires Distinct(rom, lo, n) && Iterate(rom, n + 1).Done?
    requires forall j: nat :: lo <= j <= n ==> PcAt(rom, j) != PcAt(rom, n + 1)
    ensures Distinct(rom, lo, n + 1)
  {
  }

  /** Marking the instruction reached at turn `n + 1` records that turn. */
  lemma MarksStep(rom: seq<Instr>, marked: seq<bool>, lo: nat, n: nat)
    requires |marked| == |rom| && lo <= n + 1 && MarksVisited(rom, marked, lo, n)
    requires 0 <= PcAt(rom, n + 1) < |rom|
    ensures MarksVisited(rom, marked[PcAt(rom, n + 1) := true], lo, n + 1)
  {
    var q := PcAt(rom, n + 1);
    var m := marked[q := true];
    forall p | 0 <= p < |rom|
      ensures m[p] <==> exists j: nat :: lo <= j <= n + 1 && PcAt(rom, j) == p
    {
      if p == q {
        assert PcAt(rom, n + 1) == p;
      } else if m[p] {
        assert marked[p];
      }
    }
  }

  /** The meaning of `run` against the step-by-step machine: a result `a`
      is the accumulator at the first turn that reaches an instruction
      already visited; a panic comes before any such turn. The turns that
      count as visits start at 1 for the loop as written (instruction 0 is
      not marked before it runs) and at 0 when the entry is marked. */
  lemma RunProgramMeaning(rom: seq<Instr>, markEntry: bool, a: int)
    ensures var lo := if markEntry then 0 else 1;
      (RunProgram(rom, markEntry) == Done(a) ==> exists k: nat :: FirstRepeat(rom, lo, k, a)) &&
      (RunProgram(rom, markEntry) == Panic ==> exists k: nat :: Iterate(rom, k) == Panic && Distinct(rom, lo, k - 1))
  {
    var lo: nat := if markEntry then 0 else 1;
    var marked := InitialMarks(|rom|, markEntry);
    assert Iterate(rom, 0) == Done(State(0, 0));
    assert MarksVisited(rom, marked, lo, 0) by {
      forall p | 0 <= p < |rom|
        ensures marked[p] <==> exists j: nat :: lo <= j <= 0 && PcAt(rom, j) == p
      {
        if marked[p] {
          assert PcAt(rom, 0) == 0;
        }
      }
    }
    RunFromMeaning(rom, marked, lo, 0, a);
  }

  /** The program of the puzzle statement stops with 5 in the accumulator. */
  lemma ExampleProgram()
    ensures RunProgram([Instr(0, 0), Instr(2, 1), Instr(1, 4), Instr(2, 3), Instr(1, -3),
                        Instr(2, -99), Instr(2, 1), Instr(1, -4), Instr(2, 6)], false) == Done(5)
  {
    var rom := [Instr(0, 0), Instr(2, 1), Instr(1, 4), Instr(2, 3), Instr(1, -3),
                Instr(2, -99), Instr(2, 1), Instr(1, -4), Instr(2, 6)];
    var m0 := InitialMarks(9, false);
    assert m0 == [false, false, false, false, false, false, false, false, false];
    var m1 := m0[1 := true];
    var m2 := m1[2 := true];
    var m3 := m2[6 := true];
    var m4 := m3[7 := true];
    var m5 := m4[3 := true];
    var m6 := m5[4 := true];
    assert RunFrom(rom, m6, State(4, 5)) == Done(5);
    assert RunFrom(rom, m5, State(3, 2)) == Done(5);
    assert RunFrom(rom, m4, State(7, 2)) == Done(5);
    assert RunFrom(rom, m3, State(6, 1)) == Done(5);
    assert RunFrom(rom, m2, State(2, 1)) == Done(5);
    assert RunFrom(rom, m1, State(1, 0)) == Done(5);
    assert RunFrom(rom, m0, State(0, 0)) == Done(5);
  }

  /** `acc +1; jmp -1`: the accumulator is 1 just before instruction 0
      runs a second time, but the loop as written runs it once more and
      reports 2; marking the entry reports 1. */
  lemma EntryRunsTwice()
    ensures RunProgram([Instr(2, 1), Instr(1, -1)], false) == Done(2)
    ensures RunProgram([Instr(2, 1), Instr(1, -1)], true) == Done(1)
    ensures FirstRepeat([Instr(2, 1), Instr(1, -1)], 0, 2, 1)
  {
    var rom := [Instr(2, 1), Instr(1, -1)];
    var f := InitialMarks(2, false);
    assert f == [false, false];
    assert RunFrom(rom, [true, true], State(1, 2)) == Done(2);
    assert RunFrom(rom, [true, false], State(0, 1)) == Done(2);
    assert RunFrom(rom, [false, false][1 := true], State(1, 1)) == Done(2);
    var t := InitialMarks(2, true);
    assert t == [true, false];
    assert RunFrom(rom, [true, true], State(1, 1)) == Done(1);
    assert Iterate(rom, 1) == Done(State(1, 1));
    assert Iterate(rom, 2) == Done(State(0, 1));
    assert PcAt(rom, 0) == 0 && PcAt(rom, 1) == 1 && PcAt(rom, 2) == 0;
  }
}
