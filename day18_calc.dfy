/** The evaluator of the operation-order homework (day18/src/main.rs).
    Trees are built directly: the generated parser is not part of this model. */
module OperationOrder {
  import opened OperationOrderAst

  /** 2^128: the modulus of `u128`. */
  const U128: int := 0x1_0000_0000_0000_0000_0000_0000_0000_0000

  /** `n as u128` for a 32-bit literal: a negative value wraps around. */
  function LeafValue(n: int): (v: nat)
    ensures n >= 0 && n < U128 ==> v == n
    ensures -U128 <= n < 0 ==> v == n + U128
  {
    n % U128
  }

  /** Every literal of the tree is positive (and fits in `u128`). */
  predicate PositiveLiterals(e: Expr)
  {
    match e
    case Number(n) => 0 < n < U128
    case Op(l, _, r) => PositiveLiterals(l) && PositiveLiterals(r)
  }

  /** The largest literal of the tree. */
  function MaxLiteral(e: Expr): int
  {
    match e
    case Number(n) => n
    case Op(l, _, r) => if MaxLiteral(l) < MaxLiteral(r) then MaxLiteral(r) else MaxLiteral(l)
  }

  /** `calculate`: a bottom-up fold of the tree. Neither operator makes a
      positive operand smaller, so with positive literals the value is at
      least the largest of them. */
  function Calculate(e: Expr): (v: nat)
    ensures PositiveLiterals(e) ==> 1 <= MaxLiteral(e) <= v
  {
    match e
    case Number(n) => LeafValue(n)
    case Op(l, op, r) =>
      match op
      case Add => Calculate(l) + Calculate(r)
      case Mul =>
        ProductAtLeast(Calculate(l), Calculate(r));
        Calculate(l) * Calculate(r)
  }

  /** A product of two naturals is at least each factor once both are
      positive. */
  lemma ProductAtLeast(a: nat, b: nat)
    ensures 1 <= a && 1 <= b ==> a <= a * b && b <= a * b
  {
    if 1 <= a && 1 <= b {
      assert a * b == a * (b - 1) + a;
      assert a * b == (a - 1) * b + b;
    }
  }

  /** A non-negative literal evaluates to itself. */
  lemma CalculateLeaf(n: int)
    requires 0 <= n < 0x8000_0000
    ensures Calculate(Number(n)) == n
  {
  }

  /** An `Add` node is the sum and a `Mul` node the product of its children. */
  lemma CalculateOp(l: Expr, r: Expr)
    ensures Calculate(Op(l, Add, r)) == Calculate(l) + Calculate(r)
    ensures Calculate(Op(l, Mul, r)) == Calculate(l) * Calculate(r)
  {
  }

  function Apply(op: Opcode, a: int, b: int): int
  {
    if op == Add then a + b else a * b
  }

  /** The left-leaning chain `first op1 e1 op2 e2 ...`: each operator wraps
      everything to its left, as flat precedence groups it. */
  function LeftChain(first: Expr, rest: seq<(Opcode, Expr)>): Expr
    decreases |rest|
  {
    if rest == [] then first
    else Op(LeftChain(first, rest[..|rest| - 1]), rest[|rest| - 1].0, rest[|rest| - 1].1)
  }

  /** Strict left-to-right application of the operators to the operand
      values, regardless of which operator is which. */
  function LeftToRight(acc: int, rest: seq<(Opcode, Expr)>): int
    decreases |rest|
  {
    if rest == [] then acc
    else LeftToRight(Apply(rest[0].0, acc, Calculate(rest[0].1)), rest[1..])
  }

  lemma {:induction false} LeftToRightSnoc(acc: int, rest: seq<(Opcode, Expr)>, last: (Opcode, Expr))
    ensures LeftToRight(acc, rest + [last]) == Apply(last.0, LeftToRight(acc, rest), Calculate(last.1))
    decreases |rest|
  {
    if rest == [] {
      assert [] + [last] == [last];
      assert [last][1..] == [];
    } else {
      assert (rest + [last])[1..] == rest[1..] + [last];
      LeftToRightSnoc(Apply(rest[0].0, acc, Calculate(rest[0].1)), rest[1..], last);
    }
  }

  /** Evaluating a left-leaning chain applies its operators strictly left to
      right. */
  lemma {:induction false} LeftChainIsLeftToRight(first: Expr, rest: seq<(Opcode, Expr)>)
    ensures Calculate(LeftChain(first, rest)) == LeftToRight(Calculate(first), rest)
    decreases |rest|
  {
    if rest != [] {
      var init, last := rest[..|rest| - 1], rest[|rest| - 1];
      LeftChainIsLeftToRight(first, init);
      assert rest == init + [last];
      LeftToRightSnoc(Calculate(first), init, last);
    }
  }

  // ----- the homework examples, grouped strictly left to right -----

  function N(n: int): Expr
  {
    Number(n)
  }

  /** `1 + 2 * 3 + 4 * 5 + 6` */
  function Example1(): Expr
  {
    LeftChain(N(1), [(Add, N(2)), (Mul, N(3)), (Add, N(4)), (Mul, N(5)), (Add, N(6))])
  }

  /** `1 + (2 * 3) + (4 * (5 + 6))` */
  function Example2(): Expr
  {
    LeftChain(N(1), [(Add, Op(N(2), Mul, N(3))), (Add, Op(N(4), Mul, Op(N(5), Add, N(6))))])
  }

  /** `2 * 3 + (4 * 5)` */
  function Example3(): Expr
  {
    LeftChain(N(2), [(Mul, N(3)), (Add, Op(N(4), Mul, N(5)))])
  }

  /** `5 + (8 * 3 + 9 + 3 * 4 * 3)` */
  function Example4(): Expr
  {
    LeftChain(N(5), [(Add, LeftChain(N(8), [(Mul, N(3)), (Add, N(9)), (Add, N(3)), (Mul, N(4)), (Mul, N(3))]))])
  }

  /** `5 * 9 * (7 * 3 * 3 + 9 * 3 + (8 + 6 * 4))` */
  function Example5(): Expr
  {
    var inner := LeftChain(N(8), [(Add, N(6)), (Mul, N(4))]);
    LeftChain(N(5), [(Mul, N(9)), (Mul, LeftChain(N(7), [(Mul, N(3)), (Mul, N(3)), (Add, N(9)), (Mul, N(3)), (Add, inner)]))])
  }

  /** `((2 + 4 * 9) * (6 + 9 * 8 + 6) + 6) + 2 + 4 * 2` */
  function Example6(): Expr
  {
    var a := LeftChain(N(2), [(Add, N(4)), (Mul, N(9))]);
    var b := LeftChain(N(6), [(Add, N(9)), (Mul, N(8)), (Add, N(6))]);
    LeftChain(LeftChain(a, [(Mul, b), (Add, N(6))]), [(Add, N(2)), (Add, N(4)), (Mul, N(2))])
  }

  lemma Example1Value()
    ensures Calculate(Example1()) == 71
  {
    LeftChainIsLeftToRight(N(1), [(Add, N(2)), (Mul, N(3)), (Add, N(4)), (Mul, N(5)), (Add, N(6))]);
  }

  lemma Example2Value()
    ensures Calculate(Example2()) == 51
  {
    LeftChainIsLeftToRight(N(1), [(Add, Op(N(2), Mul, N(3))), (Add, Op(N(4), Mul, Op(N(5), Add, N(6))))]);
  }

  lemma Example3Value()
    ensures Calculate(Example3()) == 26
  {
    LeftChainIsLeftToRight(N(2), [(Mul, N(3)), (Add, Op(N(4), Mul, N(5)))]);
  }

  lemma Example4Value()
    ensures Calculate(Example4()) == 437
  {
    var inner := LeftChain(N(8), [(Mul, N(3)), (Add, N(9)), (Add, N(3)), (Mul, N(4)), (Mul, N(3))]);
    LeftChainIsLeftToRight(N(8), [(Mul, N(3)), (Add, N(9)), (Add, N(3)), (Mul, N(4)), (Mul, N(3))]);
    assert Calculate(inner) == 432;
    LeftChainIsLeftToRight(N(5), [(Add, inner)]);
  }

  lemma Example5Value()
    ensures Calculate(Example5()) == 12240
  {
    var inner := LeftChain(N(8), [(Add, N(6)), (Mul, N(4))]);
    LeftChainIsLeftToRight(N(8), [(Add, N(6)), (Mul, N(4))]);
    assert Calculate(inner) == 56;
    var mid := LeftChain(N(7), [(Mul, N(3)), (Mul, N(3)), (Add, N(9)), (Mul, N(3)), (Add, inner)]);
    LeftChainIsLeftToRight(N(7), [(Mul, N(3)), (Mul, N(3)), (Add, N(9)), (Mul, N(3)), (Add, inner)]);
    assert LeftToRight(216, [(Add, inner)]) == 272;
    assert LeftToRight(72, [(Mul, N(3)), (Add, inner)]) == 272;
    assert LeftToRight(63, [(Add, N(9)), (Mul, N(3)), (Add, inner)]) == 272;
    assert LeftToRight(21, [(Mul, N(3)), (Add, N(9)), (Mul, N(3)), (Add, inner)]) == 272;
    assert Calculate(mid) == 272;
    LeftChainIsLeftToRight(N(5), [(Mul, N(9)), (Mul, mid)]);
  }

  lemma Example6Value()
    ensures Calculate(Example6()) == 13632
  {
    var a := LeftChain(N(2), [(Add, N(4)), (Mul, N(9))]);
    LeftChainIsLeftToRight(N(2), [(Add, N(4)), (Mul, N(9))]);
    assert Calculate(a) == 54;
    var b := LeftChain(N(6), [(Add, N(9)), (Mul, N(8)), (Add, N(6))]);
    LeftChainIsLeftToRight(N(6), [(Add, N(9)), (Mul, N(8)), (Add, N(6))]);
    assert Calculate(b) == 126;
    var c := LeftChain(a, [(Mul, b), (Add, N(6))]);
    LeftChainIsLeftToRight(a, [(Mul, b), (Add, N(6))]);
    assert Calculate(c) == 6810;
    LeftChainIsLeftToRight(c, [(Add, N(2)), (Add, N(4)), (Mul, N(2))]);
  }

  lemma ExampleRendering()
    ensures Render(Example3()) == "((2 * 3) + (4 * 5))"
  {
    var rest := [(Mul, N(3)), (Add, Op(N(4), Mul, N(5)))];
    assert rest[..1] == [(Mul, N(3))];
    assert rest[..1][..0] == [];
    assert LeftChain(N(2), rest[..1]) == Op(N(2), Mul, N(3));
    assert Example3() == Op(Op(N(2), Mul, N(3)), Add, Op(N(4), Mul, N(5)));
    RenderSmallProduct(2, 3);
    RenderSmallProduct(4, 5);
    RenderOp(Op(N(2), Mul, N(3)), Add, Op(N(4), Mul, N(5)));
  }

  /** A product of two one-digit literals renders as `(a * b)`. */
  lemma RenderSmallProduct(a: nat, b: nat)
    requires a < 10 && b < 10
    ensures Render(Op(N(a), Mul, N(b))) == ['(', DigitChar(a), ' ', '*', ' ', DigitChar(b), ')']
  {
    assert NatText(a) == [DigitChar(a)] && NatText(b) == [DigitChar(b)];
    RenderOp(N(a), Mul, N(b));
  }

  /** The sum of the values of the homework lines. */
  function SumValues(lines: seq<Expr>): nat
  {
    if lines == [] then 0 else SumValues(lines[..|lines| - 1]) + Calculate(lines[|lines| - 1])
  }

  /** The loop at the end of `main`: the value of every line is added to
      the running total. */
  method Total(lines: seq<Expr>) returns (total: nat)
    ensures total == SumValues(lines)
  {
    total := 0;
    for i := 0 to |lines|
      invariant total == SumValues(lines[..i])
    {
      assert lines[..i + 1][..i] == lines[..i];
      total := total + Calculate(lines[i]);
    }
    assert lines[..|lines|] == lines;
  }

  /** The total of two batches of lines is the sum of their totals: the
      order in which lines are read only matters through their values. */
  lemma {:induction false} SumValuesConcat(a: seq<Expr>, b: seq<Expr>)
    ensures SumValues(a + b) == SumValues(a) + SumValues(b)
  {
    if b == [] {
      assert a + b == a;
    } else {
      SumValuesConcat(a, b[..|b| - 1]);
      assert (a + b)[..|a + b| - 1] == a + b[..|b| - 1];
    }
  }
}
