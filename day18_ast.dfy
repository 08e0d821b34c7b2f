/** The expression tree of the operation-order homework and its
    fully parenthesised debug rendering (day18/src/ast.rs). */
module OperationOrderAst {
  import opened Counting

  datatype Opcode = Add | Mul

  /** A leaf holds a 32-bit signed literal; an `Op` node owns exactly two
      sub-expressions. */
  datatype Expr = Number(n: int) | Op(left: Expr, op: Opcode, right: Expr)

  /** The `Debug` text of an operator. */
  function OpcodeText(op: Opcode): (s: string)
    ensures op == Add ==> s == "+"
    ensures op == Mul ==> s == "*"
  {
    match op
    case Mul => "*"
    case Add => "+"
  }

  function DigitChar(d: nat): (c: char)
    requires d < 10
    ensures '0' <= c <= '9'
  {
    ('0' as int + d) as char
  }

  function DigitValue(c: char): nat
  {
    if '0' <= c <= '9' then (c - '0') as nat else 0
  }

  /** Decimal digits of a natural number, most significant first. */
  function NatText(n: nat): (s: string)
    ensures |s| > 0 && '0' <= s[0] <= '9' && '0' <= s[|s| - 1] <= '9'
  {
    if n < 10 then [DigitChar(n)] else NatText(n / 10) + [DigitChar(n % 10)]
  }

  /** The `{:?}` text of an `i32`: a minus sign for negative values. */
  function IntText(n: int): (s: string)
    ensures |s| > 0 && (s[0] == '-' || '0' <= s[0] <= '9') && '0' <= s[|s| - 1] <= '9'
  {
    if n < 0 then "-" + NatText(-n) else NatText(n)
  }

  /** Reads back a string of decimal digits. */
  function ParseNat(s: string): nat
  {
    if s == [] then 0 else ParseNat(s[..|s| - 1]) * 10 + DigitValue(s[|s| - 1])
  }

  /** Reads back an optionally negated string of decimal digits. */
  function ParseInt(s: string): int
  {
    if |s| > 0 && s[0] == '-' then -(ParseNat(s[1..]) as int) else ParseNat(s)
  }

  predicate AllDigits(s: string)
  {
    forall i :: 0 <= i < |s| ==> '0' <= s[i] <= '9'
  }

  /** The `Debug` rendering: a leaf prints its literal, a node prints
      `(left op right)`. The first and the last character tell a node
      from a leaf. */
  function Render(e: Expr): (r: string)
    ensures |r| > 0
    ensures r[0] == '(' <==> e.Op?
    ensures r[|r| - 1] == ')' <==> e.Op?
  {
    match e
    case Number(n) => IntText(n)
    case Op(l, op, r) => "(" + Render(l) + " " + OpcodeText(op) + " " + Render(r) + ")"
  }

  function OpCount(e: Expr): nat
  {
    match e
    case Number(_) => 0
    case Op(l, _, r) => OpCount(l) + 1 + OpCount(r)
  }

  function LeafCount(e: Expr): nat
  {
    match e
    case Number(_) => 1
    case Op(l, _, r) => LeafCount(l) + LeafCount(r)
  }

  /** Open minus closed parentheses. */
  function Depth(s: string): int
  {
    Occurrences(s, '(') - Occurrences(s, ')')
  }

  /** Every prefix closes no more parentheses than it opened, and the whole
      string closes all it opened. */
  predicate Balanced(s: string)
  {
    Depth(s) == 0 && forall k :: 0 <= k <= |s| ==> Depth(s[..k]) >= 0
  }

  // ----- the digits of a literal -----

  lemma {:induction false} NatTextDigits(n: nat)
    ensures |NatText(n)| > 0 && AllDigits(NatText(n))
  {
    if n >= 10 {
      NatTextDigits(n / 10);
    }
  }

  /** A literal's text reads back as the literal. */
  lemma {:induction false} NatTextRoundTrip(n: nat)
    ensures ParseNat(NatText(n)) == n
  {
    if n < 10 {
      assert NatText(n)[..0] == [];
    } else {
      var s := NatText(n);
      var p := NatText(n / 10);
      assert s[..|s| - 1] == p;
      NatTextRoundTrip(n / 10);
    }
  }

  /** A `Number` leaf renders as its integer literal, which reads back as the
      same value. */
  lemma LeafRendersAsLiteral(n: int)
    ensures Render(Number(n)) == IntText(n)
    ensures ParseInt(Render(Number(n))) == n
  {
    NatTextRoundTrip(if n < 0 then -n else n);
    NatTextDigits(if n < 0 then -n else n);
    if n < 0 {
      assert ("-" + NatText(-n))[1..] == NatText(-n);
    } else {
      assert NatText(n)[0] != '-';
    }
  }

  /** An `Op` node renders as `"(" + left + " " + op + " " + right + ")"`. */
  lemma OpRendering(l: Expr, op: Opcode, r: Expr)
    ensures Render(Op(l, op, r)) == "(" + Render(l) + " " + (if op == Add then "+" else "*") + " " + Render(r) + ")"
  {
  }

  // ----- shape of the tree -----

  /** Every node is binary, so a tree has one more leaf than it has nodes. */
  lemma {:induction false} LeavesAreOpsPlusOne(e: Expr)
    ensures LeafCount(e) == OpCount(e) + 1
  {
    match e
    case Number(_) =>
    case Op(l, _, r) =>
      LeavesAreOpsPlusOne(l);
      LeavesAreOpsPlusOne(r);
  }

  // ----- parentheses of the rendering -----

  lemma IntTextHasNoParens(n: int)
    ensures Occurrences(IntText(n), '(') == 0 && Occurrences(IntText(n), ')') == 0
  {
    var m: nat := if n < 0 then -n else n;
    NatTextDigits(m);
    OccurrencesUniform(NatText(m), '(');
    OccurrencesUniform(NatText(m), ')');
    if n < 0 {
      OccurrencesConcat("-", NatText(m), '(');
      OccurrencesConcat("-", NatText(m), ')');
    }
  }

  /** The text between the two operands of a node. */
  function Middle(op: Opcode): string
  {
    " " + OpcodeText(op) + " "
  }

  lemma MiddleHasNoParens(op: Opcode)
    ensures Occurrences(Middle(op), '(') == 0 && Occurrences(Middle(op), ')') == 0
  {
    OccurrencesUniform(Middle(op), '(');
    OccurrencesUniform(Middle(op), ')');
  }

  lemma RenderOp(l: Expr, op: Opcode, r: Expr)
    ensures Render(Op(l, op, r)) == "(" + Render(l) + Middle(op) + Render(r) + ")"
  {
    var a, o, b := Render(l), OpcodeText(op), Render(r);
    assert Render(Op(l, op, r)) == "(" + a + " " + o + " " + b + ")";
    Regroup("(", a, " ", o, " ", b, ")");
  }

  lemma Regroup(s1: string, s2: string, s3: string, s4: string, s5: string, s6: string, s7: string)
    ensures s1 + s2 + s3 + s4 + s5 + s6 + s7 == s1 + s2 + (s3 + s4 + s5) + s6 + s7
  {
  }

  /** The rendering holds one `(` and one `)` per `Op` node. */
  lemma {:induction false} RenderParenCount(e: Expr)
    ensures Occurrences(Render(e), '(') == OpCount(e)
    ensures Occurrences(Render(e), ')') == OpCount(e)
  {
    match e
    case Number(n) =>
      IntTextHasNoParens(n);
    case Op(l, op, r) =>
      RenderParenCount(l);
      RenderParenCount(r);
      MiddleHasNoParens(op);
      RenderOp(l, op, r);
      var a, m, b := Render(l), Middle(op), Render(r);
      assert Render(e) == "(" + (a + (m + (b + ")")));
      OccurrencesConcat(b, ")", '(');
      OccurrencesConcat(b, ")", ')');
      OccurrencesConcat(m, b + ")", '(');
      OccurrencesConcat(m, b + ")", ')');
      OccurrencesConcat(a, m + (b + ")"), '(');
      OccurrencesConcat(a, m + (b + ")"), ')');
      OccurrencesConcat("(", a + (m + (b + ")")), '(');
      OccurrencesConcat("(", a + (m + (b + ")")), ')');
  }

  lemma DepthConcat(a: string, b: string)
    ensures Depth(a + b) == Depth(a) + Depth(b)
  {
    OccurrencesConcat(a, b, '(');
    OccurrencesConcat(a, b, ')');
  }

  lemma {:induction false} NoParensPrefix(m: string, k: nat)
    requires k <= |m|
    requires Occurrences(m, '(') == 0 && Occurrences(m, ')') == 0
    ensures Depth(m[..k]) == 0
  {
    assert m == m[..k] + m[k..];
    OccurrencesConcat(m[..k], m[k..], '(');
    OccurrencesConcat(m[..k], m[k..], ')');
  }

  /** Wrapping two balanced strings, separated by paren-free text, in one
      pair of parentheses gives a balanced string. */
  lemma WrapBalanced(a: string, m: string, b: string)
    requires Balanced(a) && Balanced(b)
    requires Occurrences(m, '(') == 0 && Occurrences(m, ')') == 0
    ensures Balanced("(" + a + m + b + ")")
  {
    var w := "(" + a + m + b + ")";
    WrapDepth(a, m, b);
    forall k | 0 <= k <= |w|
      ensures Depth(w[..k]) >= 0
    {
      WrapPrefixDepth(a, m, b, k);
    }
  }

  lemma WrapDepth(a: string, m: string, b: string)
    requires Depth(a) == 0 && Depth(b) == 0
    requires Occurrences(m, '(') == 0 && Occurrences(m, ')') == 0
    ensures Depth("(" + a + m + b + ")") == 0
  {
    assert Depth("(") == 1 && Depth(")") == -1;
    DepthConcat("(", a);
    DepthConcat("(" + a, m);
    DepthConcat("(" + a + m, b);
    DepthConcat("(" + a + m + b, ")");
  }

  lemma WrapPrefixDepth(a: string, m: string, b: string, k: nat)
    requires Balanced(a) && Balanced(b)
    requires Occurrences(m, '(') == 0 && Occurrences(m, ')') == 0
    requires k <= |"(" + a + m + b + ")"|
    ensures Depth(("(" + a + m + b + ")")[..k]) >= 0
  {
    var w := "(" + a + m + b + ")";
    if k == 0 {
      assert w[..k] == [];
    } else if k <= 1 + |a| {
      assert w[..k] == "(" + a[..k - 1];
      OpenThen(a[..k - 1]);
    } else if k <= 1 + |a| + |m| {
      assert w[..k] == ("(" + a) + m[..k - 1 - |a|];
      OpenThen(a);
      DepthConcat("(" + a, m[..k - 1 - |a|]);
      NoParensPrefix(m, k - 1 - |a|);
    } else if k <= 1 + |a| + |m| + |b| {
      assert w[..k] == ("(" + a + m) + b[..k - 1 - |a| - |m|];
      WrapPrefixInB(a, m, b[..k - 1 - |a| - |m|]);
    } else {
      assert w[..k] == w;
      WrapDepth(a, m, b);
    }
  }

  /** An opening parenthesis followed by `s` has depth one more than `s`. */
  lemma OpenThen(s: string)
    ensures Depth("(" + s) == 1 + Depth(s)
  {
    assert Depth("(") == 1;
    DepthConcat("(", s);
  }

  /** Inside the wrapper, past `a` and `m`, the depth is one more than that
      of the part of `b` read so far. */
  lemma WrapPrefixInB(a: string, m: string, bk: string)
    requires Depth(a) == 0
    requires Occurrences(m, '(') == 0 && Occurrences(m, ')') == 0
    ensures Depth("(" + a + m + bk) == 1 + Depth(bk)
  {
    OpenThen(a);
    DepthConcat("(" + a, m);
    NoParensPrefix(m, |m|);
    assert m[..|m|] == m;
    DepthConcat("(" + a + m, bk);
  }

  /** The rendering's parentheses are properly balanced. */
  lemma {:induction false} RenderBalanced(e: Expr)
    ensures Balanced(Render(e))
  {
    match e
    case Number(n) =>
      IntTextHasNoParens(n);
      forall k | 0 <= k <= |IntText(n)|
        ensures Depth(IntText(n)[..k]) >= 0
      {
        NoParensPrefix(IntText(n), k);
      }
    case Op(l, op, r) =>
      RenderBalanced(l);
      RenderBalanced(r);
      MiddleHasNoParens(op);
      RenderOp(l, op, r);
      WrapBalanced(Render(l), Middle(op), Render(r));
  }
}
