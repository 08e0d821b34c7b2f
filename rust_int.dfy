/** Rust's signed integer division and remainder, which truncate toward zero
    (Dafny's own `/` and `%` are Euclidean). */
module RustInt {

  function Abs(x: int): nat
  {
    if x < 0 then -x else x
  }

  /** `a / b` on a signed Rust integer: the quotient rounded toward zero. */
  function TruncDiv(a: int, b: int): int
    requires b != 0
  {
    var q := Abs(a) / Abs(b);
    if (a < 0) == (b < 0) then q else -q
  }

  /** `a % b` on a signed Rust integer: the remainder takes the sign of `a`
      and is smaller than `b` in magnitude. */
  function TruncRem(a: int, b: int): (r: int)
    requires b != 0
    ensures a == TruncDiv(a, b) * b + r
    ensures Abs(r) < Abs(b)
    ensures a >= 0 ==> 0 <= r
    ensures a <= 0 ==> r <= 0
  {
    var q := Abs(a) / Abs(b);
    var m := Abs(a) % Abs(b);
    assert Abs(a) == q * Abs(b) + m;
    if a < 0 then -m else m
  }

  /** For non-negative operands the truncating and Euclidean operators agree. */
  lemma TruncNonNegative(a: int, b: int)
    requires a >= 0 && b > 0
    ensures TruncRem(a, b) == a % b
    ensures TruncDiv(a, b) == a / b
  {
  }
}
