/** Go's integer division and remainder, which the ring uses to fold a
    32-bit hash into its slot space. Go truncates the quotient toward zero,
    so the remainder takes the sign of the dividend; Dafny's `/` and `%`
    are Euclidean and differ from Go's when an operand is negative. */
module GoInt {

  function Abs(x: int): nat {
    if x < 0 then -x else x
  }

  /** `a / b` as Go evaluates it: the quotient truncated toward zero. */
  function Quo(a: int, b: int): int
    requires b != 0
  {
    if (a >= 0) == (b > 0) then Abs(a) / Abs(b) else -(Abs(a) / Abs(b))
  }

  /** `a % b` as Go evaluates it; Go panics on a zero divisor. The
      remainder is smaller than the divisor in magnitude, has the sign of
      the dividend, and completes Go's division identity. */
  function Rem(a: int, b: int): (r: int)
    requires b != 0
    ensures Abs(r) < Abs(b)
    ensures a >= 0 ==> r >= 0
    ensures a < 0 ==> r <= 0
    ensures Quo(a, b) * b + r == a
  {
    var m := Abs(b);
    var q := Abs(a) / m;
    assert q * m + Abs(a) % m == Abs(a);
    if a >= 0 then
      assert Quo(a, b) * b == q * m;
      a % m
    else
      assert Quo(a, b) * b == -(q * m);
      -((-a) % m)
  }
}
