/** Java's 32-bit `int` and the operators the grid code applies to it, written out over
    Dafny's unbounded integers (Dafny's own `/` and `%` are Euclidean; Java's truncate). */
module JavaInt {

  /** The conventional Some/None wrapper, standing in for a Java reference that may be null
      or an operation that may throw. */
  datatype Option<+T> = None | Some(value: T)

  /** Values of a Java `int`. */
  type int32 = v: int | -0x8000_0000 <= v < 0x8000_0000

  /** Two's-complement wrap-around of an exact result into the `int` range. */
  function Wrap32(v: int): (r: int32)
    ensures -0x8000_0000 <= v < 0x8000_0000 ==> r == v
    ensures (r - v) % 0x1_0000_0000 == 0
  {
    (v + 0x8000_0000) % 0x1_0000_0000 - 0x8000_0000
  }

  /** Java's `a / b` for a positive divisor: the quotient is rounded toward zero, so `q * b`
      is the multiple of `b` nearest to `a` on the side of zero. */
  function Div(a: int, b: int): (q: int)
    requires b > 0
    ensures a >= 0 ==> 0 <= q * b <= a < q * b + b
    ensures a < 0 ==> q * b - b < a <= q * b <= 0
  {
    if a >= 0 then
      QuotientBrackets(a, b);
      a / b
    else
      QuotientBrackets(-a, b);
      NegatedProduct((-a) / b, b);
      -((-a) / b)
  }

  /** The Euclidean quotient of a non-negative number brackets it from below. */
  lemma QuotientBrackets(a: int, b: int)
    requires a >= 0 && b > 0
    ensures 0 <= (a / b) * b <= a < (a / b) * b + b
  {
    assert a == (a / b) * b + a % b;
  }

  lemma NegatedProduct(m: int, b: int)
    ensures (-m) * b == -(m * b)
  {
  }

  /** Java's `a % b` for a positive divisor: what `a / b` leaves, `(a / b) * b + a % b == a`,
      so the remainder takes the sign of `a`. */
  function Rem(a: int, b: int): (r: int)
    requires b > 0
    ensures Div(a, b) * b + r == a
    ensures -b < r < b
    ensures a >= 0 ==> 0 <= r && r == a % b
    ensures a < 0 ==> r <= 0
  {
    if a >= 0 then
      assert a == (a / b) * b + a % b;
      a % b
    else
      var m := (-a) / b;
      assert -a == m * b + (-a) % b;
      assert Div(a, b) * b == -(m * b);
      -((-a) % b)
  }

  /** Java's `a & 1`. The lowest bit of a two's-complement number is 1 exactly when the
      number is odd, negative numbers included (-1 & 1 == 1), which is Dafny's Euclidean `% 2`. */
  function LowBit(a: int32): (r: int)
    ensures r == 0 || r == 1
    ensures (a - r) % 2 == 0
  {
    a % 2
  }
}
