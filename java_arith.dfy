/** The few pieces of Java integer semantics the model needs: 32-bit `int` values,
    two's-complement wrap-around, division that truncates toward zero, and the
    `(int)` cast of a `double`. */
module JavaArith {
  const INT_MIN: int := -0x8000_0000
  const INT_MAX: int := 0x7FFF_FFFF

  type Int32 = x: int | INT_MIN <= x <= INT_MAX

  function Abs(x: int): int {
    if x >= 0 then x else -x
  }

  /** Java's `a / b` on `int`: the quotient is truncated toward zero
      (Dafny's own `/` is Euclidean). */
  function JavaDiv(a: int, b: int): (q: int)
    requires b != 0
    ensures b > 0 && a >= 0 ==> q == a / b
    ensures -b < a < b ==> q == 0
  {
    assert 0 <= a < b ==> a / b == 0 by {
      if 0 <= a < b { SmallQuotient(a, b); }
    }
    assert 0 < -a < b ==> (-a) / b == 0 by {
      if 0 < -a < b { SmallQuotient(-a, b); }
    }
    if a >= 0 && b > 0 then a / b
    else if a >= 0 then -(a / -b)
    else if b > 0 then -((-a) / b)
    else (-a) / (-b)
  }

  /** A non-negative dividend below the divisor has quotient zero. */
  lemma SmallQuotient(a: int, b: int)
    requires 0 <= a < b
    ensures a / b == 0
  {
  }

  /** The remainder `a - JavaDiv(a, b) * b` is the Euclidean remainder of the magnitudes,
      carrying the sign of `a`. */
  lemma JavaDivRemainderMagnitude(a: int, b: int)
    requires b != 0
    ensures a - JavaDiv(a, b) * b == (if a >= 0 then 1 else -1) * (Abs(a) - (Abs(a) / Abs(b)) * Abs(b))
  {
    var t := Abs(a) / Abs(b);
    var q := JavaDiv(a, b);
    if a >= 0 && b > 0 {
    } else if a >= 0 {
      assert q == -t;
      assert q * b == t * Abs(b);
    } else if b > 0 {
      assert q == -t;
      assert q * b == -(t * Abs(b));
    } else {
      assert q == t;
      assert q * b == -(t * Abs(b));
    }
  }

  /** Truncation toward zero: the remainder has the sign of the dividend and is smaller
      in magnitude than the divisor. */
  lemma JavaDivRemainder(a: int, b: int)
    requires b != 0
    ensures a >= 0 ==> 0 <= a - JavaDiv(a, b) * b < Abs(b)
    ensures a < 0 ==> -Abs(b) < a - JavaDiv(a, b) * b <= 0
  {
    JavaDivRemainderMagnitude(a, b);
    var n, m := Abs(a), Abs(b);
    assert 0 <= n - (n / m) * m < m;
  }

  /** Two's-complement wrap-around of an `int` result into 32 bits. */
  function Wrap32(x: int): (r: Int32)
    ensures INT_MIN <= x <= INT_MAX ==> r == x
    ensures (r - x) % 0x1_0000_0000 == 0
  {
    var m := (x - INT_MIN) % 0x1_0000_0000;
    m + INT_MIN
  }

  /** Java's `(int)` cast of a (non-NaN) `double`: drop the fraction toward zero,
      then saturate at the ends of the `int` range. */
  function DoubleToInt(r: real): (n: Int32)
    ensures INT_MIN as real <= r <= INT_MAX as real ==> -1.0 < r - n as real < 1.0
    ensures INT_MIN as real <= r <= INT_MAX as real ==> if r >= 0.0 then n as real <= r else r <= n as real
    ensures r.Floor as real == r && INT_MIN <= r.Floor <= INT_MAX ==> n == r.Floor
  {
    var t := if r >= 0.0 then r.Floor else -((-r).Floor);
    if t < INT_MIN then INT_MIN else if t > INT_MAX then INT_MAX else t
  }
}
