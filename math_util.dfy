/** Scalar activation functions and loss arithmetic (MathUtil.java). Every `double` is
    a `real`; nothing here claims IEEE behaviour. `Math.exp` and `Math.tanh` are not
    given a definition: callers pass them in, and the only fact used about `exp` is
    that it is positive. */
module MathUtil {
  import opened JavaArith

  /** The closed set of activation functions of the `ActivationFunction` enum. */
  datatype ActivationFunction = Sigmoid | Tanh | Relu | LeakyRelu | Softmax | Linear

  /** What the model assumes of the exponential function it is given. */
  ghost predicate ExpPositive(exp: real -> real) {
    forall x :: exp(x) > 0.0
  }

  /** `Math.exp(x)`, through the exponential function the model is given. */
  function ExpOf(x: real, exp: real -> real): (y: real)
    requires ExpPositive(exp)
    ensures y > 0.0
  {
    exp(x)
  }

  /** `MathUtil.sigmoid(x) = 1 / (1 + exp(-x))`. */
  function SigmoidOf(x: real, exp: real -> real): (s: real)
    requires ExpPositive(exp)
    ensures 0.0 < s < 1.0
  {
    1.0 / (1.0 + exp(-x))
  }

  /** `MathUtil.sigmoidDerivative(x) = sigmoid(x) * (1 - sigmoid(x))`, at most 1/4. */
  function SigmoidDerivativeOf(x: real, exp: real -> real): (d: real)
    requires ExpPositive(exp)
    ensures 0.0 < d <= 0.25
  {
    var s := SigmoidOf(x, exp);
    assert s * (1.0 - s) <= 0.25 by { assert 0.25 - s * (1.0 - s) == (s - 0.5) * (s - 0.5); }
    s * (1.0 - s)
  }

  /** `Math.max` on reals. */
  function Max(a: real, b: real): (m: real)
    ensures m >= a && m >= b && (m == a || m == b)
  {
    if a >= b then a else b
  }

  /** `ActivationFunction.apply`. */
  function Apply(f: ActivationFunction, x: real, exp: real -> real, tanh: real -> real): (y: real)
    requires ExpPositive(exp)
    ensures f == Relu ==> y >= 0.0 && y >= x && (x > 0.0 ==> y == x) && (x <= 0.0 ==> y == 0.0)
    ensures f == LeakyRelu ==> (x >= 0.0 ==> y == x) && (x < 0.0 ==> y == x / 100.0)
    ensures f == Sigmoid || f == Softmax ==> 0.0 < y < 1.0
    ensures f == Linear ==> y == x
  {
    match f
    case Sigmoid => 1.0 / (1.0 + exp(-x))
    case Tanh => tanh(x)
    case Relu => Max(0.0, x)
    case LeakyRelu => Max(0.01 * x, x)
    case Softmax => exp(x) / (exp(x) + 1.0)
    case Linear => x
  }

  /** `ActivationFunction.applyDerivative`. */
  function ApplyDerivative(f: ActivationFunction, x: real, exp: real -> real, tanh: real -> real): (d: real)
    requires ExpPositive(exp)
    ensures f == Relu ==> d == (if x > 0.0 then 1.0 else 0.0)
    ensures f == LeakyRelu ==> d == (if x > 0.0 then 1.0 else 0.01)
    ensures f == Sigmoid ==> 0.0 < d <= 0.25
    ensures f == Softmax ==> d == Apply(Softmax, x, exp, tanh)
    ensures f == Tanh ==> d <= 1.0
    ensures f == Linear ==> d == 1.0
  {
    match f
    case Sigmoid => SigmoidDerivativeOf(x, exp)
    case Tanh => 1.0 - tanh(x) * tanh(x)
    case Relu => if x > 0.0 then 1.0 else 0.0
    case LeakyRelu => if x > 0.0 then 1.0 else 0.01
    case Softmax => exp(x) / (exp(x) + 1.0)
    case Linear => 1.0
  }

  /** With `exp(0) = 1`, the sigmoid and its derivative take the classic values at 0. */
  lemma SigmoidAtZero(exp: real -> real, tanh: real -> real)
    requires ExpPositive(exp) && exp(0.0) == 1.0
    ensures Apply(Sigmoid, 0.0, exp, tanh) == 0.5
    ensures ApplyDerivative(Sigmoid, 0.0, exp, tanh) == 0.25
  {
    assert -0.0 == 0.0;
    assert SigmoidOf(0.0, exp) == 0.5;
  }

  /** The static `relu` is the leaky one: `max(0.01 x, x)`. */
  function LeakyReluStatic(x: real): (y: real)
    ensures x >= 0.0 ==> y == x
    ensures x < 0.0 ==> y == x / 100.0 && x < y < 0.0
  {
    Max(0.01 * x, x)
  }

  /** The static `reluDerivative`: 1 for positive inputs, else 0 (not the leaky slope). */
  function ReluDerivativeStatic(x: real): (d: real)
    ensures d == 0.0 || d == 1.0
    ensures d == 1.0 <==> x > 0.0
  {
    if x > 0.0 then 1.0 else 0.0
  }

  /** Real multiplication, with the sign rules the error and derivative contracts rely on. */
  function Product(a: real, b: real): (r: real)
    ensures a > 0.0 && b > 0.0 ==> r > 0.0
    ensures a < 0.0 && b < 0.0 ==> r > 0.0
    ensures a == 0.0 || b == 0.0 ==> r == 0.0
  {
    a * b
  }

  /** `computeError(e, a) = (e - a)^2`: never negative, and zero exactly when the two agree. */
  function ComputeError(expected: real, actual: real): (err: real)
    ensures err >= 0.0
    ensures err == 0.0 <==> expected == actual
  {
    Product(expected - actual, expected - actual)
  }

  /** The error does not depend on which side is the expected value. */
  lemma ComputeErrorSymmetric(e: real, a: real)
    ensures ComputeError(e, a) == ComputeError(a, e)
  {
    assert (e - a) * (e - a) == (a - e) * (a - e);
  }

  /** `mapValue`: a linear map of `[min, max]` onto `[newMin, newMax]`, then an `(int)` cast.
      The difference `newMax - newMin` is an `int` subtraction and wraps around. */
  function MapValue(value: real, min: real, max: real, newMin: Int32, newMax: Int32): (n: Int32)
    requires max != min
    ensures min < max && min <= value <= max && newMin <= newMax && newMax - newMin <= INT_MAX ==>
      newMin <= n <= newMax
  {
    var t := (value - min) / (max - min);
    var span := Wrap32(newMax - newMin);
    assert min < max && min <= value <= max && newMin <= newMax && newMax - newMin <= INT_MAX ==>
      newMin <= DoubleToInt(Scale(t, span as real) + newMin as real) <= newMax by {
      if min < max && min <= value <= max && newMin <= newMax && newMax - newMin <= INT_MAX {
        FractionWithin(value, min, max);
        assert span == newMax - newMin;
        TruncateWithin(Scale(t, span as real) + newMin as real, newMin, newMax);
      }
    }
    DoubleToInt(Scale(t, span as real) + newMin as real)
  }

  /** `t * span`: a fraction of a non-negative span lies between zero and the span. */
  function Scale(t: real, span: real): (x: real)
    ensures 0.0 <= t <= 1.0 && 0.0 <= span ==> 0.0 <= x <= span
  {
    assert 0.0 <= t <= 1.0 && 0.0 <= span ==> 0.0 <= t * span <= span by {
      if 0.0 <= t <= 1.0 && 0.0 <= span {
        assert span - t * span == (1.0 - t) * span;
      }
    }
    t * span
  }

  /** A value of `[min, max]` lies at a fraction in `[0, 1]` of the way from `min` to `max`. */
  lemma FractionWithin(value: real, min: real, max: real)
    requires min < max && min <= value <= max
    ensures 0.0 <= (value - min) / (max - min) <= 1.0
  {
    var d := max - min;
    var t := (value - min) / d;
    assert t * d == value - min;
    assert (1.0 - t) * d == d - t * d == max - value;
    NonNegativeFactor(t, d);
    NonNegativeFactor(1.0 - t, d);
  }

  /** A factor whose product with a positive number is non-negative is non-negative. */
  lemma NonNegativeFactor(x: real, d: real)
    requires d > 0.0 && x * d >= 0.0
    ensures x >= 0.0
  {
  }

  /** `min` lies at fraction `0` and `max` at fraction `1` of the way from `min` to `max`. */
  lemma FractionEnds(min: real, max: real)
    requires max != min
    ensures (min - min) / (max - min) == 0.0 && (max - min) / (max - min) == 1.0
  {
  }

  /** The `(int)` cast of a double between two `int` bounds stays between them. */
  lemma TruncateWithin(r: real, lo: Int32, hi: Int32)
    requires lo as real <= r <= hi as real
    ensures lo <= DoubleToInt(r) <= hi
  {
  }

  /** The ends of the source range go to the ends of the target range, provided the
      target span fits in an `int`. */
  lemma MapValueEnds(min: real, max: real, newMin: Int32, newMax: Int32)
    requires max != min
    ensures MapValue(min, min, max, newMin, newMax) == newMin
    ensures INT_MIN <= newMax - newMin <= INT_MAX ==> MapValue(max, min, max, newMin, newMax) == newMax
  {
    var span := Wrap32(newMax - newMin) as real;
    FractionEnds(min, max);
    assert Scale(0.0, span) == 0.0;
    assert Scale(1.0, span) == span;
  }

  /** With a wrapped span the top end can land elsewhere: `[INT_MIN, INT_MAX]` maps `max` to `INT_MIN`. */
  lemma MapValueOverflow()
    ensures MapValue(1.0, 0.0, 1.0, INT_MIN, INT_MAX) == INT_MIN
  {
    assert Wrap32(INT_MAX - INT_MIN) == -1;
  }
}
