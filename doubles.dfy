/** The part of Kotlin's Double arithmetic the model needs: quotients of whole numbers, where 0.0 / 0.0
    is NaN, and binary64 rounding of a sum or a product. Overflow to infinity and results in the
    subnormal range are not modelled. */
module Doubles {

  datatype Double = Number(value: real) | NotANumber

  /** `x.toDouble() / y.toDouble()` for a numerator that is 0 whenever the denominator is. */
  function Divide(x: nat, y: nat): (r: Double)
    requires y == 0 ==> x == 0
    ensures y == 0 <==> r == NotANumber
    ensures r.Number? ==> r.value * y as real == x as real
  {
    if y == 0 then NotANumber else Number(x as real / y as real)
  }

  function Abs(x: real): real
  {
    if x < 0.0 then -x else x
  }

  /** 2 to the power k. */
  function Pow2(k: int): (r: real)
    ensures r > 0.0
    decreases if k < 0 then -k else k
  {
    if k == 0 then 1.0 else if k > 0 then 2.0 * Pow2(k - 1) else Pow2(k + 1) / 2.0
  }

  lemma {:induction false} Pow2Step(k: int)
    ensures Pow2(k + 1) == 2.0 * Pow2(k)
    decreases if k < 0 then -k else k
  {
    if k < -1 {
      Pow2Step(k + 1);
    }
  }

  lemma {:induction false} Pow2Monotone(k: int, l: int)
    requires k <= l
    ensures Pow2(k) <= Pow2(l)
    decreases l - k
  {
    if k < l {
      Pow2Step(k);
      Pow2Monotone(k + 1, l);
    }
  }

  /** The binary exponent of a positive y. */
  function Exponent(y: real): (e: int)
    requires y > 0.0
    ensures Pow2(e) <= y < Pow2(e + 1)
    decreases if y >= 1.0 then 0 else 1, if y >= 1.0 then y.Floor else (1.0 / y).Floor
  {
    if y >= 2.0 then
      var e := Exponent(y / 2.0);
      Pow2Step(e);
      Pow2Step(e + 1);
      e + 1
    else if y >= 1.0 then
      0
    else
      assert 2.0 * y < 1.0 ==> 1.0 / (2.0 * y) == (1.0 / y) / 2.0;
      var e := Exponent(2.0 * y);
      Pow2Step(e - 1);
      e - 1
  }

  /** The exponent is the only e with 2^e <= y < 2^(e+1). */
  lemma ExponentIs(y: real, e: int)
    requires y > 0.0 && Pow2(e) <= y < Pow2(e + 1)
    ensures Exponent(y) == e
  {
    var d := Exponent(y);
    if d < e {
      Pow2Monotone(d + 1, e);
    } else if d > e {
      Pow2Monotone(e + 1, d);
    }
  }

  /** The integer nearest t, a tie going to the even one. */
  function RoundHalfEven(t: real): (n: int)
    ensures Abs(n as real - t) <= 0.5
    ensures Abs(n as real - t) == 0.5 ==> n % 2 == 0
  {
    var q := t.Floor;
    var f := t - q as real;
    if f < 0.5 || (f == 0.5 && q % 2 == 0) then q else q + 1
  }

  /** No integer is nearer t than RoundHalfEven(t). */
  lemma RoundHalfEvenNearest(t: real, k: int)
    ensures Abs(RoundHalfEven(t) as real - t) <= Abs(k as real - t)
  {
    var q := t.Floor;
    var f := t - q as real;
    var n := RoundHalfEven(t);
    assert 0.0 <= f < 1.0;
    assert n == q || n == q + 1;
    assert n == q ==> Abs(n as real - t) == f && f <= 0.5;
    assert n == q + 1 ==> Abs(n as real - t) == 1.0 - f && f >= 0.5;
    if k <= q {
      assert Abs(k as real - t) >= f;
    } else {
      assert Abs(k as real - t) >= 1.0 - f;
    }
  }

  /** x rounded to the nearest integer multiple of u, a tie going to the even multiple. */
  function RoundToMultiple(x: real, u: real): real
    requires u > 0.0
  {
    RoundHalfEven(x / u) as real * u
  }

  /** No multiple of u is nearer x than RoundToMultiple(x, u). */
  lemma RoundToMultipleNearest(x: real, u: real, k: int)
    requires u > 0.0
    ensures Abs(RoundToMultiple(x, u) - x) <= Abs(k as real * u - x)
  {
    var t := x / u;
    var n := RoundHalfEven(t);
    RoundHalfEvenNearest(t, k);
    NearerScaled(x, u, t, n, k);
    assert RoundToMultiple(x, u) == n as real * u;
  }

  /** Scaling by u keeps the nearer of two integers to x / u the nearer multiple to x. */
  lemma NearerScaled(x: real, u: real, t: real, n: int, k: int)
    requires u > 0.0 && t == x / u
    requires Abs(n as real - t) <= Abs(k as real - t)
    ensures Abs(n as real * u - x) <= Abs(k as real * u - x)
  {
    ScaledDistance(x, u, t, n);
    ScaledDistance(x, u, t, k);
    MulMonotone(Abs(n as real - t), Abs(k as real - t), u);
  }

  /** The spacing of the binary64 values in the binade of a nonzero x: 53 significant bits make it
      2^(e - 52) for 2^e <= |x| < 2^(e+1). */
  function Ulp(x: real): (u: real)
    requires x != 0.0
    ensures u > 0.0
    ensures u * 4503599627370496.0 <= Abs(x)
  {
    Pow2(Exponent(Abs(x))) / 4503599627370496.0
  }

  /** x rounded to binary64, to nearest with ties to even: the nearest multiple of the spacing in
      x's binade. */
  function ToDouble(x: real): real
  {
    if x == 0.0 then 0.0 else RoundToMultiple(x, Ulp(x))
  }

  /** Rounding to binary64 is off by at most 2^-53 relative to the exact value. */
  lemma ToDoubleError(x: real)
    requires x != 0.0
    ensures Abs(ToDouble(x) - x) <= Abs(x) / 9007199254740992.0
  {
    ErrorBound(x, Ulp(x));
  }

  lemma ErrorBound(x: real, u: real)
    requires u > 0.0 && x != 0.0 && u * 4503599627370496.0 <= Abs(x)
    ensures Abs(RoundToMultiple(x, u) - x) <= Abs(x) / 9007199254740992.0
  {
    var t := x / u;
    var n := RoundHalfEven(t);
    HalfSpacing(x, u, t, n);
    assert RoundToMultiple(x, u) == n as real * u;
  }

  /** A multiple of u within half a step of x / u is within 2^-53 |x| of x, when u is at most 2^-52 |x|. */
  lemma HalfSpacing(x: real, u: real, t: real, n: int)
    requires u > 0.0 && t == x / u && u * 4503599627370496.0 <= Abs(x)
    requires Abs(n as real - t) <= 0.5
    ensures Abs(n as real * u - x) <= Abs(x) / 9007199254740992.0
  {
    ScaledDistance(x, u, t, n);
    MulMonotone(Abs(n as real - t), 0.5, u);
    var d := Abs(n as real * u - x);
    assert d == Abs(n as real - t) * u;
    assert Abs(n as real - t) * u <= 0.5 * u;
    assert d <= 0.5 * u;
    assert 0.5 * u <= Abs(x) / 9007199254740992.0;
  }

  lemma ScaledDistance(x: real, u: real, t: real, n: int)
    requires u > 0.0 && t == x / u
    ensures Abs(n as real * u - x) == Abs(n as real - t) * u
  {
    assert x == t * u;
    assert n as real * u - x == (n as real - t) * u;
    Scale(n as real - t, u);
  }

  lemma Scale(a: real, u: real)
    requires u > 0.0
    ensures Abs(a * u) == Abs(a) * u
  {
  }

  lemma MulMonotone(a: real, b: real, u: real)
    requires a <= b && u > 0.0
    ensures a * u <= b * u
  {
  }

  /** `x + y` and `x * y` on Kotlin Doubles. */
  function DAdd(x: real, y: real): real
  {
    ToDouble(x + y)
  }

  function DMul(x: real, y: real): real
  {
    ToDouble(x * y)
  }
}
