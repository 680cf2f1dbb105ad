/** The few C# / .NET numeric operators the nap engine relies on whose meaning
    differs from Dafny's built-ins: integer `/` and `%` truncate toward zero
    (Dafny's are Euclidean), `Math.Ceiling`, and `Math.Round`, whose default
    midpoint rule is round-half-to-even. Floating-point values are modelled as
    exact reals. */
module DotNet {

  /** C# `a / b` on `int`: the quotient truncated toward zero, so that
      `q * b` lies between `a` and zero, less than `b` away from `a`. For a
      non-negative dividend it is Dafny's `/`. */
  function Quot(a: int, b: int): (q: int)
    requires b > 0
    ensures 0 <= a ==> q == a / b
    ensures 0 <= a ==> q * b <= a < q * b + b
    ensures a < 0 ==> q * b - b < a <= q * b
  {
    if a >= 0 then a / b else -((-a) / b)
  }

  /** C# `a % b` on `int`: the remainder takes the sign of the dividend. */
  function Rem(a: int, b: int): (r: int)
    requires b > 0
    ensures 0 <= a ==> 0 <= r < b && r == a % b
    ensures a < 0 ==> -b < r <= 0 && r == -((-a) % b)
  {
    if a >= 0 then a % b else -((-a) % b)
  }

  /** C#'s division identity: the truncated quotient and the remainder
      recompose the dividend. */
  lemma DivisionIdentity(a: int, b: int)
    requires b > 0
    ensures a == Quot(a, b) * b + Rem(a, b)
  {
    if a < 0 {
      assert -a == ((-a) / b) * b + (-a) % b;
    }
  }

  /** `Math.Ceiling(x)`: the least integer not below `x`. */
  function Ceiling(x: real): (c: int)
    ensures c as real - 1.0 < x <= c as real
  {
    -((-x).Floor)
  }

  /** `Math.Round(x)` with .NET's default `MidpointRounding.ToEven`: the
      nearest integer, and the even one of the two when `x` lies halfway. */
  function RoundHalfEven(x: real): (n: int)
    ensures -0.5 <= n as real - x <= 0.5
    ensures (n as real - x == 0.5 || x - n as real == 0.5) ==> n % 2 == 0
  {
    var f := x.Floor;
    var d := x - f as real;
    if d < 0.5 then f
    else if d > 0.5 then f + 1
    else if f % 2 == 0 then f
    else f + 1
  }

  /** `Math.Ceiling` is monotone. */
  lemma CeilingMonotone(x: real, y: real)
    requires x <= y
    ensures Ceiling(x) <= Ceiling(y)
  {
  }

  /** `Math.Round` is monotone: the midpoint rule never reverses the order
      of two values. */
  lemma RoundHalfEvenMonotone(x: real, y: real)
    requires x <= y
    ensures RoundHalfEven(x) <= RoundHalfEven(y)
  {
    var fx, fy := x.Floor, y.Floor;
    if fx == fy {
      var dx, dy := x - fx as real, y - fy as real;
      assert dx <= dy;
    } else {
      assert fx < fy;
    }
  }

  /** `Math.Max(a, b)` on `int`. */
  function MaxInt(a: int, b: int): (m: int)
    ensures m >= a && m >= b && (m == a || m == b)
  {
    if a >= b then a else b
  }

  /** `Math.Min(a, b)` on `float`. */
  function MinReal(a: real, b: real): (m: real)
    ensures m <= a && m <= b && (m == a || m == b)
  {
    if a <= b then a else b
  }
}
