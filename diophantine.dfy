/** Linear Diophantine equations `factor1 * x + factor2 * y == rightValue`
    solved through the greatest common divisor and Bezout's identity. */
module Diophantine {
  import opened Arith
  import opened CommonFactor
  import opened Bezout

  /** `(x, y)` solves `factor1 * x + factor2 * y == rightValue`. */
  predicate IsSolution(factor1: int, factor2: int, rightValue: int, x: int, y: int)
  {
    factor1 * x + factor2 * y == rightValue
  }

  /** `DiophantineEquation` (MathBase/MathFoundation.hpp:233-249): with
      `CF = MaxCommonFactor(factor1, factor2)`, false when the C++ remainder
      `rightValue % CF` is nonzero; otherwise the Bezout coefficients scaled
      by the C++ quotient `rightValue / CF` are the special solution it
      prints, and the result is true. The source keeps `x` and `y` as locals
      that it only prints; the model returns them, as 0 on the unsolvable
      path where the source never sets them. `CF` is -1 for two zero factors, so every right
      value then counts as solvable. `BezoutEquation` is only reached when
      the remainder is zero, and needs its own precondition there. */
  method DiophantineEquation(factor1: int, factor2: int, rightValue: int)
    returns (solvable: bool, x: int, y: int)
    requires TMod(rightValue, MaxCommonFactorOf(factor1, factor2)) == 0 ==> BezoutDefined(factor1, factor2)
    ensures solvable <==> Divides(MaxCommonFactorOf(factor1, factor2), rightValue)
    ensures factor1 == 0 && factor2 == 0 ==> solvable
    ensures solvable ==>
      var ratio := TDiv(rightValue, MaxCommonFactorOf(factor1, factor2));
      x == BezoutPair(factor1, factor2).0 * ratio && y == BezoutPair(factor1, factor2).1 * ratio
    ensures !solvable ==> x == 0 && y == 0
    ensures solvable && ((factor1 > 0 && factor2 > 0) || ((factor1 == 0) != (factor2 == 0))) ==>
      IsSolution(factor1, factor2, rightValue, x, y)
  {
    var cf := CommonFactor.MaxCommonFactor(factor1, factor2);
    var ratio := TDiv(rightValue, cf);
    TModZeroIffDivides(rightValue, cf);
    if TMod(rightValue, cf) != 0 {
      return false, 0, 0;
    }
    if factor1 == 0 && factor2 == 0 {
      DividesMultiple(-1, -rightValue);
    }
    x, y := BezoutEquation(factor1, factor2);
    ghost var s, t := x, y;
    x := x * ratio;
    y := y * ratio;
    if (factor1 > 0 && factor2 > 0) || ((factor1 == 0) != (factor2 == 0)) {
      TDivExact(rightValue, cf);
      ScaleIdentity(factor1, factor2, s, t, cf, ratio);
    }
    return true, x, y;
  }

  /** Scaling a Bezout identity `s * a + t * b == g` by `k` solves the
      equation with right value `g * k`. */
  lemma ScaleIdentity(a: int, b: int, s: int, t: int, g: int, k: int)
    requires s * a + t * b == g
    ensures IsSolution(a, b, g * k, s * k, t * k)
  {
    calc {
      a * (s * k) + b * (t * k);
      (s * a) * k + (t * b) * k;
      (s * a + t * b) * k;
    }
  }

  /** Without two zero factors, an indivisible right value leaves the
      equation without integer solutions: the greatest common divisor
      divides every `factor1 * x + factor2 * y`. */
  lemma NoSolutionWhenIndivisible(factor1: int, factor2: int, rightValue: int)
    requires factor1 != 0 || factor2 != 0
    requires !Divides(MaxCommonFactorOf(factor1, factor2), rightValue)
    ensures forall x, y :: !IsSolution(factor1, factor2, rightValue, x, y)
  {
    var g := MaxCommonFactorOf(factor1, factor2);
    forall x, y
      ensures !IsSolution(factor1, factor2, rightValue, x, y)
    {
      DividesLinear(g, factor1, factor2, x, y);
      assert x * factor1 + y * factor2 == factor1 * x + factor2 * y;
    }
  }

  /** The common solution printed by the source: from one solution, adding
      `k * (factor1 / CF)` to `y` and taking `k * (factor2 / CF)` from `x`
      gives another, for every integer `k`. */
  lemma GeneralSolution(factor1: int, factor2: int, rightValue: int, x: int, y: int, k: int)
    requires factor1 != 0 || factor2 != 0
    requires IsSolution(factor1, factor2, rightValue, x, y)
    ensures var g := MaxCommonFactorOf(factor1, factor2);
      IsSolution(factor1, factor2, rightValue, x - TDiv(factor2, g) * k, y + TDiv(factor1, g) * k)
  {
    var g := MaxCommonFactorOf(factor1, factor2);
    TDivExact(factor1, g);
    TDivExact(factor2, g);
    ShiftSolution(factor1, factor2, rightValue, x, y, TDiv(factor1, g), TDiv(factor2, g), g, k);
  }

  lemma ShiftSolution(a: int, b: int, c: int, x: int, y: int, u: int, v: int, g: int, k: int)
    requires a == u * g && b == v * g && a * x + b * y == c
    ensures a * (x - v * k) + b * (y + u * k) == c
  {
    calc {
      a * (v * k);
      (u * g) * (v * k);
      { MulSwap(u, g, v, k); }
      (v * g) * (u * k);
      b * (u * k);
    }
    assert a * (x - v * k) == a * x - a * (v * k);
    assert b * (y + u * k) == b * y + b * (u * k);
  }

  lemma MulSwap(u: int, g: int, v: int, k: int)
    ensures (u * g) * (v * k) == (v * g) * (u * k)
  {
    assert (u * g) * (v * k) == u * v * g * k;
    assert (v * g) * (u * k) == u * v * g * k;
  }
}
