/** Division by repeated subtraction and primality by trial division. */
module Primality {
  import opened Arith

  /** `EuclidDivide` (MathBase/MathFoundation.hpp:106-116): while the dividend
      is not below the divisor, subtract the divisor once and count one more
      into the quotient passed in; what is left is the remainder. The
      incoming quotient is not reset, so `quotient` comes back increased by
      the number of subtractions. A dividend already below the divisor is
      returned unchanged as the remainder, even when it is negative; with a
      divisor that is not positive and a dividend not below it the recursion
      never ends. */
  method EuclidDivide(dividend: int, divisor: int, quotientIn: int) returns (quotient: int, remainder: int)
    requires divisor > 0 || dividend < divisor
    ensures dividend < divisor ==> quotient == quotientIn && remainder == dividend
    ensures dividend >= 0 ==>
      quotient == quotientIn + dividend / divisor && remainder == dividend % divisor
    ensures dividend == (quotient - quotientIn) * divisor + remainder
    decreases if dividend < divisor then 0 else dividend
  {
    if dividend < divisor {
      remainder := dividend;
      quotient := quotientIn;
      if dividend >= 0 {
        DivModUnique(dividend, divisor, 0, dividend);
      }
    } else {
      quotient, remainder := EuclidDivide(dividend - divisor, divisor, quotientIn + 1);
      SubtractionStep(dividend, divisor, quotientIn, quotient, remainder);
    }
  }

  /** The recursive call on `dividend - divisor`, which starts from one
      more in the quotient, gives the results for `dividend`. */
  lemma SubtractionStep(dividend: int, divisor: int, quotientIn: int, quotient: int, remainder: int)
    requires divisor > 0 && dividend >= divisor
    requires dividend - divisor == (quotient - (quotientIn + 1)) * divisor + remainder
    requires quotient == quotientIn + 1 + (dividend - divisor) / divisor
    requires remainder == (dividend - divisor) % divisor
    ensures quotient == quotientIn + dividend / divisor && remainder == dividend % divisor
    ensures dividend == (quotient - quotientIn) * divisor + remainder
  {
    QuotientStep(dividend, divisor);
    var c := quotient - quotientIn;
    assert (c - 1) * divisor + divisor == c * divisor;
  }

  /** Subtracting the divisor once takes one off the quotient and leaves the
      remainder alone. */
  lemma QuotientStep(n: int, d: int)
    requires d > 0 && n >= d
    ensures n / d == (n - d) / d + 1 && n % d == (n - d) % d
  {
    var q, r := (n - d) / d, (n - d) % d;
    assert n - d == q * d + r;
    assert n == (q + 1) * d + r;
    DivModUnique(n, d, q + 1, r);
  }

  /** Some `i >= 2` with `i * i <= n` divides `n`: what the trial division of
      `IsPrime` looks for. */
  ghost predicate HasSmallDivisor(n: int)
  {
    exists i :: 2 <= i && i * i <= n && Divides(i, n)
  }

  /** `n` is a prime: at least 2, with no divisor strictly between 1 and `n`. */
  ghost predicate Prime(n: int)
  {
    n >= 2 && forall d :: 1 < d < n ==> !Divides(d, n)
  }

  lemma MulMonotone(a: int, b: int, c: int)
    requires 0 <= a <= b && c >= 0
    ensures a * c <= b * c
  {
  }

  /** `isPrime` (MathBase/MathFoundation.hpp:119-130): trial division by
      `i = 2, 3, ...` while `i * i <= number`, each division done by
      `EuclidDivide` with a quotient that keeps accumulating across the
      calls; false at the first zero remainder, true otherwise. */
  method IsPrime(number: int) returns (p: bool)
    ensures p <==> !HasSmallDivisor(number)
  {
    var quo, re := 0, 0;
    var i := 2;
    while i * i <= number
      invariant i >= 2
      invariant forall j :: 2 <= j < i ==> !Divides(j, number)
      decreases number - i
    {
      MulMonotone(2, i, i);
      quo, re := EuclidDivide(number, i, quo);
      if re == 0 {
        assert Divides(i, number);
        return false;
      }
      assert !Divides(i, number);
      i := i + 1;
    }
    forall j | 2 <= j && j * j <= number
      ensures !Divides(j, number)
    {
      if j >= i {
        MulMonotone(i, j, i);
        MulMonotone(i, j, j);
      }
    }
    return true;
  }

  /** Every number below 4, negative ones included, passes the trial
      division. */
  lemma SmallNumbersPass(n: int)
    requires n < 4
    ensures !HasSmallDivisor(n)
  {
    forall i | 2 <= i
      ensures i * i > n
    {
      MulMonotone(2, i, i);
    }
  }

  /** For `n >= 2` the trial division is exact: a divisor strictly between 1
      and `n` exists exactly when one with square at most `n` does. */
  lemma TrialDivisionDecidesPrimality(n: int)
    requires n >= 2
    ensures !HasSmallDivisor(n) <==> Prime(n)
  {
    if HasSmallDivisor(n) {
      var i :| 2 <= i && i * i <= n && Divides(i, n);
      MulMonotone(2, i, i);
      assert 1 < i < n;
    }
    if !Prime(n) {
      var d :| 1 < d < n && Divides(d, n);
      var e := n / d;
      assert n == d * e;
      DividesMultiple(e, d);
      if d * d > n {
        CofactorSmall(n, d, e);
        assert 2 <= e && e * e <= n && Divides(e, n);
      } else {
        assert 2 <= d && d * d <= n && Divides(d, n);
      }
    }
  }

  /** When a divisor `d` of `n` strictly between 1 and `n` has its square
      above `n`, the cofactor has its square at most `n`. */
  lemma CofactorSmall(n: int, d: int, e: int)
    requires n == d * e && 1 < d < n && d * d > n
    ensures 2 <= e && e * e <= n
  {
    if e <= 1 {
      MulMonotone(e, 1, d);
    }
    if e >= d {
      MulMonotone(d, e, d);
    }
    MulMonotone(e, d, e);
  }
}
