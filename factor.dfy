/** Multiplicity of a factor and factorisation into prime powers. */
module Factorization {
  import opened Arith
  import opened CommonFactor
  import opened Bezout
  import opened Primality

  /** Cancelling a nonzero common factor keeps divisibility. */
  lemma DividesCancel(a: int, b: int, c: int)
    requires c != 0 && Divides(a * c, b * c)
    ensures Divides(a, b)
  {
    if a != 0 {
      var k := (b * c) / (a * c);
      assert b * c == (a * c) * k;
      assert (b - a * k) * c == 0;
      assert b == a * k;
      DividesMultiple(a, k);
    } else {
      assert b * c == 0;
    }
  }

  /** One division of the `countFactor` loop: the quotient is nonzero,
      smaller in magnitude, and moves one factor into the power. */
  lemma DivideOut(number: int, n: int, factor: int, exp: nat)
    requires n != 0 && Abs(factor) >= 2 && TMod(n, factor) == 0
    requires number == n * Pow(factor, exp)
    ensures TDiv(n, factor) != 0 && Abs(TDiv(n, factor)) < Abs(n)
    ensures number == TDiv(n, factor) * Pow(factor, exp + 1)
  {
    TModZeroIffDivides(n, factor);
    TDivExact(n, factor);
    var n2 := TDiv(n, factor);
    assert n == n2 * factor;
    QuotientSmaller(n2, factor);
    MulAssociative(n2, factor, Pow(factor, exp));
  }

  lemma MulAssociative(a: int, b: int, c: int)
    ensures (a * b) * c == a * (b * c)
  {
  }

  lemma MulRotate(a: int, b: int, c: int)
    ensures a * (b * c) == (c * a) * b
  {
    MulAssociative(a, b, c);
    assert a * b == b * a;
    MulAssociative(b, a, c);
    assert a * c == c * a;
  }

  lemma QuotientSmaller(q: int, factor: int)
    requires q * factor != 0 && Abs(factor) >= 2
    ensures Abs(q) < Abs(q * factor)
  {
    MulAbs(q, factor);
    MulGrows(Abs(q), Abs(factor));
  }

  lemma MulGrows(a: int, f: int)
    requires a > 0 && f >= 2
    ensures a < a * f
  {
    assert a * f == a * (f - 2) + 2 * a;
    assert a * (f - 2) >= 0;
  }

  /** When `factor` no longer divides the cofactor `n`, no higher power of
      it divides `number`. */
  lemma MultiplicityExact(number: int, n: int, factor: int, exp: nat)
    requires Abs(factor) >= 2 && !Divides(factor, n)
    requires number == n * Pow(factor, exp)
    ensures Divides(Pow(factor, exp), number)
    ensures !Divides(Pow(factor, exp + 1), number)
  {
    DividesMultiple(Pow(factor, exp), n);
    assert Pow(factor, exp) * n == number;
    if Divides(Pow(factor, exp + 1), number) {
      PowNonzero(factor, exp);
      assert factor * Pow(factor, exp) == Pow(factor, exp + 1);
      DividesCancel(factor, n, Pow(factor, exp));
    }
  }

  /** `countFactor` (MathBase/MathFoundation.hpp:211-219): divide `number` by
      `factor` while the C++ remainder is zero, counting the divisions. The
      count `k` is the multiplicity: `factor^k` divides `number` and
      `factor^(k+1)` does not. A zero `number` or a factor of magnitude below
      2 never leaves the loop (or divides by zero). */
  method CountFactor(number: int, factor: int) returns (exp: nat)
    requires number != 0 && Abs(factor) >= 2
    ensures Divides(Pow(factor, exp), number)
    ensures !Divides(Pow(factor, exp + 1), number)
  {
    exp := 0;
    var n := number;
    while TMod(n, factor) == 0
      invariant n != 0
      invariant number == n * Pow(factor, exp)
      decreases Abs(n)
    {
      DivideOut(number, n, factor, exp);
      exp := exp + 1;
      n := TDiv(n, factor);
    }
    TModZeroIffDivides(n, factor);
    MultiplicityExact(number, n, factor, exp);
  }

  /** Scaling both sides keeps divisibility. */
  lemma DividesScale(d: int, n: int, c: int)
    requires Divides(d, n)
    ensures Divides(d * c, n * c)
  {
    if d != 0 {
      var m := n / d;
      assert n == d * m;
      assert n * c == (d * c) * m;
      DividesMultiple(d * c, m);
    }
  }

  lemma {:induction false} PowPositive(b: int, e: nat)
    requires b > 0
    ensures Pow(b, e) > 0
  {
    if e > 0 {
      PowPositive(b, e - 1);
    }
  }

  /** Euclid's lemma: a prime dividing a product divides one of the factors.
      The proof goes through Bezout's identity for the prime and the first
      factor, whose greatest common divisor is 1 when the prime does not
      divide it. */
  lemma EuclidLemma(p: int, a: int, b: int)
    requires Prime(p) && Divides(p, a * b)
    ensures Divides(p, a) || Divides(p, b)
  {
    if !Divides(p, a) {
      GcdWithPrime(p, a);
      ExtGcdIdentity(p, Abs(a));
      var x, y := ExtGcd(p, Abs(a)).0, ExtGcd(p, Abs(a)).1;
      var y2 := if a < 0 then -y else y;
      assert y2 * a == y * Abs(a);
      UnitCombination(p, a, b, x, y2);
    }
  }

  /** A prime that does not divide `a` has greatest common divisor 1 with
      it. */
  lemma GcdWithPrime(p: int, a: int)
    requires Prime(p) && !Divides(p, a)
    ensures Abs(a) > 0 && Gcd(p, Abs(a)) == 1
  {
    var g := Gcd(p, Abs(a));
    DividesAbs(p, a);
    assert Divides(g, p);
    if g != 1 {
      DividesBound(g, p);
    }
  }

  /** If `x * p + y * a == 1` then `b` is a combination of `p` and `a * b`,
      so `p` dividing `a * b` divides `b`. */
  lemma UnitCombination(p: int, a: int, b: int, x: int, y: int)
    requires x * p + y * a == 1 && Divides(p, a * b)
    ensures Divides(p, b)
  {
    DividesMultiple(p, 1);
    DividesLinear(p, p, a * b, x * b, y);
    calc {
      (x * b) * p + y * (a * b);
      { MulAssociative(x, b, p); MulAssociative(y, a, b); }
      b * (x * p) + b * (y * a);
      b * (x * p + y * a);
    }
  }

  /** A power of a prime that divides `a * c`, where the prime does not
      divide `c`, divides `a`. */
  lemma {:induction false} PrimePowerDividesProduct(p: int, k: nat, a: int, c: int)
    requires Prime(p) && !Divides(p, c) && Divides(Pow(p, k), a * c)
    ensures Divides(Pow(p, k), a)
  {
    if k == 0 {
      DividesMultiple(1, a);
    } else {
      var q := Pow(p, k - 1);
      assert Pow(p, k) == p * q;
      DividesMultiple(p, q);
      DividesTransitive(p, Pow(p, k), a * c);
      EuclidLemma(p, a, c);
      var a1 := a / p;
      DividesCofactor(p, a);
      assert a * c == (a1 * c) * p by {
        MulAssociative(p, a1, c);
      }
      assert Pow(p, k) == q * p;
      DividesCancel(q, a1 * c, p);
      PrimePowerDividesProduct(p, k - 1, a1, c);
      DividesScale(q, a1, p);
      assert a1 * p == a;
    }
  }

  /** A prime does not divide a power of a smaller prime. */
  lemma {:induction false} PrimeNotDividesPow(p: int, q: int, e: nat)
    requires Prime(p) && Prime(q) && q < p
    ensures !Divides(p, Pow(q, e))
  {
    if e == 0 {
      if Divides(p, 1) {
        DividesBound(p, 1);
      }
    } else {
      PrimeNotDividesPow(p, q, e - 1);
      if Divides(p, Pow(q, e)) {
        EuclidLemma(p, q, Pow(q, e - 1));
        DividesBound(p, q);
      }
    }
  }

  /** The product of `fs[k]^es[k]` over the two parallel lists. */
  function Product(fs: seq<int>, es: seq<nat>): int
    requires |fs| == |es|
  {
    if |fs| == 0 then 1 else Product(fs[..|fs| - 1], es[..|es| - 1]) * Pow(fs[|fs| - 1], es[|es| - 1])
  }

  /** Appending a prime power to the lists multiplies the product by it. */
  lemma ProductAppend(fs: seq<int>, es: seq<nat>, f: int, e: nat)
    requires |fs| == |es|
    ensures Product(fs + [f], es + [e]) == Product(fs, es) * Pow(f, e)
  {
    assert (fs + [f])[..|fs|] == fs;
    assert (es + [e])[..|es|] == es;
  }

  /** A prime above every prime of the lists does not divide their product. */
  lemma {:induction false} PrimeNotDividesProduct(p: int, fs: seq<int>, es: seq<nat>)
    requires |fs| == |es| && Prime(p)
    requires forall k :: 0 <= k < |fs| ==> Prime(fs[k]) && fs[k] < p
    ensures !Divides(p, Product(fs, es))
  {
    if |fs| == 0 {
      if Divides(p, 1) {
        DividesBound(p, 1);
      }
    } else {
      var n := |fs| - 1;
      PrimeNotDividesProduct(p, fs[..n], es[..n]);
      PrimeNotDividesPow(p, fs[n], es[n]);
      if Divides(p, Product(fs, es)) {
        EuclidLemma(p, Product(fs[..n], es[..n]), Pow(fs[n], es[n]));
      }
    }
  }

  /** Every number from 2 on has a prime divisor no larger than itself. */
  lemma PrimeDivisor(n: int) returns (p: int)
    requires n >= 2
    ensures Prime(p) && p <= n && Divides(p, n)
    decreases n
  {
    if Prime(n) {
      DividesMultiple(n, 1);
      p := n;
    } else {
      var d :| 1 < d < n && Divides(d, n);
      p := PrimeDivisor(d);
      DividesTransitive(p, d, n);
    }
  }

  /** The bookkeeping behind one prime power found by `FindFactor`: with
      `number = rest * Product(fs, es)`, no prime below `p` dividing `rest`
      and every prime in `fs` below `p`, the full power `p^e` of `number`
      comes out of `rest`, and what is left has no prime up to `p`. */
  lemma NextPrimePower(number: int, rest: int, fs: seq<int>, es: seq<nat>, p: int, e: nat)
    returns (rest2: int)
    requires |fs| == |es| && rest >= 1 && rest * Product(fs, es) == number
    requires Prime(p) && forall k :: 0 <= k < |fs| ==> Prime(fs[k]) && fs[k] < p
    requires forall q :: Prime(q) && q < p ==> !Divides(q, rest)
    requires Divides(Pow(p, e), number) && !Divides(Pow(p, e + 1), number)
    ensures rest2 >= 1 && rest2 * Product(fs + [p], es + [e]) == number
    ensures forall q :: Prime(q) && q <= p ==> !Divides(q, rest2)
  {
    var prod := Product(fs, es);
    var pe := Pow(p, e);
    PrimeNotDividesProduct(p, fs, es);
    PrimePowerDividesProduct(p, e, rest, prod);
    PowPositive(p, e);
    DividesCofactor(pe, rest);
    rest2 := rest / pe;
    assert rest == pe * rest2;
    ProductAppend(fs, es, p, e);
    MulRotate(rest2, prod, pe);
    DividesMultiple(rest2, pe);
    DividesMultiple(rest, prod);
    forall q | Prime(q) && q <= p
      ensures !Divides(q, rest2)
    {
      if Divides(q, rest2) {
        DividesTransitive(q, rest2, rest);
        if q == p {
          DividesScale(p, rest2, pe);
          assert Pow(p, e + 1) == p * pe;
          DividesTransitive(Pow(p, e + 1), rest, number);
        }
      }
    }
  }

  /** Once no prime up to `number` divides the cofactor `rest` of `number`,
      `rest` is 1. */
  lemma NothingLeft(number: int, rest: int, prod: int)
    requires number >= 1 && rest >= 1 && rest * prod == number
    requires forall q :: Prime(q) && q <= number ==> !Divides(q, rest)
    ensures rest == 1 && prod == number
  {
    if rest >= 2 {
      DividesMultiple(rest, prod);
      DividesBound(rest, number);
      var q := PrimeDivisor(rest);
    }
  }

  /** A prime that does not divide `number` does not divide a divisor
      `rest` of it. */
  lemma NotDividesDivisor(q: int, rest: int, prod: int, number: int)
    requires rest * prod == number && !Divides(q, number)
    ensures !Divides(q, rest)
  {
    DividesMultiple(rest, prod);
    if Divides(q, rest) {
      DividesTransitive(q, rest, number);
    }
  }

  /** `f` is a prime dividing `number`, and `e` (at least 1) is its
      multiplicity: `f^e` divides `number` and `f^(e+1)` does not. */
  ghost predicate PrimePowerOf(f: int, e: nat, number: int)
  {
    Prime(f) && Divides(f, number) && e >= 1 &&
    Divides(Pow(f, e), number) && !Divides(Pow(f, e + 1), number)
  }

  /** The state of `findFactor` once every candidate up to `upto` has been
      tried, for `number >= 1`: the lists hold, in ascending order, exactly
      the primes up to `upto` that divide `number`, each with its
      multiplicity, and the cofactor `rest` left after dividing their powers
      out of `number` has no prime divisor up to `upto`. */
  ghost predicate Scanned(number: int, upto: int, factors: seq<int>, exps: seq<nat>, rest: int)
  {
    |factors| == |exps| &&
    (forall i, j :: 0 <= i < j < |factors| ==> factors[i] < factors[j]) &&
    (forall k :: 0 <= k < |factors| ==> factors[k] <= upto && PrimePowerOf(factors[k], exps[k], number)) &&
    (forall p :: Prime(p) && p <= upto && Divides(p, number) ==> p in factors) &&
    rest >= 1 && rest * Product(factors, exps) == number &&
    (forall q :: Prime(q) && q <= upto ==> !Divides(q, rest))
  }

  /** A candidate that is not a prime divisor of `number` is skipped. */
  lemma ScanSkip(number: int, factor: int, factors: seq<int>, exps: seq<nat>, rest: int)
    requires Scanned(number, factor - 1, factors, exps, rest)
    requires !Prime(factor) || !Divides(factor, number)
    ensures Scanned(number, factor, factors, exps, rest)
  {
    if Prime(factor) {
      NotDividesDivisor(factor, rest, Product(factors, exps), number);
    }
  }

  /** A prime divisor of `number` is appended with its multiplicity, and its
      power leaves the cofactor. */
  lemma ScanAdd(number: int, factor: int, factors: seq<int>, exps: seq<nat>, rest: int, e: nat)
    returns (rest2: int)
    requires Scanned(number, factor - 1, factors, exps, rest)
    requires Prime(factor) && Divides(factor, number)
    requires Divides(Pow(factor, e), number) && !Divides(Pow(factor, e + 1), number)
    ensures Scanned(number, factor, factors + [factor], exps + [e], rest2)
  {
    ListsExtend(number, factor, factors, exps, e);
    rest2 := NextPrimePower(number, rest, factors, exps, factor, e);
  }

  /** The list part of `ScanAdd`: the appended prime keeps the lists
      ascending, is a prime power of `number`, and completes the primes up
      to `factor`. */
  lemma ListsExtend(number: int, factor: int, factors: seq<int>, exps: seq<nat>, e: nat)
    requires |factors| == |exps|
    requires forall i, j :: 0 <= i < j < |factors| ==> factors[i] < factors[j]
    requires forall k :: 0 <= k < |factors| ==> factors[k] <= factor - 1 && PrimePowerOf(factors[k], exps[k], number)
    requires forall p :: Prime(p) && p <= factor - 1 && Divides(p, number) ==> p in factors
    requires Prime(factor) && Divides(factor, number)
    requires Divides(Pow(factor, e), number) && !Divides(Pow(factor, e + 1), number)
    ensures var fs, es := factors + [factor], exps + [e];
      (forall i, j :: 0 <= i < j < |fs| ==> fs[i] < fs[j]) &&
      (forall k :: 0 <= k < |fs| ==> fs[k] <= factor && PrimePowerOf(fs[k], es[k], number)) &&
      (forall p :: Prime(p) && p <= factor && Divides(p, number) ==> p in fs)
  {
    assert Pow(factor, 1) == factor;
    assert PrimePowerOf(factor, e, number);
  }

  /** The prime factorisation of `number` as two parallel lists: ascending
      primes, each a divisor of `number` given with its exact multiplicity;
      for `number >= 1` every prime divisor is listed and the prime powers
      multiply to `number`, and for `number <= 1` both lists are empty. */
  ghost predicate IsFactorisation(number: int, factors: seq<int>, exps: seq<nat>)
  {
    |factors| == |exps| &&
    (forall i, j :: 0 <= i < j < |factors| ==> factors[i] < factors[j]) &&
    (forall k :: 0 <= k < |factors| ==> PrimePowerOf(factors[k], exps[k], number)) &&
    (number >= 1 ==> forall p :: Prime(p) && Divides(p, number) ==> p in factors) &&
    (number >= 1 ==> Product(factors, exps) == number) &&
    (number <= 1 ==> factors == [] && exps == [])
  }

  /** Once every candidate up to `number + 1` has been tried, the lists are
      the whole factorisation. */
  lemma ScanComplete(number: int, factors: seq<int>, exps: seq<nat>, rest: int)
    requires number >= 1 && Scanned(number, number + 1, factors, exps, rest)
    ensures IsFactorisation(number, factors, exps)
  {
    NothingLeft(number, rest, Product(factors, exps));
    AllPrimeDivisorsListed(number, factors, exps, rest);
    if number == 1 && |factors| > 0 {
      OneHasNoPrimeDivisor(factors[0], exps[0]);
    }
  }

  /** Numbers below 1 have the empty factorisation. */
  lemma EmptyFactorisation(number: int)
    requires number <= 0
    ensures IsFactorisation(number, [], [])
  {
  }

  lemma AllPrimeDivisorsListed(number: int, factors: seq<int>, exps: seq<nat>, rest: int)
    requires number >= 1 && Scanned(number, number + 1, factors, exps, rest)
    ensures forall p :: Prime(p) && Divides(p, number) ==> p in factors
  {
    forall p | Prime(p) && Divides(p, number)
      ensures p in factors
    {
      DividesBound(p, number);
    }
  }

  lemma OneHasNoPrimeDivisor(f: int, e: nat)
    ensures !PrimePowerOf(f, e, 1)
  {
    if Prime(f) && Divides(f, 1) {
      DividesBound(f, 1);
    }
  }

  /** `findFactor` (MathBase/MathFoundation.hpp:186-198): for each `factor`
      from 2 up to `number` that passes `IsPrime` and divides `number`,
      append it and its multiplicity from `CountFactor` to two parallel
      lists. The lists are the prime factorisation of `number`: ascending
      primes dividing it, each with its exact multiplicity, every prime
      divisor present, and for `number >= 1` the product of the prime powers
      gives `number` back. For `number <= 1` both lists stay empty. */
  method FindFactor(number: int) returns (factors: seq<int>, exps: seq<nat>)
    ensures |factors| == |exps|
    ensures forall i, j :: 0 <= i < j < |factors| ==> factors[i] < factors[j]
    ensures forall k :: 0 <= k < |factors| ==> PrimePowerOf(factors[k], exps[k], number)
    ensures number >= 1 ==> forall p :: Prime(p) && Divides(p, number) ==> p in factors
    ensures number >= 1 ==> Product(factors, exps) == number
    ensures number <= 1 ==> factors == [] && exps == []
  {
    var factor := 1;
    factors, exps := [], [];
    ghost var rest := number;
    while factor <= number
      invariant 1 <= factor && (number >= 1 ==> factor <= number + 1)
      invariant number <= 0 ==> factor == 1 && factors == [] && exps == []
      invariant |factors| == |exps|
      invariant number >= 1 ==> Scanned(number, factor, factors, exps, rest)
      decreases number - factor
    {
      factor := factor + 1;
      var isPrime := IsPrime(factor);
      TrialDivisionDecidesPrimality(factor);
      if !isPrime {
        ScanSkip(number, factor, factors, exps, rest);
        continue;
      }
      if number % factor != 0 {
        ScanSkip(number, factor, factors, exps, rest);
        continue;
      }
      var e := CountFactor(number, factor);
      rest := ScanAdd(number, factor, factors, exps, rest, e);
      factors := factors + [factor];
      exps := exps + [e];
    }
    if number >= 1 {
      ScanComplete(number, factors, exps, rest);
    } else {
      EmptyFactorisation(number);
    }
  }
}
