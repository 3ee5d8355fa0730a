/** Greatest common divisor by Euclid's remainder loop, and the coprimality
    test built on it. */
module CommonFactor {
  import opened Arith

  /** One step of Euclid's algorithm keeps the common divisors. */
  lemma EuclidStep(a: int, b: int)
    requires b != 0
    ensures forall d :: Divides(d, a) && Divides(d, b) <==> Divides(d, b) && Divides(d, a % b)
  {
    var q, r := a / b, a % b;
    assert a == q * b + r;
    forall d | Divides(d, a) && Divides(d, b)
      ensures Divides(d, r)
    {
      DividesLinear(d, a, b, 1, -q);
      assert 1 * a + (-q) * b == r;
    }
    forall d | Divides(d, b) && Divides(d, r)
      ensures Divides(d, a)
    {
      DividesLinear(d, b, r, q, 1);
      assert q * b + 1 * r == a;
    }
  }

  /** The greatest common divisor of two naturals, by Euclid's recurrence:
      it divides both, and every common divisor divides it. */
  function Gcd(a: nat, b: nat): (g: nat)
    ensures Divides(g, a) && Divides(g, b)
    ensures forall d :: Divides(d, a) && Divides(d, b) ==> Divides(d, g)
    decreases b
  {
    if b == 0 then
      a
    else
      EuclidStep(a, b);
      Gcd(b, a % b)
  }

  /** The divisor-based description determines the greatest common divisor. */
  lemma GcdUnique(a: nat, b: nat, g: nat)
    requires a != 0 || b != 0
    requires Divides(g, a) && Divides(g, b)
    requires forall d :: Divides(d, a) && Divides(d, b) ==> Divides(d, g)
    ensures g == Gcd(a, b)
  {
    var h := Gcd(a, b);
    assert g != 0 && h != 0;
    DividesAntisymmetric(g, h);
  }

  lemma GcdSymmetric(a: nat, b: nat)
    ensures Gcd(a, b) == Gcd(b, a)
  {
    if a != 0 || b != 0 {
      GcdUnique(b, a, Gcd(a, b));
    }
  }

  /** The value `MaxCommonFactor` returns: -1 when both arguments are zero, the
      other argument (sign kept) when one is zero, otherwise the greatest
      common divisor of the magnitudes. Except for (0, 0) it is a common
      divisor that every common divisor divides. */
  function MaxCommonFactorOf(numa: int, numb: int): (r: int)
    ensures numa == 0 && numb == 0 ==> r == -1
    ensures numa != 0 || numb != 0 ==>
      r != 0 && Divides(r, numa) && Divides(r, numb) &&
      forall d :: Divides(d, numa) && Divides(d, numb) ==> Divides(d, r)
    ensures numa != 0 && numb != 0 ==> r > 0
  {
    if numa == 0 && numb == 0 then
      -1
    else if numa == 0 || numb == 0 then
      DividesMultiple(numa, 1);
      DividesMultiple(numb, 1);
      if numa == 0 then numb else numa
    else
      var g := Gcd(Abs(numa), Abs(numb));
      DividesAbs(g, numa);
      DividesAbs(g, numb);
      forall d | Divides(d, numa) && Divides(d, numb)
        ensures Divides(d, g)
      {
        DividesAbs(d, numa);
        DividesAbs(d, numb);
        DividesAbs(d, g);
      }
      g
  }

  /** The result does not depend on the order of the arguments, nor, when
      both are nonzero, on their signs. */
  lemma MaxCommonFactorUnordered(numa: int, numb: int)
    ensures MaxCommonFactorOf(numa, numb) == MaxCommonFactorOf(numb, numa)
    ensures numa != 0 && numb != 0 ==>
      MaxCommonFactorOf(-numa, numb) == MaxCommonFactorOf(numa, numb) &&
      MaxCommonFactorOf(numa, -numb) == MaxCommonFactorOf(numa, numb)
  {
    GcdSymmetric(Abs(numa), Abs(numb));
  }

  /** Euclid's gcd (MathBase/MathFoundation.hpp:19-38): a remainder loop on the
      magnitudes, larger first. */
  method MaxCommonFactor(numa: int, numb: int) returns (r: int)
    ensures r == MaxCommonFactorOf(numa, numb)
  {
    if numa == 0 && numb == 0 {
      return -1;
    }
    if numa == 0 || numb == 0 {
      return if numa == 0 then numb else numa;
    }
    var a: int := if Abs(numa) > Abs(numb) then Abs(numa) else Abs(numb);
    var b: int := if Abs(numa) < Abs(numb) then Abs(numa) else Abs(numb);
    var rem: int := Abs(numa);
    GcdSymmetric(Abs(numa), Abs(numb));
    while rem != 0
      invariant a > 0 && b >= 0
      invariant rem != 0 ==> b > 0
      invariant rem == 0 ==> b == 0
      invariant Gcd(a, b) == Gcd(Abs(numa), Abs(numb))
      decreases b
    {
      rem := a % b;
      a := b;
      b := rem;
    }
    return a;
  }

  /** For two nonzero numbers, a greatest common divisor of 1 means that no
      number above 1 divides both. */
  lemma GcdOneMeansNoCommonDivisor(numa: int, numb: int)
    requires numa != 0 && numb != 0
    ensures MaxCommonFactorOf(numa, numb) == 1 <==>
      forall d :: d > 1 ==> !(Divides(d, numa) && Divides(d, numb))
  {
    var g := MaxCommonFactorOf(numa, numb);
    if g == 1 {
      forall d | d > 1
        ensures !(Divides(d, numa) && Divides(d, numb))
      {
        if Divides(d, numa) && Divides(d, numb) {
          DividesBound(d, g);
        }
      }
    } else {
      assert g > 1 && Divides(g, numa) && Divides(g, numb);
    }
  }

  /** `isCoprime` (MathBase/MathFoundation.hpp:41-43): the gcd is 1. For two
      nonzero numbers that means no common divisor above 1; when one is zero
      the signed result of `MaxCommonFactor` makes only the other being 1
      count, so (0, -1) is not coprime. */
  function IsCoprime(numa: int, numb: int): (c: bool)
    ensures numa != 0 && numb != 0 ==>
      (c <==> forall d :: d > 1 ==> !(Divides(d, numa) && Divides(d, numb)))
    ensures numa == 0 || numb == 0 ==> (c <==> numa + numb == 1)
  {
    if numa != 0 && numb != 0 then
      GcdOneMeansNoCommonDivisor(numa, numb);
      MaxCommonFactorOf(numa, numb) == 1
    else
      MaxCommonFactorOf(numa, numb) == 1
  }
}
