/** Modular exponentiation by repeated squaring, and the normalisation of a
    Bezout coefficient into a modular inverse. */
module ModularPower {
  import opened Arith
  import opened CommonFactor
  import opened Bezout

  /** One round of square-and-multiply keeps `answer * val^exp` in the same
      residue class: the new answer is congruent to `answer * val` when `exp`
      is odd (to `answer` otherwise), the new `val` to `val * val`, and the
      exponent halves. */
  lemma SquareStep(answer: int, val: int, exp: nat, mod: int, answer2: int, val2: int)
    requires Congruent(answer2, if exp % 2 == 1 then answer * val else answer, mod)
    requires Congruent(val2, val * val, mod)
    ensures Congruent(answer2 * Pow(val2, exp / 2), answer * Pow(val, exp), mod)
  {
    var f := if exp % 2 == 1 then answer * val else answer;
    PowCongruent(val2, val * val, exp / 2, mod);
    CongruentMul(answer2, f, Pow(val2, exp / 2), Pow(val * val, exp / 2), mod);
    PowHalve(val, exp);
    var h := Pow(val * val, exp / 2);
    if exp % 2 == 1 {
      assert f * h == answer * (h * val);
    }
  }

  /** `opeMod` (MathBase/MathFoundation.hpp:147-161): right-to-left
      square-and-multiply with the C++ remainder, which can be negative for a
      negative base; a final loop adds `mod` until the answer is positive and
      the result is its remainder. The result is `base^exp` reduced into
      `[0, mod)`. A zero `mod` divides by zero and a negative one can make the
      final loop run forever, so `mod` must be positive. */
  method OpeMod(base: int, exp: int, mod: int) returns (r: int)
    requires mod > 0 && exp >= 0
    ensures 0 <= r < mod
    ensures r == Pow(base, exp) % mod
  {
    var answer := 1;
    var val := TMod(base, mod);
    var e: nat := exp;
    TModCongruent(base, mod);
    PowCongruent(val, base, exp, mod);
    assert answer * Pow(val, e) == Pow(val, exp);
    while e != 0
      invariant Congruent(answer * Pow(val, e), Pow(base, exp), mod)
    {
      var answer2 := answer;
      if e % 2 == 1 {
        answer2 := TMod(answer * val, mod);
        TModCongruent(answer * val, mod);
      } else {
        DividesMultiple(mod, 0);
      }
      var val2 := TMod(val * val, mod);
      TModCongruent(val * val, mod);
      SquareStep(answer, val, e, mod, answer2, val2);
      CongruentTransitive(answer2 * Pow(val2, e / 2), answer * Pow(val, e), Pow(base, exp), mod);
      answer, val, e := answer2, val2, e / 2;
    }
    assert Congruent(answer, Pow(base, exp), mod);
    while answer <= 0
      invariant Congruent(answer, Pow(base, exp), mod)
      decreases -answer
    {
      DividesLinear(mod, answer - Pow(base, exp), mod, 1, 1);
      answer := answer + mod;
    }
    r := answer % mod;
    CongruentSameMod(answer, Pow(base, exp), mod);
  }

  /** The normalisation loop of the modular-inverse tool `opeE`
      (MathBase/MathFoundation.hpp:179-181): add the modulus to the Bezout
      coefficient until it is positive. A positive coefficient is left as
      it is; otherwise the result lies in `(0, modx]` and is congruent to the
      coefficient. */
  method InverseNormalise(answer: int, modx: int) returns (r: int)
    requires modx > 0 || answer > 0
    ensures r > 0
    ensures answer > 0 ==> r == answer
    ensures answer <= 0 ==> r <= modx
    ensures Congruent(r, answer, modx)
  {
    r := answer;
    DividesMultiple(modx, 0);
    while r <= 0
      invariant answer > 0 ==> r == answer
      invariant answer <= 0 ==> r <= modx
      invariant Congruent(r, answer, modx)
      decreases -r
    {
      DividesLinear(modx, r - answer, modx, 1, 1);
      r := r + modx;
    }
  }

  /** What `opeE` computes: the normalised Bezout coefficient of `origin`
      times `origin` is congruent modulo `modx` to their greatest common
      divisor, so it is the inverse of `origin` when the two are coprime. */
  lemma InverseFromBezout(origin: int, modx: int, r: int)
    requires origin > 0 && modx > 0
    requires Congruent(r, BezoutPair(origin, modx).0, modx)
    ensures Congruent(r * origin, MaxCommonFactorOf(origin, modx), modx)
    ensures IsCoprime(origin, modx) ==> Congruent(r * origin, 1, modx)
  {
    var (s, t) := BezoutPair(origin, modx);
    BezoutPairIdentity(origin, modx);
    DividesMultiple(modx, origin);
    CongruentMul(r, s, origin, origin, modx);
    assert s * origin - MaxCommonFactorOf(origin, modx) == modx * (-t);
    DividesMultiple(modx, -t);
    CongruentTransitive(r * origin, s * origin, MaxCommonFactorOf(origin, modx), modx);
  }
}
