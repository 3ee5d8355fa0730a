/** The extended Euclidean algorithm: Bezout coefficients found by recording
    the division chain and substituting back from its end. */
module Bezout {
  import opened Arith
  import opened CommonFactor

  /** The quotients of Euclid's division chain of `a` by `b`, one per step
      whose remainder is nonzero. */
  function Quotients(a: nat, b: nat): seq<int>
    requires b > 0
    decreases b
  {
    if a % b == 0 then [] else [a / b] + Quotients(b, a % b)
  }

  /** Coefficients `(x, y)` obtained by substituting the quotient chain
      `qs[k..]` back from its last step to its first: `(0, 1)` for an empty
      chain, and one step `r = a - q * b` turns the coefficients `(x, y)` of
      `(b, r)` into `(y, x - q * y)` for `(a, b)`. */
  function BackSubstitute(qs: seq<int>, k: nat): (int, int)
    requires k <= |qs|
    decreases |qs| - k
  {
    if k == |qs| then
      (0, 1)
    else
      var c := BackSubstitute(qs, k + 1);
      (c.1, c.0 - qs[k] * c.1)
  }

  /** Back-substitution only looks at the chain from position `k` on. */
  lemma {:induction false} BackSubstituteSuffix(q: int, qs: seq<int>, k: nat)
    requires k <= |qs|
    ensures BackSubstitute([q] + qs, k + 1) == BackSubstitute(qs, k)
    decreases |qs| - k
  {
    if k < |qs| {
      BackSubstituteSuffix(q, qs, k + 1);
      assert ([q] + qs)[k + 1] == qs[k];
    }
  }

  /** The extended Euclidean coefficients of `(a, b)`, `x` for `a` and `y`
      for `b`. */
  function ExtGcd(a: nat, b: nat): (int, int)
    requires b > 0
  {
    BackSubstitute(Quotients(a, b), 0)
  }

  /** Bezout's identity for the back-substituted coefficients. */
  lemma {:induction false} ExtGcdIdentity(a: nat, b: nat)
    requires b > 0
    decreases b
    ensures ExtGcd(a, b).0 * a + ExtGcd(a, b).1 * b == Gcd(a, b)
  {
    if a % b == 0 {
      assert Gcd(a, b) == Gcd(b, 0) == b;
    } else {
      var q, r := a / b, a % b;
      ExtGcdIdentity(b, r);
      var x, y := ExtGcd(b, r).0, ExtGcd(b, r).1;
      BackSubstituteSuffix(q, Quotients(b, r), 0);
      assert ExtGcd(a, b) == (y, x - q * y);
      SubstituteQuotient(a, b, q, r, x, y);
    }
  }

  /** Replacing `r` by `a - q * b` in `x * b + y * r`. */
  lemma SubstituteQuotient(a: int, b: int, q: int, r: int, x: int, y: int)
    requires a == q * b + r
    ensures y * a + (x - q * y) * b == x * b + y * r
  {
    assert y * a == (q * y) * b + y * r;
    assert (x - q * y) * b == x * b - (q * y) * b;
  }

  /** The division chain of the magnitudes, larger by smaller, has at least
      two nonzero remainders; otherwise `BezoutEquation` reads past the end of
      its quotient vector or of its coefficient vector. */
  predicate ChainHasTwoRemainders(a: int, b: int)
  {
    a != 0 && b != 0 &&
    var big, small := Max(Abs(a), Abs(b)), Min(Abs(a), Abs(b));
    big % small != 0 && small % (big % small) != 0
  }

  /** The inputs on which `BezoutEquation` stays inside its vectors. */
  predicate BezoutDefined(a: int, b: int)
  {
    a == 0 || b == 0 || ChainHasTwoRemainders(a, b)
  }

  /** The pair `(s, t)` that `BezoutEquation` produces: `(0, 0)` for two
      zeros, a 1 on the nonzero side when one input is zero, otherwise the
      coefficients of the magnitudes, that of the smaller magnitude going to
      `s` when `a < b` and to `t` otherwise. */
  function BezoutPair(a: int, b: int): (int, int)
  {
    if a == 0 && b == 0 then
      (0, 0)
    else if a == 0 || b == 0 then
      (if a == 0 then 0 else 1, if b == 0 then 0 else 1)
    else
      var c := ExtGcd(Max(Abs(a), Abs(b)), Min(Abs(a), Abs(b)));
      if a < b then (c.1, c.0) else (c.0, c.1)
  }

  /** Bezout's identity as the source pairs the coefficients: when both inputs
      are nonzero it holds of the magnitudes, the coefficient chosen by the
      signed comparison `a < b` multiplying the smaller magnitude. */
  lemma BezoutPairMagnitudes(a: int, b: int)
    requires a != 0 && b != 0
    ensures var st := BezoutPair(a, b);
      (if a < b then st.0 else st.1) * Min(Abs(a), Abs(b)) +
      (if a < b then st.1 else st.0) * Max(Abs(a), Abs(b)) == MaxCommonFactorOf(a, b)
  {
    var big, small := Max(Abs(a), Abs(b)), Min(Abs(a), Abs(b));
    ExtGcdIdentity(big, small);
    GcdSymmetric(Abs(a), Abs(b));
  }

  /** `s * a + t * b` is the value `MaxCommonFactor` returns whenever both
      inputs are positive or exactly one is zero. */
  lemma BezoutPairIdentity(a: int, b: int)
    requires (a > 0 && b > 0) || ((a == 0) != (b == 0))
    ensures BezoutPair(a, b).0 * a + BezoutPair(a, b).1 * b == MaxCommonFactorOf(a, b)
  {
    if a > 0 && b > 0 {
      BezoutPairMagnitudes(a, b);
    }
  }

  /** Exchanging the inputs exchanges the coefficients, unless the inputs are
      the same nonzero number. */
  lemma BezoutPairSwap(a: int, b: int)
    requires a != b || a == 0
    ensures BezoutPair(b, a) == (BezoutPair(a, b).1, BezoutPair(a, b).0)
  {
  }

  /** The sequence in reverse order, as `std::reverse` leaves a vector. */
  function Reversed(s: seq<int>): seq<int>
  {
    seq(|s|, i requires 0 <= i < |s| => s[|s| - 1 - i])
  }

  /** Under the precondition the chain of the magnitudes has at least two
      quotients with nonzero remainder. */
  lemma TwoRemaindersChain(big: nat, small: nat)
    requires small > 0 && big % small != 0 && small % (big % small) != 0
    ensures |Quotients(big, small)| >= 2
  {
    var r := big % small;
    assert Quotients(big, small) == [big / small] + Quotients(small, r);
    assert Quotients(small, r) == [small / r] + Quotients(r, small % r);
  }

  /** The coefficients back-substituted along the chain of the magnitudes,
      paired with the inputs by `a < b`, are `BezoutPair(a, b)`. */
  lemma PairFromChain(a: int, b: int, x: int, y: int, s: int, t: int)
    requires a != 0 && b != 0
    requires (x, y) == BackSubstitute(Quotients(Max(Abs(a), Abs(b)), Min(Abs(a), Abs(b))), 0)
    requires s == (if a < b then y else x) && t == (if a < b then x else y)
    ensures (s, t) == BezoutPair(a, b)
    ensures a > 0 && b > 0 ==> s * a + t * b == MaxCommonFactorOf(a, b)
  {
    if a > 0 && b > 0 {
      BezoutPairIdentity(a, b);
    }
  }

  /** The division chain of `BezoutEquation` (MathBase/MathFoundation.hpp:67-79):
      the vectors `va`, `vb`, `vq`, `vr` record `va[k] = vq[k] * vb[k] + vr[k]`
      with `va[k + 1] = vb[k]` and `vb[k + 1] = vr[k]`, until a zero
      remainder; the quotient of that last step is then dropped, leaving the
      quotients of the steps with a nonzero remainder. */
  method DivisionChain(big: int, small: int) returns (vq: seq<int>)
    requires big >= 0 && small > 0
    ensures vq == Quotients(big, small)
  {
    var va: seq<int> := [big];
    var vb: seq<int> := [small];
    vq := [];
    var vr: seq<int> := [];
    while true
      invariant |va| == |vb| == |vq| + 1 && |vr| == |vq|
      invariant va[|va| - 1] >= 0 && vb[|vb| - 1] > 0
      invariant Quotients(big, small) == vq + Quotients(va[|va| - 1], vb[|vb| - 1])
      decreases vb[|vb| - 1]
    {
      vq := vq + [va[|va| - 1] / vb[|vb| - 1]];
      vr := vr + [va[|va| - 1] % vb[|vb| - 1]];
      if vr[|vr| - 1] == 0 {
        break;
      }
      va := va + [vb[|vb| - 1]];
      vb := vb + [vr[|vr| - 1]];
    }
    vq := vq[..|vq| - 1];
  }

  /** The back-substitution of `BezoutEquation` (MathBase/MathFoundation.hpp:80-93):
      the quotient vector is reversed, `ans` starts as `[-vq[0], 1]`, each step
      rewrites `ans[i]` and appends `ans[i - 1]`, and finally the last entry is
      dropped and `ans` reversed. Then `ans[1]` and `ans[0]` are the
      coefficients `BackSubstitute` gives the first and second number of the
      chain. The source reads `vq[0]` and, after the drop, `ans[1]`, so the
      chain needs two quotients. */
  method BackSubstitution(chain: seq<int>) returns (ans: seq<int>)
    requires |chain| >= 2
    ensures |ans| == |chain| && (ans[1], ans[0]) == BackSubstitute(chain, 0)
  {
    var m := |chain|;
    var vq := Reversed(chain);
    ans := [-vq[0], 1];
    for i := 1 to |vq|
      invariant |ans| == i + 1
      invariant (ans[i], ans[i - 1]) == BackSubstitute(chain, m - i)
      invariant i >= 2 ==> ans[i] == ans[i - 2]
    {
      ghost var x, y := ans[i], ans[i - 1];
      assert vq[i] == chain[m - 1 - i];
      ans := ans[i := ans[i] - ans[i - 1] * vq[i]];
      ans := ans + [ans[i - 1]];
      assert ans[i + 1] == y && ans[i] == x - vq[i] * y;
    }
    ans := ans[..|ans| - 1];
    ans := Reversed(ans);
  }

  /** `BezoutEquation` (MathBase/MathFoundation.hpp:47-103): the special cases
      for a zero input, then the division chain of the magnitudes, larger by
      smaller, substituted back; the coefficient of the smaller magnitude goes
      to `s` when `a < b` and to `t` otherwise. */
  method BezoutEquation(a: int, b: int) returns (s: int, t: int)
    requires BezoutDefined(a, b)
    ensures (s, t) == BezoutPair(a, b)
    ensures (a > 0 && b > 0) || ((a == 0) != (b == 0)) ==> s * a + t * b == MaxCommonFactorOf(a, b)
  {
    if a == 0 || b == 0 {
      if a == 0 && b == 0 {
        s, t := 0, 0;
        return;
      }
      s := if a == 0 then 0 else 1;
      t := if b == 0 then 0 else 1;
      BezoutPairIdentity(a, b);
      return;
    }
    var big := if Abs(a) > Abs(b) then Abs(a) else Abs(b);
    var small := if Abs(a) < Abs(b) then Abs(a) else Abs(b);
    assert big == Max(Abs(a), Abs(b)) && small == Min(Abs(a), Abs(b));
    var vq := DivisionChain(big, small);
    TwoRemaindersChain(big, small);
    var ans := BackSubstitution(vq);
    s := if a < b then ans[0] else ans[1];
    t := if a < b then ans[1] else ans[0];
    PairFromChain(a, b, ans[1], ans[0], s, t);
  }
}
