/** Integer arithmetic shared by the library: C++ division on `int`,
    divisibility, congruence and powers. */
module Arith {

  function Abs(x: int): nat
  {
    if x < 0 then -x else x
  }

  function Max(a: int, b: int): int
  {
    if a > b then a else b
  }

  function Min(a: int, b: int): int
  {
    if a < b then a else b
  }

  /** C++ `a / b` on `int`: the quotient truncated toward zero. */
  function TDiv(a: int, b: int): (q: int)
    requires b != 0
    ensures Abs(q) == Abs(a) / Abs(b)
    ensures q != 0 ==> (q < 0 <==> (a < 0) != (b < 0))
  {
    var k := Abs(a) / Abs(b);
    DivNonnegative(Abs(a), Abs(b));
    if (a < 0) == (b < 0) then k else -k
  }

  lemma DivNonnegative(x: int, y: int)
    requires x >= 0 && y > 0
    ensures x / y >= 0
  {
    var k, r := x / y, x % y;
    assert x == k * y + r;
    if k < 0 {
      MulNonzeroAtLeast(y, k);
    }
  }

  /** C++ `a % b` on `int`: the remainder that goes with `TDiv`, carrying the
      sign of the dividend. */
  function TMod(a: int, b: int): (r: int)
    requires b != 0
    ensures a == TDiv(a, b) * b + r
    ensures Abs(r) < Abs(b)
    ensures r != 0 ==> (r < 0 <==> a < 0)
  {
    var m, k := Abs(a) % Abs(b), Abs(a) / Abs(b);
    assert Abs(a) == k * Abs(b) + m;
    TDivTimesDivisor(a, b);
    if a < 0 then -m else m
  }

  /** The C++ quotient times the divisor is the Euclidean quotient of the
      magnitudes times the divisor's magnitude, with the dividend's sign. */
  lemma TDivTimesDivisor(a: int, b: int)
    requires b != 0
    ensures var p := (Abs(a) / Abs(b)) * Abs(b);
      TDiv(a, b) * b == if a < 0 then -p else p
  {
    var k: int, d: int := Abs(a) / Abs(b), Abs(b);
    if b < 0 {
      assert b == -d;
      if a < 0 {
        assert TDiv(a, b) == k;
        assert k * b == -(k * d);
      } else {
        assert TDiv(a, b) == -k;
        assert (-k) * b == k * d;
      }
    } else if a < 0 {
      assert TDiv(a, b) == -k;
      assert (-k) * b == -(k * d);
    }
  }

  /** `d` divides `n`: some integer multiple of `d` equals `n`. */
  predicate Divides(d: int, n: int)
  {
    if d == 0 then n == 0 else n % d == 0
  }

  /** `x` and `y` leave the same remainder on division by `m`. */
  predicate Congruent(x: int, y: int, m: int)
  {
    Divides(m, x - y)
  }

  function Pow(b: int, e: nat): int
  {
    if e == 0 then 1 else b * Pow(b, e - 1)
  }

  lemma MulAbs(d: int, t: int)
    ensures Abs(d * t) == Abs(d) * Abs(t)
  {
    if d < 0 && t < 0 {
      assert d * t == (-d) * (-t);
    } else if d < 0 {
      assert d * t == -((-d) * t);
    } else if t < 0 {
      assert d * t == -(d * (-t));
    }
  }

  /** A nonzero multiple of `d` is at least as large as `d` in magnitude. */
  lemma MulNonzeroAtLeast(d: int, t: int)
    requires t != 0
    ensures Abs(d * t) >= Abs(d)
  {
    MulAbs(d, t);
    var a, u: nat := Abs(d), Abs(t) - 1;
    assert a * Abs(t) == a * u + a;
  }

  /** Every multiple of `d` is divisible by `d`. */
  lemma DividesMultiple(d: int, k: int)
    ensures Divides(d, d * k)
  {
    if d != 0 {
      var n := d * k;
      var q, r := n / d, n % d;
      assert r == d * (k - q);
      if k - q != 0 {
        MulNonzeroAtLeast(d, k - q);
      }
    }
  }

  /** Quotient and remainder are determined by `n == q * d + r` with
      `0 <= r < d`. */
  lemma DivModUnique(n: int, d: int, q: int, r: int)
    requires d > 0 && n == q * d + r && 0 <= r < d
    ensures n / d == q && n % d == r
  {
    var q0, r0 := n / d, n % d;
    assert (q - q0) * d == r0 - r;
    if q - q0 != 0 {
      MulNonzeroAtLeast(d, q - q0);
    }
  }

  /** Divisibility gives the cofactor `n / d` back exactly. */
  lemma DividesCofactor(d: int, n: int)
    requires d != 0 && Divides(d, n)
    ensures n == d * (n / d)
  {
  }

  /** Divisibility is closed under integer linear combinations. */
  lemma DividesLinear(d: int, x: int, y: int, a: int, b: int)
    requires Divides(d, x) && Divides(d, y)
    ensures Divides(d, a * x + b * y)
  {
    if d != 0 {
      var kx, ky := x / d, y / d;
      assert a * x + b * y == d * (a * kx + b * ky) by {
        assert x == d * kx && y == d * ky;
      }
      DividesMultiple(d, a * kx + b * ky);
    }
  }

  lemma DividesTransitive(a: int, b: int, c: int)
    requires Divides(a, b) && Divides(b, c)
    ensures Divides(a, c)
  {
    if a != 0 && b != 0 {
      var k := c / b;
      assert c == b * k;
      DividesLinear(a, b, 0, k, 0);
      assert k * b + 0 * 0 == c;
    }
  }

  /** A divisor of a nonzero number is no larger than it in magnitude. */
  lemma DividesBound(d: int, n: int)
    requires n != 0 && Divides(d, n)
    ensures Abs(d) <= Abs(n)
  {
    var k := n / d;
    assert n == d * k;
    MulAbs(d, k);
    MulNonzeroAtLeast(d, k);
  }

  /** Divisibility depends only on the magnitudes. */
  lemma DividesAbs(d: int, n: int)
    ensures Divides(d, n) <==> Divides(Abs(d), Abs(n))
  {
    if Divides(d, n) {
      if d != 0 {
        var k := n / d;
        assert n == d * k;
        MulAbs(d, k);
        DividesMultiple(Abs(d), Abs(k));
      }
    }
    if Divides(Abs(d), Abs(n)) {
      if d != 0 {
        var k := Abs(n) / Abs(d);
        assert Abs(n) == Abs(d) * k;
        var s := if (d < 0) == (n < 0) then k else -k;
        assert n == d * s;
        DividesMultiple(d, s);
      }
    }
  }

  /** Two positive numbers that divide each other are equal. */
  lemma DividesAntisymmetric(a: int, b: int)
    requires a > 0 && b > 0 && Divides(a, b) && Divides(b, a)
    ensures a == b
  {
    DividesBound(a, b);
    DividesBound(b, a);
  }

  /** The C++ remainder is zero exactly when the divisor divides the dividend. */
  lemma TModZeroIffDivides(a: int, b: int)
    requires b != 0
    ensures TMod(a, b) == 0 <==> Divides(b, a)
  {
    DividesAbs(b, a);
  }

  /** When the division is exact, the C++ quotient is the exact cofactor. */
  lemma TDivExact(a: int, b: int)
    requires b != 0 && Divides(b, a)
    ensures TDiv(a, b) * b == a
  {
    TModZeroIffDivides(a, b);
  }

  /** The C++ remainder is congruent to the dividend. */
  lemma TModCongruent(a: int, m: int)
    requires m != 0
    ensures Congruent(TMod(a, m), a, m)
  {
    assert TMod(a, m) - a == m * (-TDiv(a, m));
    DividesMultiple(m, -TDiv(a, m));
  }

  lemma CongruentTransitive(x: int, y: int, z: int, m: int)
    requires Congruent(x, y, m) && Congruent(y, z, m)
    ensures Congruent(x, z, m)
  {
    DividesLinear(m, x - y, y - z, 1, 1);
  }

  /** Congruence is compatible with multiplication. */
  lemma CongruentMul(x1: int, y1: int, x2: int, y2: int, m: int)
    requires Congruent(x1, y1, m) && Congruent(x2, y2, m)
    ensures Congruent(x1 * x2, y1 * y2, m)
  {
    assert x1 * x2 - y1 * y2 == x2 * (x1 - y1) + y1 * (x2 - y2);
    DividesLinear(m, x1 - y1, x2 - y2, x2, y1);
  }

  /** For a positive modulus, congruent numbers have the same Euclidean
      remainder. */
  lemma CongruentSameMod(x: int, y: int, m: int)
    requires m > 0 && Congruent(x, y, m)
    ensures x % m == y % m
  {
    var d := x % m - y % m;
    assert x - y == m * (x / m - y / m) + d;
    DividesMultiple(m, x / m - y / m);
    DividesLinear(m, x - y, m * (x / m - y / m), 1, -1);
    assert Divides(m, d);
    if d != 0 {
      DividesBound(m, d);
    }
  }

  lemma {:induction false} PowAdd(b: int, e1: nat, e2: nat)
    ensures Pow(b, e1 + e2) == Pow(b, e1) * Pow(b, e2)
  {
    if e1 > 0 {
      PowAdd(b, e1 - 1, e2);
      assert Pow(b, e1 + e2) == b * Pow(b, e1 - 1 + e2);
    }
  }

  lemma {:induction false} PowMul(b: int, c: int, e: nat)
    ensures Pow(b * c, e) == Pow(b, e) * Pow(c, e)
  {
    if e > 0 {
      PowMul(b, c, e - 1);
      assert Pow(b * c, e) == (b * c) * (Pow(b, e - 1) * Pow(c, e - 1));
    }
  }

  /** Squaring the base halves the exponent: the step square-and-multiply
      relies on. */
  lemma PowHalve(v: int, e: nat)
    ensures Pow(v, e) == Pow(v * v, e / 2) * (if e % 2 == 1 then v else 1)
  {
    PowMul(v, v, e / 2);
    PowAdd(v, e / 2, e / 2);
    if e % 2 == 1 {
      PowAdd(v, e / 2 + e / 2, 1);
    }
  }

  lemma {:induction false} PowCongruent(x: int, y: int, e: nat, m: int)
    requires Congruent(x, y, m)
    ensures Congruent(Pow(x, e), Pow(y, e), m)
  {
    if e == 0 {
      DividesMultiple(m, 0);
    } else {
      PowCongruent(x, y, e - 1, m);
      CongruentMul(x, y, Pow(x, e - 1), Pow(y, e - 1), m);
    }
  }

  lemma {:induction false} PowNonzero(b: int, e: nat)
    requires b != 0
    ensures Pow(b, e) != 0
  {
    if e > 0 {
      PowNonzero(b, e - 1);
    }
  }
}
