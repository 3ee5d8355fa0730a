# MathFoundation in Dafny

A verified model of `MathBase/MathFoundation.hpp`. This header is a small library of elementary number theory on C++ `int`s, written for an information-security mathematics course. It contains:

- Euclid's greatest common divisor (`MaxCommonFactor`) and the coprimality test built on it (`isCoprime`).
- The extended Euclidean algorithm (`BezoutEquation`). It records the division chain in vectors, substitutes back through an `ans` vector, and reverses it.
- Division by repeated subtraction (`EuclidDivide`) and trial-division primality (`isPrime`).
- Right-to-left square-and-multiply modular exponentiation (`opeMod`), and the loop of the modular-inverse tool `opeE` that makes a Bezout coefficient positive.
- The multiplicity of a factor (`countFactor`) and prime factorisation into two parallel lists (`findFactor`).
- Solvability of `factor1 * x + factor2 * y == rightValue` with a particular solution (`DiophantineEquation`).

The routines in the source are imperative, and so is the model.

- **Loops and state.** Each loop becomes a Dafny `method` with loop invariants. The vectors and lists become `seq` locals that the method reassigns. `EuclidDivide`'s reference parameters become an in-parameter and out-parameters.
- **Specifications.** Each method is proved against a function or predicate that specifies it, for example `Gcd`, `MaxCommonFactorOf`, `ExtGcd`/`BezoutPair`, `Pow(base, exp) % mod`, `Prime` and `IsFactorisation`. The properties the library promises are then proved about those.
- **Pure code.** `isCoprime` is pure and is a function.

C++ `/` and `%` truncate toward zero, while Dafny's are Euclidean. `Arith.TDiv` and `Arith.TMod` model the C++ operators. They are used wherever an operand can be negative: `opeMod`, `countFactor` and `DiophantineEquation`. The gcd and Bezout loops only see magnitudes, so they use Dafny's operators, which agree there.

Module layout:

| file | module | models |
|---|---|---|
| `arith.dfy` | `Arith` | C++ division, divisibility, congruence, powers |
| `gcd.dfy` | `CommonFactor` | `MaxCommonFactor`, `isCoprime` |
| `bezout.dfy` | `Bezout` | `BezoutEquation` |
| `primes.dfy` | `Primality` | `EuclidDivide`, `isPrime` |
| `modpow.dfy` | `ModularPower` | `opeMod`, the normalisation loop of `opeE` |
| `factor.dfy` | `Factorization` | `countFactor`, `findFactor` |
| `diophantine.dfy` | `Diophantine` | `DiophantineEquation` |

Behaviour of the source that the contracts state on purpose:

- `MaxCommonFactor(0, 0)` is -1.
- With exactly one zero argument, `MaxCommonFactor` returns the other argument with its sign. So `isCoprime(0, -1)` is false, and `isCoprime(0, 1)` is true.
- `DiophantineEquation(0, 0, c)` returns true for every `c`, because the divisor it tests is -1. `Diophantine.NoSolutionWhenIndivisible` therefore excludes two zero factors.
- `BezoutEquation` computes its coefficients on the magnitudes but pairs them with the inputs by the signed comparison `a < b`. The identity `s * a + t * b == MaxCommonFactor(a, b)` is claimed only when both inputs are positive or exactly one is zero. For nonzero inputs, `Bezout.BezoutPairMagnitudes` states what does hold: the identity on the magnitudes.

## Model

| member | source | states |
|---|---|---|
| `Arith.TDiv` | MathBase/MathFoundation.hpp:236 | C++ `/`: the magnitude of the quotient is `abs(a) / abs(b)`, and a nonzero quotient is negative exactly when the operands' signs differ |
| `Arith.TMod` | MathBase/MathFoundation.hpp:150-157 | C++ `%`: `a == (a / b) * b + r`, `abs(r) < abs(b)`, and a nonzero remainder has the sign of the dividend |
| `Arith.TModZeroIffDivides` | MathBase/MathFoundation.hpp:238 | the C++ remainder is zero exactly when the divisor divides the dividend |
| `CommonFactor.Gcd` | MathBase/MathFoundation.hpp:32-36 | Euclid's remainder recurrence yields a common divisor of both naturals that every common divisor divides |
| `CommonFactor.MaxCommonFactorOf` | MathBase/MathFoundation.hpp:19-38 | -1 for (0, 0); otherwise a nonzero common divisor that every common divisor divides, positive when both arguments are nonzero |
| `CommonFactor.MaxCommonFactorUnordered` | MathBase/MathFoundation.hpp:19-38 | the result does not change when the arguments are swapped, nor, for nonzero arguments, when either sign is flipped |
| `CommonFactor.MaxCommonFactor` | MathBase/MathFoundation.hpp:19-38 | the remainder loop on the magnitudes returns `MaxCommonFactorOf(numa, numb)`; its invariant keeps `Gcd(a, b)` equal to the gcd of the magnitudes, and `b` decreases |
| `CommonFactor.GcdOneMeansNoCommonDivisor` | MathBase/MathFoundation.hpp:41-43 | for nonzero arguments, the gcd is 1 exactly when no number above 1 divides both |
| `CommonFactor.IsCoprime` | MathBase/MathFoundation.hpp:41-43 | for nonzero arguments: true exactly when no number above 1 divides both; with a zero argument: true exactly when the other argument is 1 |
| `Bezout.ExtGcdIdentity` | MathBase/MathFoundation.hpp:80-91 | the coefficients back-substituted along Euclid's quotient chain satisfy `x * a + y * b == gcd(a, b)` |
| `Bezout.DivisionChain` | MathBase/MathFoundation.hpp:67-79 | the quotients recorded by the division loop, after the zero-remainder step is dropped, are exactly Euclid's quotient chain of the two magnitudes |
| `Bezout.BackSubstitution` | MathBase/MathFoundation.hpp:80-93 | after the reversals and the drop, `ans[1]` and `ans[0]` are the back-substituted coefficients of the larger and the smaller magnitude |
| `Bezout.BezoutEquation` | MathBase/MathFoundation.hpp:47-94 | `(s, t)` is `(0, 0)` for two zeros, `(a == 0 ? 0 : 1, b == 0 ? 0 : 1)` with one zero, and otherwise the magnitudes' coefficients paired by `a < b`; the identity holds for positive inputs and for exactly one zero |
| `Bezout.BezoutPairMagnitudes` | MathBase/MathFoundation.hpp:93-94 | for nonzero inputs, the coefficient chosen by `a < b` times the smaller magnitude, plus the other coefficient times the larger magnitude, equals the gcd |
| `Bezout.BezoutPairIdentity` | MathBase/MathFoundation.hpp:53-65 | `s * a + t * b == MaxCommonFactor(a, b)` when both inputs are positive or exactly one is zero |
| `Bezout.BezoutPairSwap` | MathBase/MathFoundation.hpp:93-94 | exchanging the inputs exchanges the coefficients, unless the inputs are equal and nonzero |
| `Primality.EuclidDivide` | MathBase/MathFoundation.hpp:106-116 | for a nonnegative dividend, the incoming quotient grows by exactly `dividend / divisor` and the remainder is `dividend % divisor`; below the divisor, the dividend is the remainder and the quotient is untouched; `dividend == (quotient - quotientIn) * divisor + remainder` always holds |
| `Primality.IsPrime` | MathBase/MathFoundation.hpp:119-130 | false exactly when some `i >= 2` with `i * i <= number` divides `number` |
| `Primality.SmallNumbersPass` | MathBase/MathFoundation.hpp:121 | every number below 4, including 0, 1 and negative numbers, passes the trial division |
| `Primality.TrialDivisionDecidesPrimality` | MathBase/MathFoundation.hpp:119-130 | for `number >= 2`, passing the trial division is equivalent to being prime |
| `ModularPower.SquareStep` | MathBase/MathFoundation.hpp:152-158 | one round of square-and-multiply keeps `answer * val^exp` in the same residue class |
| `ModularPower.OpeMod` | MathBase/MathFoundation.hpp:147-161 | for `mod > 0` and `exp >= 0` the result is `base^exp` reduced into `[0, mod)`, negative bases included |
| `ModularPower.InverseNormalise` | MathBase/MathFoundation.hpp:179-181 | the result is positive and congruent to the coefficient modulo `modx`; it equals a positive coefficient, and otherwise it is at most `modx` |
| `ModularPower.InverseFromBezout` | MathBase/MathFoundation.hpp:174-183 | the normalised Bezout coefficient of `origin` times `origin` is congruent to the gcd modulo `modx`, and so to 1 when the two are coprime |
| `Factorization.CountFactor` | MathBase/MathFoundation.hpp:211-219 | the count `k` is the multiplicity: `factor^k` divides `number` and `factor^(k+1)` does not |
| `Factorization.EuclidLemma` | MathBase/MathFoundation.hpp:192-197 | a prime that divides a product divides one of the factors (the fact that makes the factorisation complete) |
| `Factorization.FindFactor` | MathBase/MathFoundation.hpp:186-198 | the lists have equal length; the primes are ascending, each divides `number` with its exact multiplicity (at least 1); for `number >= 1` every prime divisor is listed and the prime powers multiply to `number`; for `number <= 1` both lists are empty |
| `Diophantine.DiophantineEquation` | MathBase/MathFoundation.hpp:233-249 | true exactly when `MaxCommonFactor(factor1, factor2)` divides `rightValue` (always for two zero factors); when true, the printed special solution `(x, y)` is `BezoutEquation`'s pair scaled by the C++ quotient `rightValue / CF`, and when in addition both factors are positive or exactly one is zero, `factor1 * x + factor2 * y == rightValue` |
| `Diophantine.NoSolutionWhenIndivisible` | MathBase/MathFoundation.hpp:238-241 | unless both factors are zero, an answer of false means that no integers `x`, `y` solve the equation |
| `Diophantine.GeneralSolution` | MathBase/MathFoundation.hpp:246-248 | from a solution `(x, y)`, `(x - (factor2 / CF) * k, y + (factor1 / CF) * k)` is also a solution, for every integer `k` |

## Left out

- Printing to `std::cout` is not modelled, and neither are the interactive wrappers `isPrimeNum`, `opeM`, `opeE` and `opeFF`, which read with `std::cin`. The `printResult` and `printInfo` flags go too, since they only control output. Only the normalisation loop of `opeE` is modelled, as `ModularPower.InverseNormalise`.
- `findFactor`'s output loop (lines 199-207) only prints and pops the two lists. `Factorization.FindFactor` returns the lists instead.
- Integers are unbounded. The C++ diverges from the model only at the limits of `int` and `long`: `abs(INT_MIN)`, `val * val` and `answer * val` in `opeMod` overflowing a 32-bit `long`, `x *= ratio`, and `factor++` at `INT_MAX`.
- `DiophantineEquation(0, 0, INT_MIN)` computes `INT_MIN / -1` and `INT_MIN % -1` (MathBase/MathFoundation.hpp:236, :238), which is undefined behaviour in C++ and traps on common hardware. The model, with unbounded integers, answers true there.
- The floating-point bound `i <= sqrt(number)` in `isPrime` is modelled as `i * i <= number`. The two agree over the whole `int` range, including negative `number`, where the loop never runs.
- Bezout.BezoutEquation: the identity is not claimed for negative inputs. The coefficients belong to the magnitudes, but the signed comparison `a < b` pairs them with the inputs, so `s * a + t * b` need not equal the gcd there. `Bezout.BezoutPairMagnitudes` states the identity that does hold.
- `BezoutEquation` reads past the end of a vector in two cases. When the smaller magnitude divides the larger, it reads `vq[0]` of an empty vector. When the chain has exactly one nonzero remainder, it reads `ans[1]` of a one-element vector. Both cases are excluded by the precondition `BezoutDefined`. `DiophantineEquation` inherits this precondition where it calls `BezoutEquation`.
- ModularPower.OpeMod: `exp >= 0` limits it to its documented domain `base^exp (mod mod)`. For a negative exponent the C++ is still defined: `exp % 2` is -1, so no multiplication happens, `exp /= 2` reaches 0, and it returns `1 % mod`. Its `mod > 0` excludes `mod == 0`, where `base % mod` divides by zero, and negative moduli. With a negative `mod`, the final loop (line 160) runs forever only when the answer reaching it is not positive; otherwise it returns, for example `opeMod(2, 1, -5) == 2`. The model says nothing about negative exponents or moduli.
- The preconditions of `CountFactor` (`number != 0`, `abs(factor) >= 2`), `EuclidDivide` (`divisor > 0` or `dividend < divisor`) and `InverseNormalise` (`modx > 0` or a positive coefficient) exclude inputs on which the source divides by zero or never terminates.
- In `DiophantineEquation`, `x` and `y` are locals that are only printed; the function returns only the bool. The model returns the printed special solution as the outputs `x` and `y`. On the unsolvable path the source never sets them, and the model returns 0 for both.
- `DiophantineEquation`'s particular solution is claimed only where `BezoutEquation`'s identity holds: both factors positive, or exactly one zero.
- The recursion depth of `EuclidDivide` is not modelled. Neither is the quotient that `isPrime` accumulates across its calls without using it (it is kept, but nothing is claimed about it).
