# Q16.16 fixed-point numbers and their math library, in Dafny

This project models `Fixed`, the fixed-point value type of FixedPointLib, and
`FixedMath`, the small math library built on it.

A `Fixed` is a readonly struct holding one 32-bit `raw` integer, which stands
for the value raw / 2^16 (the Q16.16 format). The model covers these parts:

- The raw constructor and `FromInt`.
- The operators `+ - * /` and integer `Pow`.
- The library functions `Pow`, `Sqrt`, `Abs`, `Min`, `Max`, `Clamp`,
  `Clamp01`, `Lerp` and `LerpUnclamped`.

The C# code runs in the default unchecked context, so every result narrowed
to `int` wraps modulo 2^32. The library is sometimes described as saturating,
but the operators in `Fixed.cs` do not saturate. The model follows the code:
`Wrap32` is the `(int)` narrowing, and it is applied wherever the code
narrows a result. Two C# integer operations are written out exactly:

- `>>` by 16 on `long` rounds toward minus infinity. Dafny's `/` by 65536
  does the same.
- `/` on `long` truncates toward zero. This is `TruncDiv`, because Dafny's
  `/` is Euclidean.

Exceptions are values of `Result`: `DivideByZero`, `ArgumentOutOfRange`
(from `Sqrt`), and `Overflow` (from `Math.Abs(int.MinValue)` in `Pow`).

Some members that `FixedMath.cs` uses do not appear in `Fixed.cs`. The model
takes them as follows:

- `Fixed.ONE` is `FromInt(1)`, raw 65536.
- `Fixed.ZERO` is raw 0.
- `<`, `>` and `==` compare `raw`.
- `a < 0` turns 0 into a `Fixed` through the implicit `int` conversion, so it
  is `a.raw < 0`.

Files and modules:

- `twos_complement.dfy` (module `TwosComplement`): 32-bit integers,
  congruence modulo 2^32, `Wrap32` and `TruncDiv`.
- `fixed.dfy` (module `FixedPoint`): `Fixed.cs`.
- `fixed_math.dfy` (module `FixedMath`): `FixedMath.cs`.
- `sqrt_findings.dfy` (module `SqrtFindings`): the two findings below, each
  with the code as written and a corrected square root.

The loops of both `Pow` methods and of `Sqrt` are imperative methods. Each is
proved against a specification function: `PowSpec` and `PowLoop` for `Pow`,
and `SqrtSpec`, `Estimate` and `StopIndex` for `Sqrt`. Everything else is a
function, and the properties are lemmas about those functions.

## Model

| member | source | states |
|---|---|---|
| TwosComplement.Wrap32 | FixedPointLib/Fixed.cs:27-28 | the `(int)` narrowing yields the 32-bit value congruent to its argument modulo 2^32, and leaves values already in range unchanged |
| TwosComplement.Wrap32Unique | FixedPointLib/Fixed.cs:27-28 | only one 32-bit value is congruent to a given integer, so the narrowing is determined |
| TwosComplement.Wrap32AddWrapped | FixedPointLib/Fixed.cs:25-26 | wrapping an intermediate sum does not change the wrapped total |
| TwosComplement.TruncDiv | FixedPointLib/Fixed.cs:28 | `/` on `long` leaves a remainder smaller than the divisor in magnitude, with the sign of the dividend (truncation toward zero) |
| TwosComplement.TruncDivUnique | FixedPointLib/Fixed.cs:28 | those remainder conditions determine the quotient |
| FixedPoint.FromInt | FixedPointLib/Fixed.cs:18 | `value << 16` has zero fractional bits, is congruent to value·2^16, and equals it exactly for value in [-32768, 32767] |
| FixedPoint.OneIsFromInt | FixedPointLib/FixedMath.cs:17 | the assumed `Fixed.ONE` is `FromInt(1)`, raw 65536 |
| FixedPoint.Add | FixedPointLib/Fixed.cs:25 | `+` is raw addition modulo 2^32: exact when the sum fits, otherwise off by exactly 2^32 |
| FixedPoint.Sub | FixedPointLib/Fixed.cs:26 | `-` is raw subtraction modulo 2^32: exact when the difference fits, otherwise off by exactly 2^32 |
| FixedPoint.AddSubCancel | FixedPointLib/Fixed.cs:25-26 | `(a + b) - b == a` for every a and b, overflow included |
| FixedPoint.SubAddCancel | FixedPointLib/Fixed.cs:25-26 | `(a - b) + b == a` for every a and b |
| FixedPoint.AddCommutative | FixedPointLib/Fixed.cs:25 | `a + b == b + a` |
| FixedPoint.Mul | FixedPointLib/Fixed.cs:27 | `*` is congruent to floor(a.raw·b.raw / 2^16), and when that fits it is the floor |
| FixedPoint.MulCommutative | FixedPointLib/Fixed.cs:27 | `a * b == b * a` |
| FixedPoint.MulOne | FixedPointLib/Fixed.cs:27 | `FromInt(1)` is a two-sided identity of `*` |
| FixedPoint.MulZero | FixedPointLib/Fixed.cs:27 | raw 0 is a two-sided zero of `*` |
| FixedPoint.MulFromInt | FixedPointLib/Fixed.cs:27 | integer values multiply exactly while the product fits in 16 integer bits |
| FixedPoint.Div | FixedPointLib/Fixed.cs:28 | `/` raises DivideByZero exactly when b.raw is 0; otherwise the result is congruent to trunc(a.raw·2^16 / b.raw), and equals it when it fits |
| FixedPoint.DivOne | FixedPointLib/Fixed.cs:28 | `x / FromInt(1) == x` |
| FixedPoint.ArithmeticExamples | FixedPointLib/tests/FixedTests.cs:6-58 | `FromInt(5)` is 5.0, `5 + 10 == 15`, `10 - 5 == 5`, `1.5 * 2 == 3` and `3 / 1.5 == 2`, all exactly |
| FixedPoint.PowLoop | FixedPointLib/Fixed.cs:39-45 | the squaring loop as a recursion on its state; once the result is ZERO it stays ZERO, whatever the base does |
| FixedPoint.PowSpec | FixedPointLib/Fixed.cs:30-48 | Pow gives ONE for exponent 0; it raises Overflow exactly for int.MinValue; it raises DivideByZero exactly when the exponent is negative and the positive power has raw 0 |
| FixedPoint.Pow | FixedPointLib/Fixed.cs:30-48 | the squaring loop returns what PowSpec says, and runs once per binary digit of the exponent's magnitude, at most 31 times |
| FixedPoint.BitLengthBound | FixedPointLib/Fixed.cs:39-45 | a number below 2^k has at most k binary digits, so the loop on an `int` exponent ends within 31 rounds |
| FixedPoint.PowLoopInteger | FixedPointLib/Fixed.cs:39-45 | on integer values the squaring loop computes r·k^n exactly whenever r·k^n is in [-32768, 32767], even when the last, unused squaring of the base wraps |
| FixedPoint.PowInteger | FixedPointLib/Fixed.cs:30-48 | `Pow(FromInt(k), n) == FromInt(k^n)` whenever k^n is in [-32768, 32767], the integers Q16.16 holds |
| FixedPoint.PowSmallExponents | FixedPointLib/Fixed.cs:32-33 | `Pow(a, 0)` is ONE for every a, raw 0 included, and `Pow(a, 1) == a` |
| FixedPoint.PowNegative | FixedPointLib/Fixed.cs:47 | for a negative exponent b above int.MinValue, Pow is `FromInt(1) / Pow(a, -b)` |
| FixedPoint.PowIntegerExamples | FixedPointLib/tests/FixedTests.cs:61-67 | `Pow(2, 3) == 8` and `Pow(2, 2) == 4` exactly, and `Pow(-2, 15) == -32768` |
| FixedPoint.PowNegativeExample | FixedPointLib/tests/FixedTests.cs:70-76 | `Pow(2, -3)` is exactly 0.125 |
| FixedPoint.PowFractionalExample | FixedPointLib/tests/FixedMathTests.cs:6-14 | `Pow(3.5, 4)` is exactly 150.0625 |
| FixedMath.Pow | FixedPointLib/FixedMath.cs:14-32 | the library's copy of the loop returns and raises exactly what `Fixed.Pow` does |
| FixedMath.NewtonStep | FixedPointLib/FixedMath.cs:48 | one update `(e + a/e) / FromInt(2)` raises DivideByZero exactly when the estimate is 0 |
| FixedMath.Estimate | FixedPointLib/FixedMath.cs:43-48 | the estimate after k rounds, seeded with a; the only error it can carry is DivideByZero |
| FixedMath.StopIndex | FixedPointLib/FixedMath.cs:45-51 | the round Sqrt returns is the first round that raises or repeats its predecessor, or else the sixth |
| FixedMath.FollowsNext | FixedPointLib/FixedMath.cs:45-51 | one more loop round either ends the loop with SqrtSpec's answer (it raised or repeated the estimate) or leaves the loop still following SqrtSpec |
| FixedMath.SqrtSpec | FixedPointLib/FixedMath.cs:35-53 | Sqrt raises ArgumentOutOfRange exactly for a negative raw, returns ZERO for raw 0, and on a positive argument can raise only DivideByZero |
| FixedMath.Sqrt | FixedPointLib/FixedMath.cs:35-53 | the bounded loop with its early break returns what SqrtSpec says: the estimate of round StopIndex |
| FixedMath.SqrtOfNine | FixedPointLib/tests/FixedMathTests.cs:16-24 | `Sqrt(9) == 3`, reached in round 5 and repeated in round 6 |
| FixedMath.SqrtOfSixAndAQuarter | FixedPointLib/tests/FixedMathTests.cs:16-24 | `Sqrt(6.25) == 2.5`, with round 5 repeating round 4 |
| FixedMath.SqrtEdgeExamples | FixedPointLib/tests/FixedMathTests.cs:16-31 | `Sqrt(0) == 0`, and `Sqrt(-4)` raises ArgumentOutOfRange |
| FixedMath.Abs | FixedPointLib/FixedMath.cs:55 | the result has the argument's magnitude and is non-negative, except that raw int.MinValue maps to itself |
| FixedMath.Min | FixedPointLib/FixedMath.cs:57 | returns one of its arguments, and it is at most both |
| FixedMath.Max | FixedPointLib/FixedMath.cs:59 | returns one of its arguments, and it is at least both |
| FixedMath.Clamp | FixedPointLib/FixedMath.cs:61-68 | returns a when min ≤ a ≤ max; lies in [min, max] when min ≤ max; returns min for a below min, even when min > max |
| FixedMath.Clamp01 | FixedPointLib/FixedMath.cs:70-77 | raw always in [0, 65536]; the identity on that range |
| FixedMath.Clamp01IsClamp | FixedPointLib/FixedMath.cs:61-77 | Clamp01 is Clamp to [ZERO, ONE], although it tests the bounds in the other order |
| FixedMath.Clamp01Idempotent | FixedPointLib/FixedMath.cs:70-77 | clamping twice is clamping once |
| FixedMath.LerpUnclamped | FixedPointLib/FixedMath.cs:80 | t = 0 gives a and t = 1 gives b |
| FixedMath.Lerp | FixedPointLib/FixedMath.cs:79 | Lerp is LerpUnclamped with t clamped; it gives a for t ≤ 0 and b for t ≥ 1 |
| FixedMath.LerpEndpointsUnclamped | FixedPointLib/FixedMath.cs:79-80 | the endpoints are exact even when b - a wraps |
| FixedMath.LerpBetween | FixedPointLib/FixedMath.cs:79 | when b - a does not overflow, the result of Lerp lies between a and b |
| FixedMath.ScaledBetween | FixedPointLib/FixedMath.cs:79 | (b - a) scaled by a clamped t and rounded down lies between 0 and b - a |
| FixedMath.LerpExamples | FixedPointLib/tests/FixedMathTests.cs:86-95 | `Lerp(10, 20, 0.5) == 15`, and `Lerp(10, 20, 1.5) == 20` because t is clamped to 1 |
| FixedMath.LerpUnclampedExample | FixedPointLib/tests/FixedMathTests.cs:97-106 | `LerpUnclamped(10, 20, 1.5) == 25` |
| FixedMath.AbsClampExamples | FixedPointLib/tests/FixedMathTests.cs:33-84 | the values the unit tests expect from Abs and Clamp01 |
| SqrtFindings.SqrtFirstRoundWraps | FixedPointLib/FixedMath.cs:43-48 | for every raw above int.MaxValue - 2^16, the first round of Sqrt gives a negative estimate |
| SqrtFindings.SqrtOfMaxRawIsNegative | FixedPointLib/FixedMath.cs:35-53 | Sqrt of raw int.MaxValue returns raw -34938726 |
| SqrtFindings.SqrtOfTenThousand | FixedPointLib/FixedMath.cs:35-53 | Sqrt(10000) returns raw 11601055 (about 177.02) after six rounds, while the integer square root is raw 6553600 (100.0) |
| SqrtFindings.SqrtOfSmallestPositive | FixedPointLib/FixedMath.cs:35-53 | Sqrt of raw 1 (2^-16) returns raw 1044 (about 0.0159), while the integer square root is raw 256 (2^-8) |
| SqrtFindings.SqrtSpecAtLeastRoot | FixedPointLib/FixedMath.cs:35-53 | for 0 < raw ≤ int.MaxValue - 2^16, Sqrt never raises and never answers below the integer square root |
| SqrtFindings.OnTrackAnswers | FixedPointLib/FixedMath.cs:45-51 | from any loop state on track, the rounds still to run end at or above the root |
| SqrtFindings.Isqrt | FixedPointLib/FixedMath.cs:35-53 | the integer square root, the reference the corrected Sqrt is measured against |
| SqrtFindings.IsqrtUnique | FixedPointLib/FixedMath.cs:35-53 | any s with s² ≤ n < (s+1)² is the integer square root of n |
| SqrtFindings.NewtonNotBelowRoot | FixedPointLib/FixedMath.cs:48 | a Newton average e + n/e never falls below twice a root from below |
| SqrtFindings.AboveRootDecreases | FixedPointLib/FixedMath.cs:48 | from above the root, a Newton round strictly lowers the estimate |
| SqrtFindings.WideNewtonStep | FixedPointLib/FixedMath.cs:48 | the corrected round, with the sum e + a/e formed in 64 bits, fails exactly when the estimate is 0 |
| SqrtFindings.WideSumNotBelowRoot | FixedPointLib/FixedMath.cs:48 | from a positive estimate whose quotient fits, the corrected round never falls below the integer square root |
| SqrtFindings.WideStepAgrees | FixedPointLib/FixedMath.cs:48 | when the sum e + a/e fits, the corrected round is the round the code performs |
| SqrtFindings.WideStepBounds | FixedPointLib/FixedMath.cs:48 | a corrected round from the seed, or from any estimate between the root and WideBound, lands between the root and WideBound again |
| SqrtFindings.CorrectedRound | FixedPointLib/FixedMath.cs:45-51 | a corrected round never raises; an estimate it repeats meets the corrected promise, and any other keeps the loop between the root and WideBound, in step with the code for arguments up to int.MaxValue - 2^16 |
| SqrtFindings.SqrtCorrected | FixedPointLib/FixedMath.cs:35-53 | with the sum formed in 64 bits, Sqrt never raises on a positive argument, and its result is at least the integer square root, so it is positive; up to int.MaxValue - 2^16 it equals the code's result |
| SqrtFindings.ConvergedRound | FixedPointLib/FixedMath.cs:45-51 | a corrected round lands between the root and WideBound, and a round that does not lower the estimate starts from the root itself |
| SqrtFindings.SqrtConverged | FixedPointLib/FixedMath.cs:35-53 | iterating the corrected round while the estimate decreases, Sqrt of every positive argument is exactly its square root rounded down to Q16.16; negative arguments raise and 0 gives 0, as in the code |

## Left out

- `FromFloat`, `ToFloat` and the implicit `float` conversions (Fixed.cs:17, 19, 22-23) are left out, because they depend on single-precision float semantics.
- `ToString` (Fixed.cs:50) is left out, because it formats a float with .NET's culture-aware formatting.
- `FromDecimal`, and the constants `PI` to `LN10` built with it (FixedMath.cs:5-11), are left out. `FromDecimal` is not part of this model. Test inputs given as decimal literals are written as their exact raw values (2.5 is raw 0x2_8000).
- `Fixed.ONE`, `Fixed.ZERO`, `<`, `>` and `==` are not defined in `Fixed.cs`. The model assumes their meaning, as stated above.
- The `Raw` property and the implicit conversion from `int` (Fixed.cs:10, 21) are not separate members. They are the `raw` field and `FromInt`.
- `(expoent & 1) == 1` and `expoent >>= 1` are modelled as `% 2` and `/ 2`. They agree on the non-negative values the loop uses.
- FixedMath.SqrtSpec: keeps the code's DivideByZero path inside the loop. For a positive argument up to int.MaxValue - 2^16, SqrtSpecAtLeastRoot shows that this path is never taken. For the remaining 2^16 arguments, the model does not prove that the path is unreachable.
- FixedMath.SqrtSpec: states no upper bound and no closeness to the root, because the code's six rounds do not reach the root for large or tiny arguments (SqrtOfTenThousand, SqrtOfSmallestPositive). The only accuracy fact proved about it is the lower bound of SqrtSpecAtLeastRoot. The second finding below records this defect.
- The xUnit tests are only a source of concrete facts. A float tolerance such as `InRange(0.124, 0.126)` becomes the exact value of the model.

## Findings

| source | as written | input that shows it | evidently intended | confidence | as-written member | corrected member |
|---|---|---|---|---|---|---|
| FixedPointLib/FixedMath.cs:43-52 | the first Newton round computes `estimatedValue + a / estimatedValue`, which is a + 1.0, in wrapping `int` arithmetic | raw 2147483647 (about 32768.0): the first estimate is raw -1073709056, and Sqrt returns raw -34938726 (about -533.1); every raw above int.MaxValue - 2^16 gets a negative first estimate | the square root of a positive value is positive, and at least its integer square root | not executed; proved about the model | SqrtFindings.SqrtOfMaxRawIsNegative | SqrtFindings.SqrtCorrected |
| FixedPointLib/FixedMath.cs:43-51 | Newton's iteration is seeded with the argument itself and stopped after six rounds; from far above the root each round roughly halves the estimate | raw 655360000 (10000.0) returns raw 11601055 (about 177.02) instead of 100.0; raw 1 (2^-16) returns raw 1044 (about 0.0159) instead of 2^-8 | Sqrt returns the square root to Q16.16 precision | not executed; proved about the model | SqrtFindings.SqrtOfTenThousand | SqrtFindings.SqrtConverged |
