/** The Q16.16 fixed-point value type `Fixed`: one 32-bit `raw` field holding
    value × 2^16, its construction from raw bits and from integers, the four
    arithmetic operators and integer power. Arithmetic is C#'s default
    unchecked arithmetic: every result narrowed to `int` wraps modulo 2^32. */
module FixedPoint {
  import opened TwosComplement

  /** 1 << 16, the raw value of 1.0: Q16.16 has 16 fractional bits */
  const OneRaw: int := 0x1_0000

  /** A Q16.16 number. The datatype constructor is the raw constructor: it
      stores its argument verbatim. Equality is equality of `raw`. */
  datatype Fixed = Fixed(raw: Int32)

  /** The exceptions the operations raise */
  datatype Error =
    | DivideByZero        // DivideByZeroException from `/` on a zero raw divisor
    | ArgumentOutOfRange  // ArgumentOutOfRangeException from Sqrt
    | Overflow            // OverflowException from Math.Abs(int.MinValue)

  datatype Result<T> = Success(value: T) | Failure(error: Error)

  /** `Fixed.ONE`, taken to be FromInt(1) */
  const One: Fixed := Fixed(OneRaw)
  /** `Fixed.ZERO`, taken to be raw 0 */
  const Zero: Fixed := Fixed(0)

  /** `FromInt(value)`: `value << 16` on a 32-bit int. The fractional bits
      are zero, the result is exact for the integers Q16.16 can hold, and
      larger integers lose their high bits. */
  function FromInt(v: Int32): (f: Fixed)
    ensures f.raw % OneRaw == 0
    ensures Congruent(f.raw, v * OneRaw)
    ensures -0x8000 <= v <= 0x7FFF ==> f.raw == v * OneRaw
  {
    var r := Wrap32(v * OneRaw);
    assert r % OneRaw == 0 by {
      CongruentWitness(r, v * OneRaw);
      var k := (r - v * OneRaw) / Modulus;
      assert r == (v + k * 0x1_0000) * OneRaw;
    }
    Fixed(r)
  }

  lemma OneIsFromInt()
    ensures One == FromInt(1) && One.raw == OneRaw
  {
  }

  /** `a + b`: raw addition, wrapping on overflow */
  function Add(a: Fixed, b: Fixed): (r: Fixed)
    ensures Congruent(r.raw, a.raw + b.raw)
    ensures IsInt32(a.raw + b.raw) ==> r.raw == a.raw + b.raw
    ensures a.raw + b.raw > MaxInt32 ==> r.raw == a.raw + b.raw - Modulus
    ensures a.raw + b.raw < MinInt32 ==> r.raw == a.raw + b.raw + Modulus
  {
    Fixed(Wrap32(a.raw + b.raw))
  }

  /** `a - b`: raw subtraction, wrapping on overflow */
  function Sub(a: Fixed, b: Fixed): (r: Fixed)
    ensures Congruent(r.raw, a.raw - b.raw)
    ensures IsInt32(a.raw - b.raw) ==> r.raw == a.raw - b.raw
    ensures a.raw - b.raw > MaxInt32 ==> r.raw == a.raw - b.raw - Modulus
    ensures a.raw - b.raw < MinInt32 ==> r.raw == a.raw - b.raw + Modulus
  {
    Fixed(Wrap32(a.raw - b.raw))
  }

  /** `a * b`: the 64-bit product shifted right by 16 (an arithmetic shift,
      so rounding toward minus infinity), then narrowed to `int`. When the
      rescaled product fits, the result is its floor. */
  function Mul(a: Fixed, b: Fixed): (r: Fixed)
    ensures Congruent(r.raw, (a.raw * b.raw) / OneRaw)
    ensures IsInt32((a.raw * b.raw) / OneRaw) ==>
              r.raw * OneRaw <= a.raw * b.raw < r.raw * OneRaw + OneRaw
  {
    Fixed(Wrap32((a.raw * b.raw) / OneRaw))
  }

  /** `a / b`: the dividend widened to 64 bits and shifted left by 16, divided
      with truncation toward zero, then narrowed to `int`. A zero divisor
      raises DivideByZero and nothing else does. */
  function Div(a: Fixed, b: Fixed): (r: Result<Fixed>)
    ensures r.Failure? <==> b.raw == 0
    ensures r.Failure? ==> r.error == DivideByZero
    ensures r.Success? ==> Congruent(r.value.raw, TruncDiv(a.raw * OneRaw, b.raw))
    ensures r.Success? && IsInt32(TruncDiv(a.raw * OneRaw, b.raw)) ==>
              r.value.raw == TruncDiv(a.raw * OneRaw, b.raw)
  {
    if b.raw == 0 then Failure(DivideByZero)
    else Success(Fixed(Wrap32(TruncDiv(a.raw * OneRaw, b.raw))))
  }

  /** `(a + b) - b == a` for all a and b: wrap-around loses nothing. */
  lemma AddSubCancel(a: Fixed, b: Fixed)
    ensures Sub(Add(a, b), b) == a
  {
    Wrap32AddWrapped(a.raw + b.raw, -(b.raw as int));
  }

  /** `(a - b) + b == a` for all a and b. */
  lemma SubAddCancel(a: Fixed, b: Fixed)
    ensures Add(Sub(a, b), b) == a
  {
    Wrap32AddWrapped(a.raw - b.raw, b.raw);
  }

  lemma AddCommutative(a: Fixed, b: Fixed)
    ensures Add(a, b) == Add(b, a)
  {
  }

  lemma MulCommutative(a: Fixed, b: Fixed)
    ensures Mul(a, b) == Mul(b, a)
  {
  }

  /** One is a two-sided identity of `*`. */
  lemma MulOne(x: Fixed)
    ensures Mul(One, x) == x && Mul(x, One) == x
  {
    assert (OneRaw * x.raw) / OneRaw == x.raw;
    assert (x.raw * OneRaw) / OneRaw == x.raw;
  }

  /** Zero annihilates `*`. */
  lemma MulZero(x: Fixed)
    ensures Mul(Zero, x) == Zero && Mul(x, Zero) == Zero
  {
  }

  /** Dividing by One gives the dividend back. */
  lemma DivOne(x: Fixed)
    ensures Div(x, One) == Success(x)
  {
    TruncDivUnique(x.raw * OneRaw, OneRaw, x.raw);
  }

  /** Integer values multiply exactly while the product fits in Q16.16. */
  lemma {:induction false} MulFromInt(x: int, y: int)
    requires -0x8000 <= x <= 0x7FFF && -0x8000 <= y <= 0x7FFF
    requires -0x8000 <= x * y <= 0x7FFF
    ensures Mul(FromInt(x), FromInt(y)) == FromInt(x * y)
  {
    var p := (x * OneRaw) * (y * OneRaw);
    assert p == (x * y * OneRaw) * OneRaw;
    assert p / OneRaw == x * y * OneRaw;
  }

  // ---------------------------------------------------------------------
  // Integer power by squaring

  /** What the squaring loop computes from its state: on an odd exponent
      multiply the result by the base, always square the base, halve the
      exponent, until the exponent is 0. */
  function PowLoop(result: Fixed, base: Fixed, n: nat): (r: Fixed)
    ensures result == Zero ==> r == Zero
    decreases n
  {
    if n == 0 then result
    else
      MulZero(base);
      PowLoop(if n % 2 == 1 then Mul(result, base) else result, Mul(base, base), n / 2)
  }

  /** What `Pow(a, b)` returns or raises: One for exponent 0, an overflow from
      Math.Abs for int.MinValue, the squaring loop on |b|, and for negative
      b the reciprocal of that power. */
  function PowSpec(a: Fixed, b: Int32): (r: Result<Fixed>)
    ensures b == 0 ==> r == Success(One)
    ensures r == Failure(Overflow) <==> b == MinInt32
    ensures r.Failure? ==> b < 0
    ensures r == Failure(DivideByZero) <==>
              MinInt32 < b < 0 && PowLoop(One, a, -b).raw == 0
  {
    if b == 0 then Success(FromInt(1))
    else if b == MinInt32 then Failure(Overflow)
    else
      var p := PowLoop(FromInt(1), a, Abs(b));
      if b < 0 then Div(FromInt(1), p) else Success(p)
  }

  /** Number of binary digits of n: the number of rounds of the loop. */
  function BitLength(n: nat): nat
  {
    if n == 0 then 0 else 1 + BitLength(n / 2)
  }

  function Pow2(k: nat): nat
  {
    if k == 0 then 1 else 2 * Pow2(k - 1)
  }

  lemma Pow2Of31()
    ensures Pow2(31) == 0x8000_0000
  {
    assert Pow2(8) == 0x100;
    assert Pow2(16) == 0x1_0000;
    assert Pow2(24) == 0x100_0000;
  }

  /** A number below 2^k has at most k binary digits, so an `int` exponent
      takes at most 31 rounds. */
  lemma {:induction false} BitLengthBound(n: nat, k: nat)
    requires n < Pow2(k)
    ensures BitLength(n) <= k
  {
    if n > 0 {
      BitLengthBound(n / 2, k - 1);
    }
  }

  /** `Fixed.Pow(a, b)`: exponentiation by squaring. `steps` counts the
      rounds of the loop, one per binary digit of |b|. */
  method Pow(a: Fixed, b: Int32) returns (r: Result<Fixed>, ghost steps: nat)
    ensures r == PowSpec(a, b)
    ensures MinInt32 < b ==> steps == BitLength(Abs(b)) <= 31
  {
    steps := 0;
    if b == 0 {
      return Success(FromInt(1)), 0;
    }
    if b == MinInt32 {
      // Math.Abs(int.MinValue) throws
      return Failure(Overflow), 0;
    }
    var result := FromInt(1);
    var baseValue := a;
    var exponent: int := Abs(b);
    Pow2Of31();
    BitLengthBound(exponent, 31);
    while exponent > 0
      invariant 0 <= exponent
      invariant PowLoop(result, baseValue, exponent) == PowLoop(FromInt(1), a, Abs(b))
      invariant steps + BitLength(exponent) == BitLength(Abs(b))
    {
      if exponent % 2 == 1 {       // (expoent & 1) == 1
        result := Mul(result, baseValue);
      }
      baseValue := Mul(baseValue, baseValue);
      exponent := exponent / 2;    // expoent >>= 1
      steps := steps + 1;
    }
    if b < 0 {
      r := Div(FromInt(1), result);
    } else {
      r := Success(result);
    }
  }

  /** Integer power on unbounded integers, the reference for Pow. */
  function IntPow(k: int, n: nat): int
  {
    if n == 0 then 1 else k * IntPow(k, n - 1)
  }

  lemma AbsMul(x: int, y: int)
    ensures Abs(x * y) == Abs(x) * Abs(y)
  {
  }

  lemma MulMonotone(a: int, b: int, c: int)
    requires 0 <= a && b <= c
    ensures a * b <= a * c
  {
  }

  lemma {:induction false} IntPowAbs(k: int, n: nat)
    ensures Abs(IntPow(k, n)) == IntPow(Abs(k), n)
  {
    if n > 0 {
      IntPowAbs(k, n - 1);
      AbsMul(k, IntPow(k, n - 1));
    }
  }

  lemma {:induction false} IntPowSquare(k: int, n: nat)
    ensures IntPow(k * k, n) == IntPow(k, 2 * n)
  {
    if n > 0 {
      IntPowSquare(k, n - 1);
      calc {
        IntPow(k, 2 * n);
        k * IntPow(k, 2 * n - 1);
        k * (k * IntPow(k, 2 * (n - 1)));
        (k * k) * IntPow(k * k, n - 1);
        IntPow(k * k, n);
      }
    }
  }

  /** The loop's view of a power: the low bit of n contributes one factor
      of k, the rest is a power of k squared. */
  lemma IntPowSplit(k: int, n: nat)
    ensures IntPow(k, n) == (if n % 2 == 1 then k else 1) * IntPow(k * k, n / 2)
  {
    IntPowSquare(k, n / 2);
    if n % 2 == 1 {
      assert IntPow(k, n) == k * IntPow(k, 2 * (n / 2));
    }
  }

  /** A positive power of a natural number is at least the number itself,
      and from the second power on at least its square. */
  lemma {:induction false} IntPowAtLeastBase(k: nat, n: nat)
    requires 1 <= n
    ensures k <= IntPow(k, n)
    ensures 2 <= n ==> k * k <= IntPow(k, n)
  {
    if n == 1 {
      return;
    }
    IntPowAtLeastBase(k, n - 1);
    assert IntPow(k, n) == k * IntPow(k, n - 1);
    MulMonotone(k, k, IntPow(k, n - 1));
    if k > 0 {
      MulMonotone(IntPow(k, n - 1), 1, k);
    }
  }

  lemma {:induction false} IntPowOfOne(n: nat)
    ensures IntPow(1, n) == 1
  {
    if n > 0 {
      IntPowOfOne(n - 1);
    }
  }

  /** 2^15 is not a square: 181^2 < 2^15 < 182^2. */
  lemma NotSquare(k: int)
    ensures k * k != 0x8000
  {
    var m := Abs(k);
    assert k * k == m * m;
    if m <= 181 {
      MulMonotone(m, m, 181);
      MulMonotone(181, m, 181);
    } else {
      MulMonotone(m, 182, m);
      MulMonotone(182, 182, m);
    }
  }

  /** In magnitude the factor a round takes into the result, and from the
      second power on the squared base, are bounded by the final power. */
  lemma PowMagnitude(r: int, k: int, n: nat)
    requires r != 0 && 1 <= n
    ensures Abs(r * k) <= Abs(r * IntPow(k, n))
    ensures 2 <= n ==> k * k <= Abs(r * IntPow(k, n))
  {
    var kk, p := Abs(k), IntPow(k, n);
    IntPowAbs(k, n);
    IntPowAtLeastBase(kk, n);
    AbsMul(r, k);
    AbsMul(r, p);
    MulMonotone(Abs(r), kk, Abs(p));
    if 2 <= n {
      AbsMul(k, k);
      MulMonotone(Abs(p), 1, Abs(r));
    }
  }

  /** From the second power on, a base of magnitude 2 or more makes the
      final power strictly larger than one factor of it. */
  lemma PowGrows(r: int, k: int, n: nat)
    requires r != 0 && 2 <= n && 2 <= Abs(k)
    ensures Abs(r * k) < Abs(r * IntPow(k, n))
  {
    var kk, p := Abs(k), IntPow(k, n);
    IntPowAbs(k, n);
    IntPowAtLeastBase(kk, n);
    MulMonotone(kk, 2, kk);
    assert kk + 1 <= Abs(p);
    MulMonotone(Abs(r), kk + 1, Abs(p));
    assert Abs(r) * (kk + 1) == Abs(r) * kk + Abs(r);
    AbsMul(r, k);
    AbsMul(r, p);
  }

  /** An odd power of 1 or -1 is the number itself. */
  lemma OddPowerOfUnit(k: int, n: nat)
    requires k * k == 1 && n % 2 == 1
    ensures IntPow(k, n) == k
  {
    IntPowSplit(k, n);
    IntPowOfOne(n / 2);
  }

  /** One round of the loop on integers: the factor it takes into the result
      and the squared base both fit, because each is bounded by the final
      power in magnitude and neither can be +2^15, the one magnitude of the
      final power that only its negative value reaches; the squared base
      only matters if another round follows. */
  lemma PowRoundBounds(r: int, k: int, n: nat)
    requires r != 0 && 1 <= n
    requires -0x8000 <= r * IntPow(k, n) <= 0x7FFF
    ensures n % 2 == 1 ==> -0x8000 <= r * k <= 0x7FFF
    ensures 2 <= n ==> 0 <= k * k <= 0x7FFF
  {
    PowMagnitude(r, k, n);
    if n % 2 == 1 && r * k == 0x8000 {
      // |r k| = 2^15 = |r k^n| forces k^n = k, against r k^n < 2^15
      if n != 1 {
        if Abs(k) == 1 {
          assert k * k == 1;
          OddPowerOfUnit(k, n);
        } else {
          PowGrows(r, k, n);
        }
      }
      assert false;
    }
    if 2 <= n {
      NotSquare(k);
    }
  }

  /** The squaring loop is exact on integers as long as the final power fits
      in Q16.16: every base and partial result it uses is bounded by it. The
      base squared after the last round may wrap, but is never used. */
  lemma {:induction false} PowLoopInteger(r: int, k: int, n: nat)
    requires -0x8000 <= r <= 0x7FFF && -0x8000 <= k <= 0x7FFF
    requires -0x8000 <= r * IntPow(k, n) <= 0x7FFF
    ensures PowLoop(FromInt(r), FromInt(k), n) == FromInt(r * IntPow(k, n))
    decreases n
  {
    if n == 0 {
      return;
    }
    if r == 0 {
      return;
    }
    var h := n / 2;
    var c := if n % 2 == 1 then k else 1;
    IntPowSplit(k, n);
    assert r * IntPow(k, n) == (r * c) * IntPow(k * k, h);
    PowRoundBounds(r, k, n);
    if n % 2 == 1 {
      MulFromInt(r, k);
    }
    if n == 1 {
      return;
    }
    MulFromInt(k, k);
    PowLoopInteger(r * c, k * k, h);
  }

  /** For integer bases, Pow is integer exponentiation while the power fits
      in Q16.16. */
  lemma PowInteger(k: int, n: Int32)
    requires -0x8000 <= k <= 0x7FFF && 0 <= n
    requires -0x8000 <= IntPow(k, n) <= 0x7FFF
    ensures PowSpec(FromInt(k), n) == Success(FromInt(IntPow(k, n)))
  {
    PowLoopInteger(1, k, n);
  }

  /** `Pow(a, 0)` is One for every a, including Zero, and `Pow(a, 1)` is a. */
  lemma PowSmallExponents(a: Fixed)
    ensures PowSpec(a, 0) == Success(One)
    ensures PowSpec(a, 1) == Success(a)
  {
    MulOne(a);
  }

  /** A negative exponent yields the reciprocal of the positive power. */
  lemma PowNegative(a: Fixed, b: Int32)
    requires MinInt32 < b < 0
    ensures PowSpec(a, -b).Success?
    ensures PowSpec(a, b) == Div(One, PowSpec(a, -b).value)
  {
  }

  /** The sums, differences, products and quotients the unit tests check;
      1.5 is raw 0x1_8000. */
  lemma ArithmeticExamples()
    ensures FromInt(5).raw == 5 * OneRaw
    ensures Add(FromInt(5), FromInt(10)) == FromInt(15)
    ensures Sub(FromInt(10), FromInt(5)) == FromInt(5)
    ensures Mul(Fixed(0x1_8000), FromInt(2)) == FromInt(3)
    ensures Div(FromInt(3), Fixed(0x1_8000)) == Success(FromInt(2))
  {
    TruncDivUnique(3 * OneRaw * OneRaw, 0x1_8000, 2 * OneRaw);
  }

  /** 2^3 = 8 and 2^2 = 4, exactly, and (-2)^15 = -2^15, the least integer
      Q16.16 holds. */
  lemma PowIntegerExamples()
    ensures PowSpec(FromInt(2), 3) == Success(FromInt(8))
    ensures PowSpec(FromInt(2), 2) == Success(FromInt(4))
    ensures PowSpec(FromInt(-2), 15) == Success(FromInt(-0x8000))
  {
    assert IntPow(-2, 15) == -0x8000;
    PowInteger(-2, 15);
    assert IntPow(2, 3) == 8;
    PowInteger(2, 3);
    assert IntPow(2, 2) == 4;
    PowInteger(2, 2);
  }

  /** 2^-3 is exactly 0.125 (raw 0x2000). */
  lemma PowNegativeExample()
    ensures PowSpec(FromInt(2), -3) == Success(Fixed(0x2000))
  {
    PowIntegerExamples();
  }

  /** 3.5^4 is exactly 150.0625 (raw 0x96_1000). */
  lemma PowFractionalExample()
    ensures PowSpec(Fixed(0x3_8000), 4) == Success(Fixed(0x96_1000))
  {
    var a := Fixed(0x3_8000);
    var a2 := Mul(a, a);
    assert a2 == Fixed(0xC_4000);
    var a4 := Mul(a2, a2);
    assert a4 == Fixed(0x96_1000);
    assert PowLoop(One, a, 4) == PowLoop(One, a2, 2) == PowLoop(One, a4, 1);
    MulOne(a4);
  }
}
