/** Two defects of the square root, each shown on the code as written and
    repaired in a corrected version.

    The first round overflows for the largest inputs. With the estimate
    seeded by a, the first round computes a + a / a, which is a + 1.0. For
    raw values above int.MaxValue - 2^16 that sum wraps to a negative
    number, and Sqrt returns a negative result for a positive argument.
    SqrtCorrected forms the sum in 64 bits: every estimate then stays at or
    above the integer square root, and the result agrees with the code
    wherever the code does not wrap.

    Six rounds from the seed a do not reach the root. Each round from far
    above the root roughly halves the estimate, so after six rounds the
    estimate is still far from the root for large and for tiny arguments.
    SqrtConverged keeps iterating while the estimate decreases, and returns
    the square root rounded down to a multiple of 2^-16. */
module SqrtFindings {
  import opened TwosComplement
  import opened FixedPoint
  import opened FixedMath

  // ---------------------------------------------------------------------
  // The code as written

  /** For every raw above int.MaxValue - 2^16 the first round already
      yields a negative estimate. */
  lemma SqrtFirstRoundWraps(a: Fixed)
    requires MaxInt32 - OneRaw < a.raw
    ensures Estimate(a, 1).Success? && Estimate(a, 1).value.raw < 0
  {
    DivSelf(a);
    EstimateNext(a, 0, a);
    var s := Add(a, One);
    assert s.raw == a.raw + OneRaw - Modulus;
    HalveScaled(s.raw);
  }

  /** Sqrt of the largest value, raw int.MaxValue (about 32768.0), is
      negative: raw -34938726, about -533.1. */
  lemma SqrtOfMaxRawIsNegative()
    ensures SqrtSpec(Fixed(MaxInt32)) == Success(Fixed(-34938726))
  {
    var a := Fixed(MaxInt32);
    MaxRawLateRounds();
    StopIndexStep(a, 1);
    StopIndexStep(a, 2);
    StopIndexStep(a, 3);
    StopIndexStep(a, 4);
    StopIndexStep(a, 5);
  }

  /** The first three estimates for raw int.MaxValue; the first wraps. */
  lemma MaxRawEarlyRounds()
    ensures Estimate(Fixed(MaxInt32), 1) == Success(Fixed(-1073709056))
    ensures Estimate(Fixed(MaxInt32), 2) == Success(Fixed(-536920066))
    ensures Estimate(Fixed(MaxInt32), 3) == Success(Fixed(-268591093))
  {
    var a := Fixed(MaxInt32);
    EstimateNext(a, 0, a);
    assert NewtonStep(a, a) == Success(Fixed(-1073709056));
    EstimateNext(a, 1, Fixed(-1073709056));
    assert NewtonStep(a, Fixed(-1073709056)) == Success(Fixed(-536920066));
    EstimateNext(a, 2, Fixed(-536920066));
    assert NewtonStep(a, Fixed(-536920066)) == Success(Fixed(-268591093));
  }

  /** All six estimates for raw int.MaxValue; none repeats its predecessor. */
  lemma MaxRawLateRounds()
    ensures Estimate(Fixed(MaxInt32), 1) == Success(Fixed(-1073709056))
    ensures Estimate(Fixed(MaxInt32), 2) == Success(Fixed(-536920066))
    ensures Estimate(Fixed(MaxInt32), 3) == Success(Fixed(-268591093))
    ensures Estimate(Fixed(MaxInt32), 4) == Success(Fixed(-134557538))
    ensures Estimate(Fixed(MaxInt32), 5) == Success(Fixed(-67801732))
    ensures Estimate(Fixed(MaxInt32), 6) == Success(Fixed(-34938726))
  {
    var a := Fixed(MaxInt32);
    MaxRawEarlyRounds();
    EstimateNext(a, 3, Fixed(-268591093));
    assert NewtonStep(a, Fixed(-268591093)) == Success(Fixed(-134557538));
    EstimateNext(a, 4, Fixed(-134557538));
    assert NewtonStep(a, Fixed(-134557538)) == Success(Fixed(-67801732));
    EstimateNext(a, 5, Fixed(-67801732));
    assert NewtonStep(a, Fixed(-67801732)) == Success(Fixed(-34938726));
  }

  /** Sqrt(10000) returns about 177.02 (raw 11601055); the root is 100.0
      (raw 6553600). All six rounds run and none settles. */
  lemma SqrtOfTenThousand()
    ensures SqrtSpec(FromInt(10000)) == Success(Fixed(11601055))
    ensures Isqrt(FromInt(10000).raw * OneRaw) == 6553600
  {
    var a := FromInt(10000);
    assert a == Fixed(655360000);
    TenThousandRounds();
    StopIndexStep(a, 1);
    StopIndexStep(a, 2);
    StopIndexStep(a, 3);
    StopIndexStep(a, 4);
    StopIndexStep(a, 5);
    IsqrtUnique(655360000 * OneRaw, 6553600);
  }

  lemma TenThousandEarlyRounds()
    ensures Estimate(Fixed(655360000), 1) == Success(Fixed(327712768))
    ensures Estimate(Fixed(655360000), 2) == Success(Fixed(163921913))
    ensures Estimate(Fixed(655360000), 3) == Success(Fixed(82091963))
  {
    var a := Fixed(655360000);
    EstimateNext(a, 0, a);
    assert NewtonStep(a, a) == Success(Fixed(327712768));
    EstimateNext(a, 1, Fixed(327712768));
    assert NewtonStep(a, Fixed(327712768)) == Success(Fixed(163921913));
    EstimateNext(a, 2, Fixed(163921913));
    assert NewtonStep(a, Fixed(163921913)) == Success(Fixed(82091963));
  }

  lemma TenThousandRounds()
    ensures Estimate(Fixed(655360000), 1) == Success(Fixed(327712768))
    ensures Estimate(Fixed(655360000), 2) == Success(Fixed(163921913))
    ensures Estimate(Fixed(655360000), 3) == Success(Fixed(82091963))
    ensures Estimate(Fixed(655360000), 4) == Success(Fixed(41307576))
    ensures Estimate(Fixed(655360000), 5) == Success(Fixed(21173664))
    ensures Estimate(Fixed(655360000), 6) == Success(Fixed(11601055))
  {
    var a := Fixed(655360000);
    TenThousandEarlyRounds();
    EstimateNext(a, 3, Fixed(82091963));
    assert NewtonStep(a, Fixed(82091963)) == Success(Fixed(41307576));
    EstimateNext(a, 4, Fixed(41307576));
    assert NewtonStep(a, Fixed(41307576)) == Success(Fixed(21173664));
    EstimateNext(a, 5, Fixed(21173664));
    assert NewtonStep(a, Fixed(21173664)) == Success(Fixed(11601055));
  }

  /** Sqrt of the smallest positive value 2^-16 returns raw 1044, about
      0.0159; the root is 2^-8 (raw 256). */
  lemma SqrtOfSmallestPositive()
    ensures SqrtSpec(Fixed(1)) == Success(Fixed(1044))
    ensures Isqrt(Fixed(1).raw * OneRaw) == 256
  {
    var a := Fixed(1);
    SmallestPositiveRounds();
    StopIndexStep(a, 1);
    StopIndexStep(a, 2);
    StopIndexStep(a, 3);
    StopIndexStep(a, 4);
    StopIndexStep(a, 5);
    IsqrtUnique(OneRaw, 256);
  }

  lemma SmallestPositiveEarlyRounds()
    ensures Estimate(Fixed(1), 1) == Success(Fixed(32768))
    ensures Estimate(Fixed(1), 2) == Success(Fixed(16385))
    ensures Estimate(Fixed(1), 3) == Success(Fixed(8194))
  {
    var a := Fixed(1);
    EstimateNext(a, 0, a);
    assert NewtonStep(a, a) == Success(Fixed(32768));
    EstimateNext(a, 1, Fixed(32768));
    assert NewtonStep(a, Fixed(32768)) == Success(Fixed(16385));
    EstimateNext(a, 2, Fixed(16385));
    assert NewtonStep(a, Fixed(16385)) == Success(Fixed(8194));
  }

  lemma SmallestPositiveRounds()
    ensures Estimate(Fixed(1), 1) == Success(Fixed(32768))
    ensures Estimate(Fixed(1), 2) == Success(Fixed(16385))
    ensures Estimate(Fixed(1), 3) == Success(Fixed(8194))
    ensures Estimate(Fixed(1), 4) == Success(Fixed(4100))
    ensures Estimate(Fixed(1), 5) == Success(Fixed(2057))
    ensures Estimate(Fixed(1), 6) == Success(Fixed(1044))
  {
    var a := Fixed(1);
    SmallestPositiveEarlyRounds();
    EstimateNext(a, 3, Fixed(8194));
    assert NewtonStep(a, Fixed(8194)) == Success(Fixed(4100));
    EstimateNext(a, 4, Fixed(4100));
    assert NewtonStep(a, Fixed(4100)) == Success(Fixed(2057));
    EstimateNext(a, 5, Fixed(2057));
    assert NewtonStep(a, Fixed(2057)) == Success(Fixed(1044));
  }

  // ---------------------------------------------------------------------
  // Arithmetic facts

  lemma DivSelf(a: Fixed)
    requires 0 < a.raw
    ensures Div(a, a) == Success(One)
  {
    TruncDivUnique(a.raw * OneRaw, a.raw, OneRaw);
  }

  /** Dividing by FromInt(2) halves the raw value, rounding toward zero. */
  lemma HalveScaled(x: Int32)
    ensures Div(Fixed(x), FromInt(2)) == Success(Fixed(TruncDiv(x, 2)))
  {
    var q := TruncDiv(x, 2);
    TruncDivUnique(x * OneRaw, 2 * OneRaw, q);
  }

  /** Integer square root: the largest s with s * s <= n. */
  function Isqrt(n: nat): (s: nat)
    ensures s * s <= n < (s + 1) * (s + 1)
  {
    if n == 0 then 0
    else
      var r := Isqrt(n - 1);
      assert (r + 2) * (r + 2) == (r + 1) * (r + 1) + 2 * r + 3;
      if (r + 1) * (r + 1) <= n then r + 1 else r
  }

  lemma MulCancel(x: int, y: int, e: int)
    requires 0 < e && x * e < y * e
    ensures x < y
  {
    if y <= x {
      MulMonotone(e, y, x);
      assert false;
    }
  }

  lemma SquareLess(x: nat, y: nat)
    requires x * x < y * y
    ensures x < y
  {
    if y <= x {
      MulMonotone(y, y, x);
      MulMonotone(x, y, x);
      assert false;
    }
  }

  /** Isqrt is characterised by its contract: any s with s^2 <= n < (s+1)^2
      is Isqrt(n). */
  lemma IsqrtUnique(n: nat, s: nat)
    requires s * s <= n < (s + 1) * (s + 1)
    ensures Isqrt(n) == s
  {
    var t := Isqrt(n);
    SquareLess(s, t + 1);
    SquareLess(t, s + 1);
  }

  /** Above the root, a Newton round strictly lowers the estimate. */
  lemma AboveRootDecreases(n: nat, e: int, s: nat)
    requires s * s <= n < (s + 1) * (s + 1) && s < e
    ensures (e + n / e) / 2 < e
  {
    var q := n / e;
    assert q * e <= n;
    MulMonotone(s + 1, s + 1, e);
    MulMonotone(e, s + 1, e);
    if e <= q {
      MulMonotone(e, e, q);
      assert false;
    }
  }

  /** The Newton average never drops below a root from below:
      e + n / e >= 2 s whenever s * s <= n. */
  lemma NewtonNotBelowRoot(n: nat, e: int, s: nat)
    requires 1 <= e && s * s <= n
    ensures 2 * s <= e + n / e
  {
    var q := n / e;
    QuotientAbove(n, e);
    SquareGap(s, e);
    assert (2 * s - e) * e < (q + 1) * e;
    MulCancel(2 * s - e, q + 1, e);
  }

  lemma QuotientAbove(n: nat, e: int)
    requires 1 <= e
    ensures n < (n / e + 1) * e
  {
    var q := n / e;
    assert n == q * e + n % e;
    assert (q + 1) * e == q * e + e;
  }

  /** (2s - e) e = s^2 - (s - e)^2 <= s^2 */
  lemma SquareGap(s: int, e: int)
    ensures (2 * s - e) * e <= s * s
  {
    var d := s - e;
    assert (2 * s - e) * e == s * s - d * d;
    assert d * d >= 0;
  }

  /** Above the root, the quotient n / e is at most the root plus 2. */
  lemma QuotientBound(n: nat, e: int, s: nat)
    requires 1 <= s <= e && n < (s + 1) * (s + 1)
    ensures n / e <= s + 2
  {
    var q := n / e;
    assert q * e <= n;
    MulMonotone(s, s, e);
    assert (s + 1) * (s + 1) == s * s + 2 * s + 1;
    assert n < (s + 3) * e;
    MulCancel(q, s + 3, e);
  }

  // ---------------------------------------------------------------------
  // The corrected round

  /** Every estimate of the corrected iteration after the first round is
      at most this (the first round gives at most (2^31 - 1 + 2^16) / 2). */
  const WideBound: int := 0x4000_8000

  /** The corrected round: `(int)(((long)e.raw + (a / e).raw) / 2)`, the sum
      formed in 64 bits so that it cannot wrap. */
  function WideNewtonStep(a: Fixed, e: Fixed): (r: Result<Fixed>)
    ensures r.Failure? <==> e.raw == 0
  {
    match Div(a, e)
    case Failure(err) => Failure(err)
    case Success(q) => Success(Fixed(Wrap32(TruncDiv(e.raw + q.raw, 2))))
  }

  /** From any positive estimate whose quotient fits, the corrected round
      never drops below the root: the unwrapped Newton average is at least
      the root, and halving it keeps it within `int`. */
  lemma WideSumNotBelowRoot(a: Fixed, e: Fixed)
    requires 0 < a.raw && 0 < e.raw && (a.raw * OneRaw) / e.raw <= MaxInt32
    ensures WideNewtonStep(a, e).Success?
    ensures Isqrt(a.raw * OneRaw) <= WideNewtonStep(a, e).value.raw
  {
    var n := a.raw * OneRaw;
    DivPositive(a, e);
    NewtonNotBelowRoot(n, e.raw, Isqrt(n));
    var sum := e.raw + n / e.raw;
    assert TruncDiv(sum, 2) == sum / 2;
  }

  /** Where the sum does not overflow, the corrected round is the round the
      code performs. */
  lemma WideStepAgrees(a: Fixed, e: Fixed)
    requires 0 < e.raw && Div(a, e).Success?
    requires IsInt32(e.raw + Div(a, e).value.raw)
    ensures WideNewtonStep(a, e) == NewtonStep(a, e)
  {
    var q := Div(a, e).value;
    assert Add(e, q).raw == e.raw + q.raw;
    HalveScaled(e.raw + q.raw);
  }

  /** The root of a positive raw scaled by 2^16 is at least 1 and below 2^24. */
  lemma RootRange(a: Fixed)
    requires 0 < a.raw
    ensures 1 <= Isqrt(a.raw * OneRaw) < 0x100_0000
  {
    var n := a.raw * OneRaw;
    var s := Isqrt(n);
    assert n < 0x100_0000 * 0x100_0000;
    SquareLess(s, 0x100_0000);
    assert 1 * 1 < (s + 1) * (s + 1);
    SquareLess(1, s + 1);
  }

  /** A positive raw divided by a positive raw, when the quotient fits. */
  lemma DivPositive(a: Fixed, e: Fixed)
    requires 0 < a.raw && 0 < e.raw
    requires (a.raw * OneRaw) / e.raw <= MaxInt32
    ensures Div(a, e) == Success(Fixed((a.raw * OneRaw) / e.raw))
  {
    assert TruncDiv(a.raw * OneRaw, e.raw) == (a.raw * OneRaw) / e.raw;
  }

  /** The integer content of the first corrected round: on the seed the
      quotient is exactly 2^16, and the halved sum lies between the root
      and WideBound. */
  lemma WideRoundSeed(n: nat, e: int, s: nat)
    requires s * s <= n
    requires 1 <= e <= MaxInt32 && n == e * OneRaw
    ensures n / e == OneRaw
    ensures s <= (e + n / e) / 2 <= WideBound
  {
    TruncDivUnique(n, e, OneRaw);
    NewtonNotBelowRoot(n, e, s);
  }

  /** The integer content of a later corrected round: from at or above the
      root the quotient is at most root + 2, and the halved sum lies
      between the root and WideBound. */
  lemma WideRoundAbove(n: nat, e: int, s: nat)
    requires 1 <= s < 0x100_0000 && s * s <= n < (s + 1) * (s + 1)
    requires s <= e <= WideBound
    ensures 0 <= n / e <= s + 2
    ensures s <= (e + n / e) / 2 <= WideBound
  {
    QuotientBound(n, e, s);
    NewtonNotBelowRoot(n, e, s);
  }

  /** One corrected round from the seed, or from an estimate between the
      root and WideBound, lands between the root and WideBound again. */
  lemma WideStepBounds(a: Fixed, e: Fixed)
    requires 0 < a.raw && 0 < e.raw
    requires e == a || Isqrt(a.raw * OneRaw) <= e.raw <= WideBound
    ensures Isqrt(a.raw * OneRaw) < 0x100_0000
    ensures Div(a, e).Success?
    ensures e == a ==> Div(a, e) == Success(One)
    ensures Isqrt(a.raw * OneRaw) <= e.raw ==>
              0 <= Div(a, e).value.raw <= Isqrt(a.raw * OneRaw) + 2
    ensures WideNewtonStep(a, e).Success?
    ensures Isqrt(a.raw * OneRaw) <= WideNewtonStep(a, e).value.raw <= WideBound
    ensures WideNewtonStep(a, e).value.raw == (e.raw + (a.raw * OneRaw) / e.raw) / 2
  {
    var n := a.raw * OneRaw;
    var s := Isqrt(n);
    RootRange(a);
    var q := n / e.raw;
    if s <= e.raw {
      QuotientBound(n, e.raw, s);
    }
    if e == a {
      WideRoundSeed(n, e.raw, s);
    } else {
      WideRoundAbove(n, e.raw, s);
    }
    assert 0 <= q <= MaxInt32 && s <= (e.raw + q) / 2 <= WideBound;
    DivPositive(a, e);
    var sum := e.raw + q;
    assert TruncDiv(sum, 2) == sum / 2;
    assert WideNewtonStep(a, e) == Success(Fixed(sum / 2));
  }

  /** The state of the corrected loop after i rounds with estimate e: the
      seed, or an estimate between the root and WideBound; for an argument
      up to int.MaxValue - 2^16 it is also the code's state. */
  predicate OnTrack(a: Fixed, i: nat, e: Fixed)
  {
    0 < a.raw && 0 < e.raw && i <= MaxIterations &&
    (i == 0 ==> e == a) &&
    (0 < i ==> Isqrt(a.raw * OneRaw) <= e.raw <= WideBound) &&
    (a.raw <= MaxInt32 - OneRaw ==> Follows(a, i, e))
  }

  /** What the corrected loop promises when it returns e. */
  predicate Answered(a: Fixed, e: Fixed)
  {
    0 < a.raw && Isqrt(a.raw * OneRaw) <= e.raw &&
    (a.raw <= MaxInt32 - OneRaw ==> SqrtSpec(a) == Success(e))
  }

  /** One round of the corrected loop: it never raises; an estimate it
      repeats is an answer, and any other keeps the loop on track. */
  lemma CorrectedRound(a: Fixed, i: nat, e: Fixed)
    requires i < MaxIterations && OnTrack(a, i, e)
    ensures WideNewtonStep(a, e).Success?
    ensures WideNewtonStep(a, e) == Success(e) ==> Answered(a, e)
    ensures WideNewtonStep(a, e) != Success(e) ==>
              OnTrack(a, i + 1, WideNewtonStep(a, e).value)
  {
    RootRange(a);
    WideStepBounds(a, e);
    if a.raw <= MaxInt32 - OneRaw {
      WideStepAgrees(a, e);
      FollowsNext(a, i, e);
    }
  }

  /** After the sixth round the loop holds an answer. */
  lemma OnTrackToTheEnd(a: Fixed, e: Fixed)
    requires OnTrack(a, MaxIterations, e)
    ensures Answered(a, e)
  {
  }

  /** `Sqrt` with the corrected round. For a positive argument it never
      raises and its result is at least the integer square root of the
      argument (rounded down in raw units), hence positive; for every
      argument up to int.MaxValue - 2^16 it returns what the code returns. */
  method SqrtCorrected(a: Fixed) returns (r: Result<Fixed>)
    ensures a.raw < 0 ==> r == Failure(ArgumentOutOfRange)
    ensures a.raw == 0 ==> r == Success(Zero)
    ensures 0 < a.raw ==> r.Success? && Isqrt(a.raw * OneRaw) <= r.value.raw
    ensures a.raw <= MaxInt32 - OneRaw ==> r == SqrtSpec(a)
  {
    if a.raw < 0 {
      return Failure(ArgumentOutOfRange);
    }
    if a.raw == 0 {
      return Success(Zero);
    }
    var estimate := a;
    var i := 0;
    while i < MaxIterations
      invariant OnTrack(a, i, estimate)
    {
      var lastValue := estimate;
      CorrectedRound(a, i, estimate);
      estimate := WideNewtonStep(a, estimate).value;
      if estimate == lastValue {
        break;
      }
      i := i + 1;
    }
    if i == MaxIterations {
      OnTrackToTheEnd(a, estimate);
    }
    r := Success(estimate);
  }

  /** From any state on track, the code's Sqrt answers at or above the root
      whenever the argument is at most int.MaxValue - 2^16. */
  lemma {:induction false} OnTrackAnswers(a: Fixed, i: nat, e: Fixed)
    requires OnTrack(a, i, e) && a.raw <= MaxInt32 - OneRaw
    ensures SqrtSpec(a).Success?
    ensures Isqrt(a.raw * OneRaw) <= SqrtSpec(a).value.raw
    decreases MaxIterations - i
  {
    if i == MaxIterations {
      OnTrackToTheEnd(a, e);
    } else {
      CorrectedRound(a, i, e);
      if WideNewtonStep(a, e) != Success(e) {
        OnTrackAnswers(a, i + 1, WideNewtonStep(a, e).value);
      }
    }
  }

  /** Below the overflow range the code's Sqrt never raises on a positive
      argument, and it never answers below the integer square root. */
  lemma SqrtSpecAtLeastRoot(a: Fixed)
    requires 0 < a.raw <= MaxInt32 - OneRaw
    ensures SqrtSpec(a).Success?
    ensures 0 < Isqrt(a.raw * OneRaw) <= SqrtSpec(a).value.raw
  {
    RootRange(a);
    assert Follows(a, 0, a);
    OnTrackAnswers(a, 0, a);
  }

  // ---------------------------------------------------------------------
  // Running Newton's iteration to convergence

  /** `Sqrt` with the 64-bit round and without the six-round budget: after
      the first round the estimate is at or above the root, and it keeps
      iterating while the estimate strictly decreases. The result is the
      square root rounded down to Q16.16: its square is at most the
      argument, and the square of the next Q16.16 value above it is larger. */
  method SqrtConverged(a: Fixed) returns (r: Result<Fixed>)
    ensures a.raw < 0 ==> r == Failure(ArgumentOutOfRange)
    ensures a.raw == 0 ==> r == Success(Zero)
    ensures 0 < a.raw ==> r == Success(Fixed(Isqrt(a.raw * OneRaw)))
  {
    if a.raw < 0 {
      return Failure(ArgumentOutOfRange);
    }
    if a.raw == 0 {
      return Success(Zero);
    }
    ghost var root := Isqrt(a.raw * OneRaw);
    ConvergedRound(a, a);
    var estimate := WideNewtonStep(a, a).value;
    ConvergedRound(a, estimate);
    var next := WideNewtonStep(a, estimate).value;
    while next.raw < estimate.raw
      invariant root <= estimate.raw <= WideBound
      invariant root <= next.raw <= WideBound
      invariant estimate.raw <= next.raw ==> estimate.raw == root
      decreases estimate.raw
    {
      estimate := next;
      ConvergedRound(a, estimate);
      next := WideNewtonStep(a, estimate).value;
    }
    r := Success(estimate);
  }

  /** One round of the converging loop: it lands between the root and
      WideBound, and from above the root it strictly decreases, so a round
      that does not decrease starts from the root itself. */
  lemma ConvergedRound(a: Fixed, e: Fixed)
    requires 0 < a.raw && 0 < e.raw
    requires e == a || Isqrt(a.raw * OneRaw) <= e.raw <= WideBound
    ensures WideNewtonStep(a, e).Success?
    ensures Isqrt(a.raw * OneRaw) <= WideNewtonStep(a, e).value.raw <= WideBound
    ensures Isqrt(a.raw * OneRaw) <= e.raw <= WideNewtonStep(a, e).value.raw ==>
              e.raw == Isqrt(a.raw * OneRaw)
  {
    var n := a.raw * OneRaw;
    var s := Isqrt(n);
    WideStepBounds(a, e);
    var v := WideNewtonStep(a, e).value.raw;
    assert v == (e.raw + n / e.raw) / 2;
    if s < e.raw {
      AboveRootDecreases(n, e.raw, s);
      assert v < e.raw;
    }
  }
}
