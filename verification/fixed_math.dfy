/** `FixedMath`: stateless functions over `Fixed` — a second entry point for
    integer power, a Newton–Raphson square root bounded at six rounds, and
    absolute value, minimum, maximum, clamping and interpolation. Ordering and
    equality of `Fixed` are those of `raw`. */
module FixedMath {
  import opened TwosComplement
  import opened FixedPoint

  /** `FixedMath.Pow(a, b)`: the same exponentiation by squaring as
      `Fixed.Pow`, with `Fixed.ONE` in place of `FromInt(1)`; it returns
      and raises exactly what `Fixed.Pow` does. */
  method Pow(a: Fixed, b: Int32) returns (r: Result<Fixed>)
    ensures r == PowSpec(a, b)
  {
    if b == 0 {
      return Success(One);
    }
    if b == MinInt32 {
      // Math.Abs(int.MinValue) throws
      return Failure(Overflow);
    }
    var result := One;
    var baseValue := a;
    var exponent: int := TwosComplement.Abs(b);
    while exponent > 0
      invariant 0 <= exponent
      invariant PowLoop(result, baseValue, exponent) == PowLoop(One, a, TwosComplement.Abs(b))
    {
      if exponent % 2 == 1 {       // (expoent & 1) == 1
        result := Mul(result, baseValue);
      }
      baseValue := Mul(baseValue, baseValue);
      exponent := exponent / 2;    // expoent >>= 1
    }
    if b < 0 {
      r := Div(One, result);
    } else {
      r := Success(result);
    }
  }

  // ---------------------------------------------------------------------
  // Square root

  /** The number of Newton–Raphson rounds Sqrt allows */
  const MaxIterations: nat := 6

  /** One Newton–Raphson round `e := (e + a / e) / FromInt(2)`, in wrapping
      fixed-point arithmetic. It fails only when the estimate is zero. */
  function NewtonStep(a: Fixed, e: Fixed): (r: Result<Fixed>)
    ensures r.Failure? <==> e.raw == 0
    ensures r.Failure? ==> r.error == DivideByZero
  {
    match Div(a, e)
    case Failure(err) => Failure(err)
    case Success(q) => Div(Add(e, q), FromInt(2))
  }

  /** The k-th estimate of the iteration seeded with a: estimate 0 is a
      itself, and a failure propagates. */
  function Estimate(a: Fixed, k: nat): (r: Result<Fixed>)
    ensures r.Failure? ==> r.error == DivideByZero
  {
    if k == 0 then Success(a)
    else
      match Estimate(a, k - 1)
      case Failure(err) => Failure(err)
      case Success(e) => NewtonStep(a, e)
  }

  /** Round k ends the loop early: it raised, or it repeated the previous
      estimate bit for bit. */
  predicate Settled(a: Fixed, k: nat)
    requires 1 <= k
  {
    Estimate(a, k).Failure? || Estimate(a, k) == Estimate(a, k - 1)
  }

  /** The round whose estimate Sqrt returns, searching from round k: the
      first that settles, or the last. */
  function StopIndex(a: Fixed, k: nat): (j: nat)
    requires 1 <= k <= MaxIterations
    ensures k <= j <= MaxIterations
    ensures forall i :: k <= i < j ==> !Settled(a, i)
    ensures j < MaxIterations ==> Settled(a, j)
    decreases MaxIterations - k
  {
    if k == MaxIterations || Settled(a, k) then k else StopIndex(a, k + 1)
  }

  /** What `Sqrt(a)` returns or raises */
  function SqrtSpec(a: Fixed): (r: Result<Fixed>)
    ensures r == Failure(ArgumentOutOfRange) <==> a.raw < 0
    ensures a.raw == 0 ==> r == Success(Zero)
    ensures 0 < a.raw ==> r.Failure? ==> r.error == DivideByZero
  {
    if a.raw < 0 then Failure(ArgumentOutOfRange)
    else if a.raw == 0 then Success(Zero)
    else
      Estimate(a, StopIndex(a, 1))
  }

  lemma EstimateNext(a: Fixed, k: nat, e: Fixed)
    requires Estimate(a, k) == Success(e)
    ensures Estimate(a, k + 1) == NewtonStep(a, e)
  {
  }

  /** The search moves past a round that does not settle, and stops at one
      that does. */
  lemma StopIndexStep(a: Fixed, k: nat)
    requires 1 <= k <= MaxIterations
    ensures Settled(a, k) ==> StopIndex(a, k) == k
    ensures !Settled(a, k) && k < MaxIterations ==> StopIndex(a, k) == StopIndex(a, k + 1)
  {
  }

  /** After i completed rounds the loop holds estimate e, and the round
      SqrtSpec returns has not been passed. */
  predicate Follows(a: Fixed, i: nat, e: Fixed)
  {
    i <= MaxIterations && Estimate(a, i) == Success(e) &&
    (i < MaxIterations ==> StopIndex(a, 1) == StopIndex(a, i + 1)) &&
    (i == MaxIterations ==> StopIndex(a, 1) == MaxIterations)
  }

  /** One more round of the loop: if it raises or repeats the estimate, the
      loop's answer is SqrtSpec's; otherwise the loop still follows it. */
  lemma FollowsNext(a: Fixed, i: nat, e: Fixed)
    requires 0 < a.raw && i < MaxIterations && Follows(a, i, e)
    ensures NewtonStep(a, e).Failure? || NewtonStep(a, e) == Success(e) ==>
              SqrtSpec(a) == NewtonStep(a, e)
    ensures NewtonStep(a, e).Success? && NewtonStep(a, e) != Success(e) ==>
              Follows(a, i + 1, NewtonStep(a, e).value)
  {
    var next := NewtonStep(a, e);
    EstimateNext(a, i, e);
    StopIndexStep(a, i + 1);
    if next.Failure? || next == Success(e) {
      assert Settled(a, i + 1);
      assert StopIndex(a, 1) == i + 1;
    } else {
      assert !Settled(a, i + 1);
    }
  }

  /** `FixedMath.Sqrt(a)`: Newton–Raphson seeded with a, at most six rounds,
      stopping at the first round that repeats its predecessor. */
  method Sqrt(a: Fixed) returns (r: Result<Fixed>)
    ensures r == SqrtSpec(a)
  {
    if a.raw < 0 {
      return Failure(ArgumentOutOfRange);
    }
    if a.raw == 0 {
      return Success(Zero);
    }
    var estimate := a;
    var i := 0;
    while i < MaxIterations
      invariant 0 <= i <= MaxIterations
      invariant Follows(a, i, estimate)
    {
      var lastValue := estimate;
      var next := NewtonStep(a, estimate);
      FollowsNext(a, i, estimate);
      if next.Failure? {
        // DivideByZeroException from a / estimatedValue
        return next;
      }
      estimate := next.value;
      if estimate == lastValue {
        break;
      }
      i := i + 1;
    }
    r := Success(estimate);
  }

  /** Sqrt(9) == 3: the fifth round reaches 3 exactly and the sixth, the
      last allowed, repeats it. */
  lemma SqrtOfNine()
    ensures SqrtSpec(FromInt(9)) == Success(FromInt(3))
  {
    var a := FromInt(9);
    assert a == Fixed(589824);
    EstimateNext(a, 0, a);
    assert NewtonStep(a, a) == Success(Fixed(327680));
    EstimateNext(a, 1, Fixed(327680));
    assert NewtonStep(a, Fixed(327680)) == Success(Fixed(222822));
    EstimateNext(a, 2, Fixed(222822));
    assert NewtonStep(a, Fixed(222822)) == Success(Fixed(198149));
    EstimateNext(a, 3, Fixed(198149));
    assert NewtonStep(a, Fixed(198149)) == Success(Fixed(196613));
    EstimateNext(a, 4, Fixed(196613));
    assert NewtonStep(a, Fixed(196613)) == Success(Fixed(196608));
    EstimateNext(a, 5, Fixed(196608));
    assert NewtonStep(a, Fixed(196608)) == Success(Fixed(196608));
    StopIndexStep(a, 1);
    StopIndexStep(a, 2);
    StopIndexStep(a, 3);
    StopIndexStep(a, 4);
    StopIndexStep(a, 5);
  }

  /** Sqrt(6.25) == 2.5: the fifth round repeats the fourth and ends the
      loop early. */
  lemma SqrtOfSixAndAQuarter()
    ensures SqrtSpec(Fixed(0x6_4000)) == Success(Fixed(0x2_8000))
  {
    var a := Fixed(0x6_4000);
    EstimateNext(a, 0, a);
    assert NewtonStep(a, a) == Success(Fixed(237568));
    EstimateNext(a, 1, Fixed(237568));
    assert NewtonStep(a, Fixed(237568)) == Success(Fixed(175280));
    EstimateNext(a, 2, Fixed(175280));
    assert NewtonStep(a, Fixed(175280)) == Success(Fixed(164213));
    EstimateNext(a, 3, Fixed(164213));
    assert NewtonStep(a, Fixed(164213)) == Success(Fixed(163840));
    EstimateNext(a, 4, Fixed(163840));
    assert NewtonStep(a, Fixed(163840)) == Success(Fixed(163840));
    StopIndexStep(a, 1);
    StopIndexStep(a, 2);
    StopIndexStep(a, 3);
    StopIndexStep(a, 4);
    StopIndexStep(a, 5);
  }

  /** Sqrt(0) == 0 without iterating, and Sqrt(-4) raises. */
  lemma SqrtEdgeExamples()
    ensures SqrtSpec(Zero) == Success(Zero)
    ensures SqrtSpec(FromInt(-4)) == Failure(ArgumentOutOfRange)
  {
  }

  // ---------------------------------------------------------------------
  // Absolute value, minimum, maximum

  /** `Abs(a)`: negates a negative raw with wrapping `-`. The result is the
      magnitude of a and non-negative, except for raw int.MinValue, which
      has no positive counterpart and maps to itself. */
  function Abs(a: Fixed): (r: Fixed)
    ensures 0 <= r.raw <==> a.raw != MinInt32
    ensures a.raw != MinInt32 ==> r.raw == a.raw || r.raw == -a.raw
    ensures a.raw == MinInt32 ==> r == a
  {
    if a.raw < 0 then Fixed(Wrap32(-(a.raw as int))) else a
  }

  /** `Min(a, b)`: the smaller argument by raw */
  function Min(a: Fixed, b: Fixed): (r: Fixed)
    ensures r == a || r == b
    ensures r.raw <= a.raw && r.raw <= b.raw
  {
    if a.raw < b.raw then a else b
  }

  /** `Max(a, b)`: the larger argument by raw */
  function Max(a: Fixed, b: Fixed): (r: Fixed)
    ensures r == a || r == b
    ensures a.raw <= r.raw && b.raw <= r.raw
  {
    if a.raw > b.raw then a else b
  }

  // ---------------------------------------------------------------------
  // Clamping and interpolation

  /** `Clamp(a, min, max)`: a inside [min, max] is returned unchanged and
      the result lies in [min, max] whenever min <= max. The lower bound is
      compared first, so with min > max an a below min still yields min. */
  function Clamp(a: Fixed, lo: Fixed, hi: Fixed): (r: Fixed)
    ensures lo.raw <= a.raw <= hi.raw ==> r == a
    ensures lo.raw <= hi.raw ==> lo.raw <= r.raw <= hi.raw
    ensures a.raw < lo.raw ==> r == lo
    ensures lo.raw <= a.raw && hi.raw < a.raw ==> r == hi
  {
    if a.raw < lo.raw then lo
    else if a.raw > hi.raw then hi
    else a
  }

  /** `Clamp01(a)`: into [0, 1], the identity on that range. */
  function Clamp01(a: Fixed): (r: Fixed)
    ensures 0 <= r.raw <= OneRaw
    ensures 0 <= a.raw <= OneRaw ==> r == a
    ensures a.raw > OneRaw ==> r == One
    ensures a.raw < 0 ==> r == Zero
  {
    if a.raw > One.raw then One
    else if a.raw < Zero.raw then Zero
    else a
  }

  /** Clamp01 is Clamp to [Zero, One], although it tests the bounds in the
      other order. */
  lemma Clamp01IsClamp(a: Fixed)
    ensures Clamp01(a) == Clamp(a, Zero, One)
  {
  }

  lemma Clamp01Idempotent(a: Fixed)
    ensures Clamp01(Clamp01(a)) == Clamp01(a)
  {
  }

  /** `LerpUnclamped(a, b, t)`: a + (b - a) * t in wrapping arithmetic */
  function LerpUnclamped(a: Fixed, b: Fixed, t: Fixed): (r: Fixed)
    ensures t == Zero ==> r == a
    ensures t == One ==> r == b
  {
    LerpEndpointsUnclamped(a, b);
    Add(a, Mul(Sub(b, a), t))
  }

  /** `Lerp(a, b, t)`: a + (b - a) * Clamp01(t) */
  function Lerp(a: Fixed, b: Fixed, t: Fixed): (r: Fixed)
    ensures r == LerpUnclamped(a, b, Clamp01(t))
    ensures t.raw <= 0 ==> r == a
    ensures OneRaw <= t.raw ==> r == b
  {
    Add(a, Mul(Sub(b, a), Clamp01(t)))
  }

  /** The endpoints of the unclamped interpolation are exact, even when
      b - a wraps. */
  lemma LerpEndpointsUnclamped(a: Fixed, b: Fixed)
    ensures Add(a, Mul(Sub(b, a), Zero)) == a
    ensures Add(a, Mul(Sub(b, a), One)) == b
  {
    MulZero(Sub(b, a));
    MulOne(Sub(b, a));
    Wrap32AddWrapped(b.raw - a.raw, a.raw);
  }

  /** When b - a does not overflow, Lerp stays between a and b. */
  lemma LerpBetween(a: Fixed, b: Fixed, t: Fixed)
    requires IsInt32(b.raw - a.raw)
    ensures Min(a, b).raw <= Lerp(a, b, t).raw <= Max(a, b).raw
  {
    var d := b.raw - a.raw;
    var c := Clamp01(t).raw;
    var m := (d * c) / OneRaw;
    ScaledBetween(d, c);
    assert Sub(b, a).raw == d;
    assert Mul(Sub(b, a), Clamp01(t)).raw == m;
  }

  /** Scaling d by a fraction c / 2^16 in [0, 1] and rounding down lands
      between 0 and d. */
  lemma ScaledBetween(d: int, c: int)
    requires 0 <= c <= OneRaw
    ensures d >= 0 ==> 0 <= (d * c) / OneRaw <= d
    ensures d < 0 ==> d <= (d * c) / OneRaw <= 0
  {
    if d >= 0 {
      MulMonotone(d, 0, c);
      MulMonotone(d, c, OneRaw);
    } else {
      MulMonotone(-d, 0, c);
      MulMonotone(-d, c, OneRaw);
      assert d * OneRaw <= d * c <= 0;
    }
  }

  /** Unclamped interpolation extrapolates past b: 10 + (20 - 10) * 1.5. */
  lemma LerpUnclampedExample()
    ensures LerpUnclamped(FromInt(10), FromInt(20), Fixed(0x1_8000)) == FromInt(25)
  {
  }

  /** Clamped interpolation at t = 0.5, and at t = 1.5, which clamps to 1. */
  lemma LerpExamples()
    ensures Lerp(FromInt(10), FromInt(20), Fixed(0x8000)) == FromInt(15)
    ensures Lerp(FromInt(10), FromInt(20), Fixed(0x1_8000)) == FromInt(20)
  {
  }

  /** The absolute values and unit clamps the unit tests check. */
  lemma AbsClampExamples()
    ensures Abs(FromInt(-12)) == FromInt(12) && Abs(FromInt(12)) == FromInt(12)
    ensures Abs(Zero) == Zero
    ensures Clamp01(Fixed(0x8000)) == Fixed(0x8000)
    ensures Clamp01(Fixed(-0x8000)) == Zero
    ensures Clamp01(Fixed(0x1_8000)) == One
  {
  }
}
