/** 32-bit two's-complement integers and the C# integer operations the
    fixed-point type is built from: the unchecked narrowing cast `(int)`,
    wrap-around `+`/`-`, and `/` on `long`, which truncates toward zero. */
module TwosComplement {

  const MinInt32: int := -0x8000_0000
  const MaxInt32: int := 0x7FFF_FFFF
  /** 2^32: results are reduced modulo this when narrowed to `int` */
  const Modulus: int := 0x1_0000_0000

  /** x is one of the values of a C# `int`, the members of Int32 */
  predicate IsInt32(x: int) {
    MinInt32 <= x <= MaxInt32
  }

  /** The values of a C# `int`: the bounds are MinInt32 and MaxInt32,
      written as literals so that membership needs no unfolding */
  type Int32 = x: int | -0x8000_0000 <= x <= 0x7FFF_FFFF

  /** x and y denote the same 32-bit pattern */
  predicate Congruent(x: int, y: int) {
    (x - y) % Modulus == 0
  }

  function Abs(x: int): (r: int)
    ensures r >= 0 && (r == x || r == -x)
  {
    if x < 0 then -x else x
  }

  /** The unchecked narrowing cast `(int)x`: keep the low 32 bits and read
      them as a signed value. */
  function Wrap32(x: int): (r: Int32)
    ensures Congruent(r, x)
    ensures IsInt32(x) ==> r == x
  {
    var k := (x - MinInt32) / Modulus;
    assert x - MinInt32 == k * Modulus + (x - MinInt32) % Modulus;
    assert ((-k) * Modulus) % Modulus == 0 by { MultipleMod(-k); }
    (x - MinInt32) % Modulus + MinInt32
  }

  lemma MultipleMod(k: int)
    ensures (k * Modulus) % Modulus == 0
  {
  }

  /** A congruence is witnessed by a multiple of the modulus. */
  lemma CongruentWitness(x: int, y: int)
    requires Congruent(x, y)
    ensures x - y == ((x - y) / Modulus) * Modulus
  {
  }

  /** Two distinct 32-bit values never share a bit pattern. */
  lemma {:induction false} CongruentInt32Equal(x: Int32, y: Int32)
    requires Congruent(x, y)
    ensures x == y
  {
    CongruentWitness(x, y);
    var k := (x - y) / Modulus;
  }

  lemma CongruentSymmetric(x: int, y: int)
    requires Congruent(x, y)
    ensures Congruent(y, x)
  {
    CongruentWitness(x, y);
    var k := (x - y) / Modulus;
    assert y - x == (-k) * Modulus;
    MultipleMod(-k);
  }

  lemma CongruentTransitive(x: int, y: int, z: int)
    requires Congruent(x, y) && Congruent(y, z)
    ensures Congruent(x, z)
  {
    CongruentWitness(x, y);
    CongruentWitness(y, z);
    var k1, k2 := (x - y) / Modulus, (y - z) / Modulus;
    assert x - z == (k1 + k2) * Modulus;
    MultipleMod(k1 + k2);
  }

  /** Congruence is preserved by addition, so wrapping an operand early
      never changes a wrapped sum. */
  lemma CongruentAdd(x: int, x': int, y: int, y': int)
    requires Congruent(x, x') && Congruent(y, y')
    ensures Congruent(x + y, x' + y')
  {
    CongruentWitness(x, x');
    CongruentWitness(y, y');
    var k1, k2 := (x - x') / Modulus, (y - y') / Modulus;
    assert (x + y) - (x' + y') == (k1 + k2) * Modulus;
    MultipleMod(k1 + k2);
  }

  /** Wrap32 is the only 32-bit value congruent to its argument. */
  lemma Wrap32Unique(x: int, r: Int32)
    requires Congruent(r, x)
    ensures r == Wrap32(x)
  {
    CongruentSymmetric(Wrap32(x), x);
    CongruentTransitive(r, x, Wrap32(x));
    CongruentInt32Equal(r, Wrap32(x));
  }

  /** Wrapping an intermediate result of a sum does not change the wrapped
      total: `(int)((int)(x + y) + z) == (int)(x + y + z)`. */
  lemma Wrap32AddWrapped(x: int, y: int)
    ensures Wrap32(Wrap32(x) + y) == Wrap32(x + y)
  {
    CongruentAdd(Wrap32(x), x, y, y);
    CongruentTransitive(Wrap32(Wrap32(x) + y), Wrap32(x) + y, x + y);
    Wrap32Unique(x + y, Wrap32(Wrap32(x) + y));
  }

  /** Division rounding toward zero, as C#'s `/` on `long`: the remainder
      is smaller than the divisor in magnitude and has the dividend's sign. */
  function TruncDiv(x: int, d: int): (q: int)
    requires d != 0
    ensures 0 <= x ==> 0 <= x - q * d < Abs(d)
    ensures x < 0 ==> -Abs(d) < x - q * d <= 0
  {
    if x >= 0 then x / d else -((-x) / d)
  }

  /** The remainder conditions determine the truncated quotient. */
  lemma {:induction false} TruncDivUnique(x: int, d: int, q: int)
    requires d != 0
    requires 0 <= x ==> 0 <= x - q * d < Abs(d)
    requires x < 0 ==> -Abs(d) < x - q * d <= 0
    ensures q == TruncDiv(x, d)
  {
    var t := TruncDiv(x, d);
    var k := t - q;
    SubMul(t, q, d);
    assert -Abs(d) < k * d < Abs(d);
    if k != 0 {
      AtLeastDivisor(k, d);
      assert false;
    }
  }

  lemma SubMul(t: int, q: int, d: int)
    ensures (t - q) * d == t * d - q * d
  {
  }

  lemma AtLeastDivisor(k: int, d: int)
    requires k != 0 && d != 0
    ensures Abs(k * d) >= Abs(d)
  {
    var m := Abs(k) - 1;
    assert Abs(k * d) == Abs(k) * Abs(d);
    assert Abs(k) * Abs(d) == m * Abs(d) + Abs(d);
    assert m * Abs(d) >= 0;
  }
}
