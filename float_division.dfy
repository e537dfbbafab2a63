/**
 * The alignment step of generate_integer as the source writes it: with
 * Python's true division `/`, which rounds the exact quotient of two
 * integers to the nearest binary64 float (ties to even), and math.floor /
 * math.ceil applied to that float. Only the 53-bit significand is modelled:
 * the exponent range is unbounded: there is no OverflowError for quotients
 * that round to 2^1024 or more, and no underflow (subnormal or zero results).
 *
 * The model of the code as written is GenerateIntegerAsWritten. The lemma
 * DefaultsEscape64BitBoundsAsWritten shows that, with every keyword at its
 * default, it can return 2^63 or -2^63, neither of which is valid;
 * SinglePointAbove2To53EscapesAsWritten shows the same for a bound just above
 * 2^53, and MultipleOfThreeEscapesAsWritten shows a value returned where no
 * integer is valid. The corrected model is IntegerGenerator.GenerateInteger.
 */
module FloatDivision {
  import opened Wrappers
  import opened IntegerGenerator

  /** Significand bits of a binary64 float, the hidden bit included. */
  const SIGNIFICAND_BITS: nat := 53

  function Pow2(k: nat): (r: nat)
    ensures r >= 1
  {
    if k == 0 then 1 else 2 * Pow2(k - 1)
  }

  /** The number of binary digits of n. */
  function BitLength(n: nat): nat
  {
    if n == 0 then 0 else 1 + BitLength(n / 2)
  }

  lemma {:induction false} BitLengthOf(n: nat, k: nat)
    requires k >= 1 && Pow2(k - 1) <= n < Pow2(k)
    ensures BitLength(n) == k
  {
    if k > 1 {
      BitLengthOf(n / 2, k - 1);
    }
  }

  /** n / d rounded to the nearest integer, ties to the even one. */
  function RoundHalfEven(n: int, d: int): (r: int)
    requires d > 0
    ensures r == n / d || r == n / d + 1
    ensures -d <= 2 * n - 2 * r * d <= d
    ensures (2 * n - 2 * r * d == d || 2 * n - 2 * r * d == -d) ==> r % 2 == 0
  {
    var q, rem := n / d, n % d;
    RoundingResidues(n, d, q, rem);
    if 2 * rem > d || (2 * rem == d && q % 2 == 1) then q + 1 else q
  }

  /** What is left of 2n after taking 2qd or 2(q+1)d away, for n = qd + rem. */
  lemma RoundingResidues(n: int, d: int, q: int, rem: int)
    requires n == q * d + rem
    ensures 2 * n - 2 * q * d == 2 * rem
    ensures 2 * n - 2 * (q + 1) * d == 2 * rem - 2 * d
  {
    assert (q + 1) * d == q * d + d;
  }

  /** num / (den * 2^e) as the fraction ScaledNumerator / ScaledDenominator. */
  function ScaledNumerator(num: nat, e: int): nat
  {
    if e >= 0 then num else num * Pow2(-e)
  }

  function ScaledDenominator(den: nat, e: int): (d: nat)
    requires den > 0
    ensures d > 0
  {
    if e >= 0 then den * Pow2(e) else den
  }

  /** A binary64 float: significand * 2^exponent. */
  datatype Float = Float(significand: int, exponent: int) {
    function Value(): real {
      if exponent >= 0 then (significand * Pow2(exponent)) as real
      else significand as real / Pow2(-exponent) as real
    }
  }

  /** The exponent that puts num / (den * 2^e) in [2^52, 2^53): a first
      guess from the bit lengths, raised by one when the guess leaves the
      ratio at 2^53 or above. */
  function Exponent(num: nat, den: nat): (e: int)
    requires num > 0 && den > 0
    ensures
      TWO_52 * ScaledDenominator(den, e) <= ScaledNumerator(num, e) < TWO_53 * ScaledDenominator(den, e)
  {
    var e0 := BitLength(num) as int - BitLength(den) as int - SIGNIFICAND_BITS as int;
    InitialScale(num, den);
    if ScaledNumerator(num, e0) >= TWO_53 * ScaledDenominator(den, e0) then
      HalveScale(num, den, e0);
      e0 + 1
    else
      e0
  }

  /** The binary64 float nearest to num / den, for positive num and den. The
      ratio num / (den * 2^e) is rounded to an integer significand in
      [2^52, 2^53], so the float lies within 2^(e-1) of num / den, and a tie
      goes to the even significand. */
  function NearestFloat(num: nat, den: nat): (f: Float)
    requires num > 0 && den > 0
    ensures
      TWO_52 * ScaledDenominator(den, f.exponent) <= ScaledNumerator(num, f.exponent)
        < TWO_53 * ScaledDenominator(den, f.exponent)
    ensures TWO_52 <= f.significand <= TWO_53
    ensures
      var n: int, d: int := ScaledNumerator(num, f.exponent), ScaledDenominator(den, f.exponent);
      && -d <= 2 * n - 2 * f.significand * d <= d
      && ((2 * n - 2 * f.significand * d == d || 2 * n - 2 * f.significand * d == -d) ==>
            f.significand % 2 == 0)
  {
    var e := Exponent(num, den);
    var n, d := ScaledNumerator(num, e), ScaledDenominator(den, e);
    FloorAtLeast(n, d, TWO_52);
    FloorAtLeast(n, d, TWO_53);
    Float(RoundHalfEven(n, d), e)
  }

  /** The float nearest to num / den for positive num and den. */
  function PositiveTrueDivide(num: nat, den: nat): (r: real)
    requires num > 0 && den > 0
    ensures r > 0.0
  {
    var f := NearestFloat(num, den);
    PositiveValue(f);
    f.Value()
  }

  lemma PositiveValue(f: Float)
    requires f.significand > 0
    ensures f.Value() > 0.0
  {
    if f.exponent >= 0 {
      MulMonotone(Pow2(f.exponent), 1, f.significand);
    }
  }

  /** Python's `num / den` on integers, for a positive divisor: the float of
      the sign of num whose magnitude is NearestFloat(|num|, den). */
  function TrueDivide(num: int, den: int): (r: real)
    requires den > 0
    ensures r > 0.0 <==> num > 0
    ensures r == 0.0 <==> num == 0
  {
    if num == 0 then 0.0
    else if num > 0 then PositiveTrueDivide(num, den)
    else -PositiveTrueDivide(-num, den)
  }

  // ---------------------------------------------------------------------
  // Arithmetic behind NearestFloat

  const TWO_52: nat := 4503599627370496
  const TWO_53: nat := 9007199254740992
  const TWO_54: nat := 18014398509481984

  lemma {:induction false} BitLengthBounds(n: nat)
    requires n > 0
    ensures BitLength(n) >= 1
    ensures Pow2(BitLength(n) - 1) <= n < Pow2(BitLength(n))
  {
    if n > 1 {
      BitLengthBounds(n / 2);
    }
  }

  /** For d > 0, floor(n / d) >= k exactly when n >= k * d. */
  lemma {:induction false} FloorAtLeast(n: int, d: int, k: int)
    requires d > 0
    ensures n / d >= k <==> n >= k * d
  {
    MulMonotone(d, k, n / d);
    MulMonotone(d, n / d + 1, k);
  }

  /** Raising the exponent by one halves the scaled ratio. */
  lemma {:induction false} HalveScale(num: nat, den: nat, e: int)
    requires den > 0
    ensures
      || (ScaledNumerator(num, e + 1) == ScaledNumerator(num, e)
          && ScaledDenominator(den, e + 1) == 2 * ScaledDenominator(den, e))
      || (2 * ScaledNumerator(num, e + 1) == ScaledNumerator(num, e)
          && ScaledDenominator(den, e + 1) == ScaledDenominator(den, e))
  {
  }

  /** The first exponent guess puts the scaled ratio in [2^52, 2^54). */
  lemma {:induction false} InitialScale(num: nat, den: nat)
    requires num > 0 && den > 0
    ensures
      var e0 := BitLength(num) as int - BitLength(den) as int - SIGNIFICAND_BITS as int;
      var n, d := ScaledNumerator(num, e0), ScaledDenominator(den, e0);
      TWO_52 * d <= n < TWO_54 * d
  {
    if BitLength(num) as int - BitLength(den) as int - 53 >= 0 {
      InitialScaleNonNegative(num, den);
    } else {
      InitialScaleNegative(num, den);
    }
  }

  lemma {:induction false} InitialScaleNonNegative(num: nat, den: nat)
    requires num > 0 && den > 0
    requires BitLength(num) as int - BitLength(den) as int - 53 >= 0
    ensures
      var e0 := BitLength(num) as int - BitLength(den) as int - SIGNIFICAND_BITS as int;
      TWO_52 * ScaledDenominator(den, e0) <= ScaledNumerator(num, e0) < TWO_54 * ScaledDenominator(den, e0)
  {
    BitLengthBounds(num);
    BitLengthBounds(den);
    NonNegativeExponentBounds(num, den, BitLength(num), BitLength(den));
  }

  lemma {:induction false} NonNegativeExponentBounds(num: nat, den: nat, ln: nat, ld: nat)
    requires ld >= 1 && Pow2(ld - 1) <= den < Pow2(ld)
    requires ln >= 1 && Pow2(ln - 1) <= num < Pow2(ln)
    requires ln - ld - 53 >= 0
    ensures TWO_52 * (den * Pow2(ln - ld - 53)) <= num < TWO_54 * (den * Pow2(ln - ld - 53))
  {
    var e0: nat := ln - ld - 53;
    Pow2Values();
    Pow2Add(ld, e0);
    Pow2Add(ld - 1, e0);
    Pow2Add(52, ln - 53);
    Pow2Add(54, ln - 54);
    NonNegativeExponentScale(num, den, Pow2(e0), Pow2(ld - 1), Pow2(ld),
      Pow2(ln - 1), Pow2(ln), Pow2(ln - 54), Pow2(ln - 53));
  }

  lemma {:induction false} InitialScaleNegative(num: nat, den: nat)
    requires num > 0 && den > 0
    requires BitLength(num) as int - BitLength(den) as int - 53 < 0
    ensures
      var e0 := BitLength(num) as int - BitLength(den) as int - SIGNIFICAND_BITS as int;
      TWO_52 * ScaledDenominator(den, e0) <= ScaledNumerator(num, e0) < TWO_54 * ScaledDenominator(den, e0)
  {
    BitLengthBounds(num);
    BitLengthBounds(den);
    NegativeExponentBounds(num, den, BitLength(num), BitLength(den));
  }

  lemma {:induction false} NegativeExponentBounds(num: nat, den: nat, ln: nat, ld: nat)
    requires ld >= 1 && Pow2(ld - 1) <= den < Pow2(ld)
    requires ln >= 1 && Pow2(ln - 1) <= num < Pow2(ln)
    requires ln - ld - 53 < 0
    ensures TWO_52 * den <= num * Pow2(ld + 53 - ln) < TWO_54 * den
  {
    var p: nat := ld + 53 - ln;
    Pow2Values();
    Pow2Add(ln, p);
    Pow2Add(ln - 1, p);
    Pow2Add(52, ld);
    Pow2Add(54, ld - 1);
    NegativeExponentScale(num, den, Pow2(p), Pow2(ld - 1), Pow2(ld),
      Pow2(ln - 1), Pow2(ln), Pow2(ld + 52), Pow2(ld + 53));
  }

  /** InitialScale when the guess e0 is not negative: the ratio is
      num / (den * p), with p = 2^e0. */
  lemma {:induction false} NonNegativeExponentScale(num: int, den: int, p: int,
                                 denLo: int, denHi: int, numLo: int, numHi: int,
                                 lo: int, hi: int)
    requires p > 0
    requires denLo <= den <= denHi && numLo <= num < numHi
    requires denHi * p == hi && denLo * p == lo
    requires TWO_52 * hi == numLo && TWO_54 * lo == numHi
    ensures TWO_52 * (den * p) <= num < TWO_54 * (den * p)
  {
    MulMonotone(p, den, denHi);
    MulMonotone(p, denLo, den);
    MulMonotone(TWO_52, den * p, hi);
    MulMonotone(TWO_54, lo, den * p);
  }

  /** InitialScale when the guess e0 is negative: the ratio is
      (num * p) / den, with p = 2^-e0. */
  lemma {:induction false} NegativeExponentScale(num: int, den: int, p: int,
                              denLo: int, denHi: int, numLo: int, numHi: int,
                              lo: int, hi: int)
    requires p > 0
    requires denLo <= den < denHi && numLo <= num < numHi
    requires numLo * p == lo && numHi * p == hi
    requires TWO_52 * denHi == lo && TWO_54 * denLo == hi
    ensures TWO_52 * den <= num * p < TWO_54 * den
  {
    MulMonotone(p, numLo, num);
    MulMonotone(p, num + 1, numHi);
    assert (num + 1) * p == num * p + p;
    MulMonotone(TWO_52, den, denHi);
    MulMonotone(TWO_54, denLo, den);
  }

  // ---------------------------------------------------------------------
  // generate_integer as written

  /** Lines 31-40 as written: the bounds are aligned through floats. */
  function QuotientRangeAsWritten(s: IntegerSchema): (r: Option<QuotientRange>)
    requires s.multipleOf > 0
    ensures r.Some? ==> r.value.minQuotient <= r.value.maxQuotient
  {
    var m := s.multipleOf;
    var maximum := EffectiveMaximum(s);
    var minimum := EffectiveMinimum(s);
    if minimum > maximum then
      None
    else
      var floorQuotient := TrueDivide(maximum, m).Floor;
      var ceilQuotient := -((-TrueDivide(minimum, m)).Floor);
      var maximum := floorQuotient * m;
      var minimum := ceilQuotient * m;
      if minimum > maximum then
        None
      else
        ProductIsMultiple(m, floorQuotient);
        ProductIsMultiple(m, ceilQuotient);
        MulMonotone(m, ceilQuotient, floorQuotient);
        Some(QuotientRange(minimum / m, maximum / m))
  }

  /** generate_integer as written, with the drawn quotient as a parameter:
      a value exactly when the float-aligned range exists, and that value is
      multipleOf * q, a multiple of multipleOf. */
  function GenerateIntegerAsWritten(s: IntegerSchema, q: int): (r: Option<int>)
    requires s.multipleOf > 0
    requires QuotientRangeAsWritten(s).Some? ==> QuotientRangeAsWritten(s).value.Contains(q)
    ensures r.Some? <==> QuotientRangeAsWritten(s).Some?
    ensures r.Some? ==> r.value == s.multipleOf * q && IsMultiple(r.value, s.multipleOf)
  {
    match QuotientRangeAsWritten(s)
    case None => None
    case Some(_) =>
      ProductIsMultiple(s.multipleOf, q);
      assert s.multipleOf * q == q * s.multipleOf;
      Some(s.multipleOf * q)
  }

  // ---------------------------------------------------------------------
  // Concrete evaluations

  lemma {:induction false} Pow2Add(a: nat, b: nat)
    ensures Pow2(a + b) == Pow2(a) * Pow2(b)
  {
    if a > 0 {
      Pow2Add(a - 1, b);
    }
  }

  lemma Pow2Values()
    ensures Pow2(9) == 512 && Pow2(10) == 1024
    ensures Pow2(52) == TWO_52 && Pow2(53) == TWO_53 && Pow2(54) == TWO_54
    ensures Pow2(62) == 4611686018427387904
    ensures Pow2(63) == 9223372036854775808
  {
    assert Pow2(3) == 8 && Pow2(10) == 1024;
    Pow2Add(10, 10);
    Pow2Add(20, 20);
    Pow2Add(40, 10);
    Pow2Add(50, 2);
    Pow2Add(50, 3);
    Pow2Add(50, 4);
    Pow2Add(50, 10);
    Pow2Add(60, 2);
    Pow2Add(60, 3);
  }

  /** 2^63 - 2 and 2^63 - 1, the collapsed default bounds up to sign, both
      round to the float 2^63. */
  lemma CollapsedDefaultsRoundTo2To63()
    ensures TrueDivide(MAX_INTEGER - 1, 1) == 9223372036854775808.0
    ensures TrueDivide(MIN_INTEGER + 1, 1) == -9223372036854775808.0
  {
    Pow2Values();
    BitLengthOf(MAX_INTEGER - 1, 63);
    BitLengthOf(MAX_INTEGER, 63);
    BitLengthOf(1, 1);
    assert (MAX_INTEGER - 1) / 512 >= Pow2(53);
    assert MAX_INTEGER / 512 >= Pow2(53);
    assert RoundHalfEven(MAX_INTEGER - 1, 1024) == 9007199254740992;
    assert RoundHalfEven(MAX_INTEGER, 1024) == 9007199254740992;
  }

  /** With every keyword at its default, the code as written may draw 2^63
      or -2^63: both violate the default bounds, which exact arithmetic keeps. */
  lemma DefaultsEscape64BitBoundsAsWritten()
    ensures QuotientRangeAsWritten(DEFAULT_SCHEMA) ==
      Some(QuotientRange(-9223372036854775808, 9223372036854775808))
    ensures GenerateIntegerAsWritten(DEFAULT_SCHEMA, 9223372036854775808) ==
      Some(MAX_INTEGER + 1)
    ensures GenerateIntegerAsWritten(DEFAULT_SCHEMA, -9223372036854775808) ==
      Some(MIN_INTEGER)
    ensures !Valid(DEFAULT_SCHEMA, MAX_INTEGER + 1) && !Valid(DEFAULT_SCHEMA, MIN_INTEGER)
  {
    var s := DEFAULT_SCHEMA;
    CollapsedDefaultsRoundTo2To63();
    assert EffectiveMaximum(s) == MAX_INTEGER - 1;
    assert EffectiveMinimum(s) == MIN_INTEGER + 1;
    assert TrueDivide(MAX_INTEGER - 1, 1).Floor == 9223372036854775808;
    assert -((-TrueDivide(MIN_INTEGER + 1, 1)).Floor) == -9223372036854775808;
  }

  /** 2^53 + 1 lies halfway between the floats 2^53 and 2^53 + 2, and the
      tie goes to the even significand: it rounds to 2^53. */
  lemma Odd2To53PlusOneRoundsDown()
    ensures TrueDivide(TWO_53 + 1, 1) == 9007199254740992.0
  {
    Pow2Values();
    BitLengthOf(TWO_53 + 1, 54);
    BitLengthOf(1, 1);
    assert ScaledNumerator(TWO_53 + 1, 0) / ScaledDenominator(1, 0) >= Pow2(53);
    assert ScaledDenominator(1, 1) == 2;
    assert RoundHalfEven(TWO_53 + 1, 2) == TWO_52;
  }

  /** (3 * 2^52 + 2) / 3 is 2^52 + 2/3, where floats are spaced 1 apart: it
      rounds up to 2^52 + 1. */
  lemma TwoThirdsAbove2To52RoundsUp()
    ensures TrueDivide(3 * TWO_52 + 2, 3) == (TWO_52 + 1) as real
  {
    Pow2Values();
    BitLengthOf(3 * TWO_52 + 2, 54);
    BitLengthOf(3, 2);
    assert ScaledNumerator(3 * TWO_52 + 2, -1) == 2 * (3 * TWO_52 + 2);
    assert ScaledNumerator(3 * TWO_52 + 2, -1) >= TWO_53 * ScaledDenominator(3, -1);
    assert RoundHalfEven(3 * TWO_52 + 2, 3) == TWO_52 + 1;
  }

  /** With multipleOf = 3 and minimum = maximum = 3 * 2^52 + 2, no integer is
      valid, so exact arithmetic gives None. The code as written rounds both
      quotients to 2^52 + 1 and returns 3 * 2^52 + 3, which is above maximum. */
  lemma MultipleOfThreeEscapesAsWritten()
    ensures
      var s := DEFAULT_SCHEMA.(multipleOf := 3, minimum := 3 * TWO_52 + 2, maximum := 3 * TWO_52 + 2);
      && QuotientRangeOf(s) == None
      && QuotientRangeAsWritten(s) == Some(QuotientRange(TWO_52 + 1, TWO_52 + 1))
      && GenerateIntegerAsWritten(s, TWO_52 + 1) == Some(3 * TWO_52 + 3)
      && !Valid(s, 3 * TWO_52 + 3)
  {
    var s := DEFAULT_SCHEMA.(multipleOf := 3, minimum := 3 * TWO_52 + 2, maximum := 3 * TWO_52 + 2);
    TwoThirdsAbove2To52RoundsUp();
    assert EffectiveMaximum(s) == 3 * TWO_52 + 2;
    assert EffectiveMinimum(s) == 3 * TWO_52 + 2;
    assert TrueDivide(3 * TWO_52 + 2, 3).Floor == TWO_52 + 1;
    assert -((-TrueDivide(3 * TWO_52 + 2, 3)).Floor) == TWO_52 + 1;
    assert AlignDown(3 * TWO_52 + 2, 3) == 3 * TWO_52;
    assert AlignUp(3 * TWO_52 + 2, 3) == 3 * TWO_52 + 3;
  }

  /** The divergence is not confined to the defaults: any collapsed bound
      above 2^53 in magnitude may be rounded. With minimum = maximum =
      2^53 + 1, the code as written returns 2^53, which is below minimum,
      while exact arithmetic returns 2^53 + 1. */
  lemma SinglePointAbove2To53EscapesAsWritten()
    ensures
      var s := DEFAULT_SCHEMA.(minimum := TWO_53 + 1, maximum := TWO_53 + 1);
      && QuotientRangeAsWritten(s) == Some(QuotientRange(TWO_53, TWO_53))
      && GenerateIntegerAsWritten(s, TWO_53) == Some(TWO_53)
      && !Valid(s, TWO_53)
  {
    var s := DEFAULT_SCHEMA.(minimum := TWO_53 + 1, maximum := TWO_53 + 1);
    Odd2To53PlusOneRoundsDown();
    assert EffectiveMaximum(s) == TWO_53 + 1;
    assert EffectiveMinimum(s) == TWO_53 + 1;
    assert TrueDivide(TWO_53 + 1, 1).Floor == TWO_53;
    assert -((-TrueDivide(TWO_53 + 1, 1)).Floor) == TWO_53;
  }
}
