/**
 * The integer generator of json-schema-faker: given the numeric keywords of a
 * JSON Schema (section 6.2 of JSON Schema Validation, draft 2019-09:
 * multipleOf, maximum, exclusiveMaximum, minimum, exclusiveMinimum), it
 * collapses the exclusive bounds into inclusive ones, aligns both bounds to
 * multiples of multipleOf, and returns multipleOf times a quotient drawn from
 * the aligned quotient range, or None when no integer satisfies the keywords.
 *
 * The random draw is not modelled: the drawn quotient is the parameter `q`
 * of GenerateInteger, which must lie in the range QuotientRangeOf computes.
 * All arithmetic is exact (see the module FloatDivision for the source's
 * floating-point division).
 */
module IntegerGenerator {
  import opened Wrappers

  /** Bounds of a signed 64-bit integer, the default keyword values. */
  const MAX_INTEGER: int := 9223372036854775807
  const MIN_INTEGER: int := -9223372036854775808

  /** The keyword arguments of the generator. */
  datatype IntegerSchema = IntegerSchema(
    multipleOf: int,
    maximum: int,
    exclusiveMaximum: int,
    minimum: int,
    exclusiveMinimum: int)

  /** The keyword values the generator uses when a keyword is absent. */
  const DEFAULT_SCHEMA: IntegerSchema :=
    IntegerSchema(1, MAX_INTEGER, MAX_INTEGER, MIN_INTEGER, MIN_INTEGER)

  predicate IsMultiple(v: int, m: int)
    requires m > 0
  {
    v % m == 0
  }

  /** An integer instance is valid against the schema: it is a multiple of
      multipleOf and satisfies all four bounds. This is the reference
      definition the generator is proved against. */
  predicate Valid(s: IntegerSchema, v: int)
    requires s.multipleOf > 0
  {
    && IsMultiple(v, s.multipleOf)
    && v <= s.maximum && v < s.exclusiveMaximum
    && v >= s.minimum && v > s.exclusiveMinimum
  }

  ghost predicate Satisfiable(s: IntegerSchema)
    requires s.multipleOf > 0
  {
    exists v :: Valid(s, v)
  }

  // ---------------------------------------------------------------------
  // Exact arithmetic helpers

  lemma MulMonotone(m: int, a: int, b: int)
    requires m > 0
    ensures a <= b <==> a * m <= b * m
  {
    if a <= b {
      assert b * m - a * m == (b - a) * m;
    } else {
      assert a * m - b * m == (a - b) * m;
    }
  }

  lemma ProductIsMultiple(m: int, q: int)
    requires m > 0
    ensures IsMultiple(q * m, m) && (q * m) / m == q
  {
    var d, r := (q * m) / m, (q * m) % m;
    assert q * m == d * m + r && 0 <= r < m;
    assert (q - d) * m == r;
    if q - d >= 1 {
      MulMonotone(m, 1, q - d);
    } else if q - d <= -1 {
      MulMonotone(m, q - d, -1);
    }
  }

  lemma MultipleIsProduct(v: int, m: int)
    requires m > 0 && IsMultiple(v, m)
    ensures (v / m) * m == v
  {
  }

  // ---------------------------------------------------------------------
  // Step 1: collapse the exclusive bounds

  /** min(maximum, exclusive_maximum - 1): the largest integer that satisfies
      both upper bounds. */
  function EffectiveMaximum(s: IntegerSchema): (r: int)
    ensures r <= s.maximum && r < s.exclusiveMaximum
    ensures r == s.maximum || r == s.exclusiveMaximum - 1
  {
    if s.exclusiveMaximum - 1 < s.maximum then s.exclusiveMaximum - 1 else s.maximum
  }

  /** max(minimum, exclusive_minimum + 1): the smallest integer that satisfies
      both lower bounds. */
  function EffectiveMinimum(s: IntegerSchema): (r: int)
    ensures r >= s.minimum && r > s.exclusiveMinimum
    ensures r == s.minimum || r == s.exclusiveMinimum + 1
  {
    if s.exclusiveMinimum + 1 > s.minimum then s.exclusiveMinimum + 1 else s.minimum
  }

  // ---------------------------------------------------------------------
  // Step 3: align the bounds to multiples

  /** math.floor(x / m) under exact arithmetic. */
  function FloorDiv(x: int, m: int): (q: int)
    requires m > 0
    ensures q * m <= x < q * m + m
  {
    x / m
  }

  /** math.ceil(x / m) under exact arithmetic. */
  function CeilDiv(x: int, m: int): (q: int)
    requires m > 0
    ensures q * m - m < x <= q * m
  {
    -((-x) / m)
  }

  /** floor(x / m) * m: the largest multiple of m that is at most x. */
  function AlignDown(x: int, m: int): (r: int)
    requires m > 0
    ensures IsMultiple(r, m) && r <= x
    ensures forall v :: IsMultiple(v, m) && v <= x ==> v <= r
  {
    var q := FloorDiv(x, m);
    ProductIsMultiple(m, q);
    assert forall v :: IsMultiple(v, m) && v <= x ==> v <= q * m by {
      forall v | IsMultiple(v, m) && v <= x
        ensures v <= q * m
      {
        MultipleIsProduct(v, m);
        MulMonotone(m, v / m, q);
        if v / m > q {
          MulMonotone(m, q + 1, v / m);
        }
      }
    }
    q * m
  }

  /** ceil(x / m) * m: the smallest multiple of m that is at least x. */
  function AlignUp(x: int, m: int): (r: int)
    requires m > 0
    ensures IsMultiple(r, m) && r >= x
    ensures forall v :: IsMultiple(v, m) && v >= x ==> v >= r
  {
    var q := CeilDiv(x, m);
    ProductIsMultiple(m, q);
    assert forall v :: IsMultiple(v, m) && v >= x ==> v >= q * m by {
      forall v | IsMultiple(v, m) && v >= x
        ensures v >= q * m
      {
        MultipleIsProduct(v, m);
        MulMonotone(m, q, v / m);
        if v / m < q {
          MulMonotone(m, v / m, q - 1);
        }
      }
    }
    q * m
  }

  // ---------------------------------------------------------------------
  // Steps 1 to 4: the range descriptor

  /** The inclusive range of quotients the generator draws from. */
  datatype QuotientRange = QuotientRange(minQuotient: int, maxQuotient: int) {
    predicate Contains(q: int) {
      minQuotient <= q <= maxQuotient
    }
  }

  /** Collapses, checks, aligns and checks again; on success gives the
      quotient range of the aligned bounds. The range is never empty, and its
      two ends times multipleOf are the least and the greatest valid value. */
  function QuotientRangeOf(s: IntegerSchema): (r: Option<QuotientRange>)
    requires s.multipleOf > 0
    ensures r.None? <==> !Satisfiable(s)
    ensures r.Some? ==> r.value.minQuotient <= r.value.maxQuotient
    ensures r.Some? ==>
      && Valid(s, r.value.minQuotient * s.multipleOf)
      && Valid(s, r.value.maxQuotient * s.multipleOf)
    ensures r.Some? ==> forall v :: Valid(s, v) ==>
      r.value.minQuotient * s.multipleOf <= v <= r.value.maxQuotient * s.multipleOf
  {
    var m := s.multipleOf;
    var maximum := EffectiveMaximum(s);
    var minimum := EffectiveMinimum(s);
    if minimum > maximum then
      None
    else
      var maximum := AlignDown(maximum, m);
      var minimum := AlignUp(minimum, m);
      if minimum > maximum then
        assert forall v :: Valid(s, v) ==> minimum <= v <= maximum;
        None
      else
        MultipleIsProduct(maximum, m);
        MultipleIsProduct(minimum, m);
        MulMonotone(m, minimum / m, maximum / m);
        assert Valid(s, maximum);
        Some(QuotientRange(minimum / m, maximum / m))
  }

  // ---------------------------------------------------------------------
  // Step 4: the result

  /** generate_integer with the drawn quotient `q` as a parameter. It gives a
      value whenever some integer is valid, and every value it gives is
      valid; so it gives None exactly when no integer is valid. */
  function GenerateInteger(s: IntegerSchema, q: int): (r: Option<int>)
    requires s.multipleOf > 0
    requires QuotientRangeOf(s).Some? ==> QuotientRangeOf(s).value.Contains(q)
    ensures Satisfiable(s) ==> r.Some?
    ensures r.Some? ==> Valid(s, r.value)
  {
    match QuotientRangeOf(s)
    case None => None
    case Some(range) =>
      var m := s.multipleOf;
      ProductIsMultiple(m, q);
      MulMonotone(m, range.minQuotient, q);
      MulMonotone(m, q, range.maxQuotient);
      assert m * q == q * m;
      Some(m * q)
  }

  /** Every result the generator can reach, over all quotients it may draw. */
  function Outcomes(s: IntegerSchema): set<int>
    requires s.multipleOf > 0
  {
    match QuotientRangeOf(s)
    case None => {}
    case Some(range) =>
      set q | range.minQuotient <= q <= range.maxQuotient :: GenerateInteger(s, q).value
  }

  // ---------------------------------------------------------------------
  // Properties

  /** The collapsed bounds admit exactly the integers the four declared
      bounds admit. */
  lemma CollapsedBoundsAdmitSameIntegers(s: IntegerSchema, v: int)
    requires s.multipleOf > 0
    ensures Valid(s, v) <==>
      IsMultiple(v, s.multipleOf) && EffectiveMinimum(s) <= v <= EffectiveMaximum(s)
  {
  }

  /** An empty collapsed range always gives None. */
  lemma EmptyCollapsedRangeGivesNone(s: IntegerSchema, q: int)
    requires s.multipleOf > 0
    requires EffectiveMinimum(s) > EffectiveMaximum(s)
    ensures QuotientRangeOf(s) == None
    ensures GenerateInteger(s, q) == None
  {
  }

  /** The result is None exactly when no multiple of multipleOf lies in the
      collapsed range. */
  lemma NoneIffNoMultipleInRange(s: IntegerSchema, q: int)
    requires s.multipleOf > 0
    requires QuotientRangeOf(s).Some? ==> QuotientRangeOf(s).value.Contains(q)
    ensures GenerateInteger(s, q).None? <==>
      !exists v :: IsMultiple(v, s.multipleOf) && EffectiveMinimum(s) <= v <= EffectiveMaximum(s)
  {
    if v :| IsMultiple(v, s.multipleOf) && EffectiveMinimum(s) <= v <= EffectiveMaximum(s) {
      assert Valid(s, v);
    }
  }

  /** Every valid value is reached, by drawing its own quotient. */
  lemma EveryValidValueIsReachable(s: IntegerSchema, v: int)
    requires s.multipleOf > 0
    requires Valid(s, v)
    ensures QuotientRangeOf(s).Some?
    ensures QuotientRangeOf(s).value.Contains(v / s.multipleOf)
    ensures GenerateInteger(s, v / s.multipleOf) == Some(v)
  {
    var m := s.multipleOf;
    var range := QuotientRangeOf(s).value;
    MultipleIsProduct(v, m);
    MulMonotone(m, range.minQuotient, v / m);
    MulMonotone(m, v / m, range.maxQuotient);
  }

  /** Distinct quotients give distinct results. */
  lemma DistinctQuotientsGiveDistinctResults(s: IntegerSchema, q1: int, q2: int)
    requires s.multipleOf > 0
    requires QuotientRangeOf(s).Some?
    requires QuotientRangeOf(s).value.Contains(q1) && QuotientRangeOf(s).value.Contains(q2)
    requires q1 != q2
    ensures GenerateInteger(s, q1) != GenerateInteger(s, q2)
  {
    var m := s.multipleOf;
    if q1 < q2 {
      MulMonotone(m, q2, q1);
    } else {
      MulMonotone(m, q1, q2);
    }
  }

  /** The reachable results are exactly the multiples of multipleOf in the
      collapsed range. */
  lemma OutcomesAreTheMultiplesInRange(s: IntegerSchema)
    requires s.multipleOf > 0
    ensures Outcomes(s) ==
      set v | EffectiveMinimum(s) <= v <= EffectiveMaximum(s) && IsMultiple(v, s.multipleOf)
  {
    var m := s.multipleOf;
    var multiples := set v | EffectiveMinimum(s) <= v <= EffectiveMaximum(s) && IsMultiple(v, m);
    forall v | v in Outcomes(s)
      ensures v in multiples
    {
      var range := QuotientRangeOf(s).value;
      var q :| range.minQuotient <= q <= range.maxQuotient && GenerateInteger(s, q).value == v;
      assert Valid(s, v);
    }
    forall v | v in multiples
      ensures v in Outcomes(s)
    {
      assert Valid(s, v);
      EveryValidValueIsReachable(s, v);
    }
  }

  /** With multipleOf = 1 alignment changes nothing, and the reachable
      results are exactly the integers of the collapsed range. */
  lemma UnitMultipleReachesWholeRange(s: IntegerSchema)
    requires s.multipleOf == 1
    ensures AlignDown(EffectiveMaximum(s), 1) == EffectiveMaximum(s)
    ensures AlignUp(EffectiveMinimum(s), 1) == EffectiveMinimum(s)
    ensures forall v :: v in Outcomes(s) <==> EffectiveMinimum(s) <= v <= EffectiveMaximum(s)
  {
    OutcomesAreTheMultiplesInRange(s);
  }

  // ---------------------------------------------------------------------
  // Examples

  lemma MinimumAboveMaximumGivesNone(q: int)
    ensures GenerateInteger(DEFAULT_SCHEMA.(minimum := 10, maximum := 5), q) == None
  {
  }

  lemma NoIntegerBetweenExclusiveBoundsGivesNone(q: int)
    ensures GenerateInteger(DEFAULT_SCHEMA.(exclusiveMinimum := 5, exclusiveMaximum := 6), q) == None
  {
  }

  lemma NoMultipleInRangeGivesNone(q: int)
    ensures GenerateInteger(DEFAULT_SCHEMA.(minimum := 1, maximum := 2, multipleOf := 3), q) == None
  {
  }

  /** When minimum = maximum = v and v is valid, every draw gives v. */
  lemma SinglePointRangeGivesThatPoint(s: IntegerSchema, v: int, q: int)
    requires s.multipleOf > 0
    requires s.minimum == v == s.maximum && Valid(s, v)
    requires QuotientRangeOf(s).Some? ==> QuotientRangeOf(s).value.Contains(q)
    ensures GenerateInteger(s, q) == Some(v)
  {
    var m := s.multipleOf;
    var range := QuotientRangeOf(s).value;
    assert range.minQuotient * m == v == range.maxQuotient * m;
    MulMonotone(m, range.minQuotient, q);
    MulMonotone(m, q, range.maxQuotient);
  }

  /** minimum = maximum = 1, the other keywords at their defaults: the only
      quotient is 1, and it gives 1. */
  lemma MinimumEqualsMaximumGivesOne()
    ensures QuotientRangeOf(DEFAULT_SCHEMA.(minimum := 1, maximum := 1)) == Some(QuotientRange(1, 1))
    ensures GenerateInteger(DEFAULT_SCHEMA.(minimum := 1, maximum := 1), 1) == Some(1)
  {
    var s := DEFAULT_SCHEMA.(minimum := 1, maximum := 1);
    assert Valid(s, 1);
    var range := QuotientRangeOf(s).value;
    assert range.minQuotient * 1 == 1 == range.maxQuotient * 1;
  }

  /** Under exact arithmetic the defaults never fail and stay strictly inside
      the 64-bit range. */
  lemma DefaultsStayInside64Bits(q: int)
    requires QuotientRangeOf(DEFAULT_SCHEMA).Some? ==> QuotientRangeOf(DEFAULT_SCHEMA).value.Contains(q)
    ensures GenerateInteger(DEFAULT_SCHEMA, q).Some?
    ensures MIN_INTEGER < GenerateInteger(DEFAULT_SCHEMA, q).value < MAX_INTEGER
  {
    assert Valid(DEFAULT_SCHEMA, 0);
  }
}
