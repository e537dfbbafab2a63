# json-schema-faker: the integer generator

This project models `generate_integer` from json-schema-faker (`generators.py`). The function
takes the numeric keywords of a JSON Schema, as defined in section 6.2 of JSON Schema Validation
(draft 2019-09): `multipleOf`, `maximum`, `exclusiveMaximum`, `minimum` and `exclusiveMinimum`.
Its docstring promises a random integer that satisfies all of them, or `None` when no such
integer exists.
Keywords that are absent default to `multipleOf = 1` and to the bounds of a signed 64-bit integer.

The function works in four steps:

1. It collapses the exclusive bounds into inclusive ones.
2. It rejects an empty range.
3. It is meant to move both bounds inward to multiples of `multipleOf`, and it rejects again if
   the range is now empty.
4. It multiplies `multipleOf` by a quotient drawn at random from the aligned quotient range.

Files:

- `wrappers.dfy`: the `Option` type. `None` means "no valid value".
- `integer_generator.dfy` (module `IntegerGenerator`): the schema record with its defaults, and
  `Valid`, which is the JSON Schema meaning of the five keywords for an integer. It also holds the
  four steps in exact integer arithmetic and the lemmas about them. The random draw is the parameter
  `q` of `GenerateInteger`, and `q` must lie in the range that `QuotientRangeOf` computes.
- `float_division.dfy` (module `FloatDivision`): the alignment step as the source writes it, with
  Python's floating-point true division. It exists only to exhibit the finding below. Nothing else
  uses it.

Step 3 divides with Python's `/`, which is floating point. The docstring promises "a valid
random integer, or None if no valid output exists" (generators.py:27-28), and section 6.2 of JSON
Schema Validation defines the five keywords on exact numbers. Only exact floor and ceiling keep
that promise. So the main model uses exact floor and ceiling. The code's actual float behaviour
is modelled separately and reported under "## Findings". Apart from the underflow listed under
"## Left out", the two can differ only once a collapsed bound reaches 2^53 in magnitude, whatever
`multipleOf` is. Below that, a quotient `x / m` that is not an integer lies at least `1/m` from
the nearest integer. Its rounding error is less than that, so float rounding cannot carry it
across an integer. Above it, a result can break the bounds, and the code can even return a value
when no valid integer exists.

## Model

| member | source | states |
|---|---|---|
| IntegerGenerator.EffectiveMaximum | generators.py:31 | the collapsed maximum satisfies both upper bounds and equals one of `maximum`, `exclusiveMaximum - 1`, so it is their minimum |
| IntegerGenerator.EffectiveMinimum | generators.py:32 | the collapsed minimum satisfies both lower bounds and equals one of `minimum`, `exclusiveMinimum + 1`, so it is their maximum |
| IntegerGenerator.FloorDiv | generators.py:35 | the exact floor quotient `q` satisfies `q*m <= x < q*m + m` |
| IntegerGenerator.CeilDiv | generators.py:36 | the exact ceiling quotient `q` satisfies `q*m - m < x <= q*m` |
| IntegerGenerator.AlignDown | generators.py:35 | the aligned maximum is a multiple of `m`, is at most `x`, and is at least every multiple of `m` that is at most `x` (the largest such multiple) |
| IntegerGenerator.AlignUp | generators.py:36 | the aligned minimum is a multiple of `m`, is at least `x`, and is at most every multiple of `m` that is at least `x` (the smallest such multiple) |
| IntegerGenerator.QuotientRangeOf | generators.py:31-40 | returns `None` exactly when no integer is valid against the schema; otherwise the quotient range is non-empty, and its ends times `multipleOf` are the least and the greatest valid integers |
| IntegerGenerator.GenerateInteger | generators.py:8-41 | gives a value whenever some integer is valid (complete), and every value it gives is a multiple of `multipleOf` that satisfies all four bounds (sound); together, `None` exactly when no integer is valid |
| IntegerGenerator.CollapsedBoundsAdmitSameIntegers | generators.py:31-32 | an integer is valid exactly when it is a multiple of `multipleOf` within `[EffectiveMinimum, EffectiveMaximum]` |
| IntegerGenerator.EmptyCollapsedRangeGivesNone | generators.py:33-34 | if the collapsed minimum exceeds the collapsed maximum, the result is `None` |
| IntegerGenerator.NoneIffNoMultipleInRange | generators.py:33-38 | the result is `None` if and only if no multiple of `multipleOf` lies in the collapsed range |
| IntegerGenerator.EveryValidValueIsReachable | generators.py:39-41 | every valid integer `v` is produced by the allowed quotient `v / multipleOf` |
| IntegerGenerator.DistinctQuotientsGiveDistinctResults | generators.py:39-41 | two different allowed quotients give two different results |
| IntegerGenerator.OutcomesAreTheMultiplesInRange | generators.py:31-41 | the set of results over all allowed quotients equals the set of multiples of `multipleOf` in the collapsed range |
| IntegerGenerator.UnitMultipleReachesWholeRange | generators.py:35-41 | with `multipleOf = 1`, alignment leaves both bounds unchanged, and the reachable results are exactly the integers of the collapsed range |
| IntegerGenerator.MinimumAboveMaximumGivesNone | generators.py:31-34 | `minimum = 10, maximum = 5` gives `None` |
| IntegerGenerator.NoIntegerBetweenExclusiveBoundsGivesNone | generators.py:31-34 | `exclusiveMinimum = 5, exclusiveMaximum = 6` gives `None` |
| IntegerGenerator.NoMultipleInRangeGivesNone | generators.py:35-38 | `minimum = 1, maximum = 2, multipleOf = 3` gives `None` |
| IntegerGenerator.SinglePointRangeGivesThatPoint | generators.py:31-41 | when `minimum = maximum = v` and `v` is valid, every allowed draw gives `v` |
| IntegerGenerator.MinimumEqualsMaximumGivesOne | generators.py:31-41 | `minimum = maximum = 1`, with the other keywords at their defaults: the quotient range is exactly `[1, 1]`, and its one quotient gives `1` |
| IntegerGenerator.DefaultsStayInside64Bits | generators.py:4-12 | with every keyword at its default, exact arithmetic never gives `None`, and every result lies strictly between the 64-bit bounds |
| FloatDivision.RoundHalfEven | generators.py:35-36 | the result is `floor(n / d)` or one more, lies within one half of `n / d`, and is even at a tie, as Python's rounding of a true division requires |
| FloatDivision.Exponent | generators.py:35-36 | the chosen exponent `e` puts `num / (den * 2^e)` in `[2^52, 2^53)` |
| FloatDivision.NearestFloat | generators.py:35-36 | the exponent `e` is the one that puts `num / (den * 2^e)` in `[2^52, 2^53)`; the float `sig * 2^e` has `2^52 <= sig <= 2^53` and lies within `2^(e-1)` of `num / den`, with ties going to an even `sig`: the correctly rounded binary64 quotient |
| FloatDivision.TrueDivide | generators.py:35-36 | Python's `num / den` has the sign of `num`: it is positive exactly when `num` is, and zero exactly when `num` is (the rounding of its magnitude is the contract of `NearestFloat`) |
| FloatDivision.QuotientRangeAsWritten | generators.py:31-40 | the float-aligned quotient range, when present, is non-empty |
| FloatDivision.GenerateIntegerAsWritten | generators.py:8-41 | the as-written generator gives a value exactly when its float-aligned range exists, and that value is `multipleOf * q`, a multiple of `multipleOf` |
| FloatDivision.CollapsedDefaultsRoundTo2To63 | generators.py:35-36 | `(2^63 - 2) / 1` and `(-2^63 + 1) / 1` round to the floats `2^63` and `-2^63` |
| FloatDivision.DefaultsEscape64BitBoundsAsWritten | generators.py:4-41 | with every keyword at its default, the code as written draws from `[-2^63, 2^63]`, and both ends are invalid results |
| FloatDivision.Odd2To53PlusOneRoundsDown | generators.py:35-36 | `(2^53 + 1) / 1` is a tie between `2^53` and `2^53 + 2` and rounds to `2^53`, the even significand |
| FloatDivision.TwoThirdsAbove2To52RoundsUp | generators.py:35-36 | `(3 * 2^52 + 2) / 3`, which is `2^52 + 2/3`, rounds to the float `2^52 + 1` |
| FloatDivision.MultipleOfThreeEscapesAsWritten | generators.py:31-41 | with `multipleOf = 3` and `minimum = maximum = 3 * 2^52 + 2`, no integer is valid and the exact range is `None`, yet the code as written has the quotient range `[2^52 + 1, 2^52 + 1]` and returns `3 * 2^52 + 3`, which is above `maximum` |
| FloatDivision.SinglePointAbove2To53EscapesAsWritten | generators.py:31-41 | with `minimum = maximum = 2^53 + 1`, the code as written has the quotient range `[2^53, 2^53]` and returns `2^53`, which is below `minimum` |

## Left out

- The distribution of `random.randint`, which is uniform over the quotient range. The model takes
  the drawn quotient as a parameter and requires it to lie in that range. It proves which results
  are reachable, but does not prove their probabilities.
- `multipleOf <= 0`. The docstring asks for a positive integer, so the model makes it a
  precondition. It does not model the division by zero or the sign-flipped alignment.
- Non-integer keyword values, such as float bounds. Every argument here is an integer.
- FloatDivision.TrueDivide: models the significand rounding only. It does not model the
  `OverflowError` that Python raises when a quotient rounds to `2^1024` or more. It does not model
  underflow either (subnormal or zero results, such as `1 / 10**400 == 0.0`). Keyword values
  within 64 bits never reach either; the unbounded integers of `IntegerSchema` can. For example,
  with `minimum = 1` and `multipleOf = 10**400`, the source rounds `1 / 10**400` to `0.0` and
  returns 0. `GenerateIntegerAsWritten` returns `None` there instead.
- IntegerGenerator.GenerateInteger: does not model the `OverflowError` that lines 35-36 raise when
  a collapsed bound divided by `multipleOf` rounds to `2^1024` or more in magnitude (for example
  `maximum = 10**400, exclusiveMaximum = 10**401`, where line 31 keeps `10**400`). Exact arithmetic has no such limit, so there the model returns a value
  where the source raises an exception.
- The number, string, boolean, null, array and object generators, and the type dispatcher.
  They live outside `generators.py` and are not part of this model.

## Findings

| source | as written | input that shows it | evidently intended | confidence | as-written member | corrected member |
|---|---|---|---|---|---|---|
| generators.py:35-36 | `math.floor(maximum / multiple_of)` and `math.ceil(minimum / multiple_of)` divide in binary64 floating point | every keyword at its default: the collapsed bounds `2^63 - 2` and `-2^63 + 1` round to the floats `2^63` and `-2^63`, so the draw may return `2^63` or `-2^63`, and both break the default bounds. The same can happen for any collapsed bound of `2^53` or more in magnitude: `minimum = maximum = 2^53 + 1` returns `2^53`, and `multipleOf = 3, minimum = maximum = 3 * 2^52 + 2` returns `3 * 2^52 + 3` although no integer is valid | exact integer floor and ceiling, so that every result stays within the declared bounds | not executed; derived from Python's correctly rounded integer true division | FloatDivision.DefaultsEscape64BitBoundsAsWritten, FloatDivision.SinglePointAbove2To53EscapesAsWritten, FloatDivision.MultipleOfThreeEscapesAsWritten | IntegerGenerator.GenerateInteger |
