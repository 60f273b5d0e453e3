# NumericUtils in Dafny

This project models the core of the NumericUtils library in two parts.

**Greatest common divisors.** The library has two `int` GCD algorithms:
- subtractive Euclid;
- Stein's binary GCD.

Public overloads wrap the algorithms for two values, three values and an array. They reject all-zero input and arrays with fewer than two values. The array overloads left-fold the pairwise GCD over the values.

**Double bit formatters.** `ToBinary` builds a 64-character binary string from three parts:
- the sign digit;
- the 11-digit biased exponent field;
- the 52 digits of the fraction's radix-2 expansion.

This is the binary64 layout of IEEE 754-2008, section 3.4.

Files:
- `powers.dfy`: powers of two, and quotient and remainder by them. The model uses these to state right shifts, left shifts and bit tests.
- `gcd_math.dfy`: divisibility and a reference `Gcd` built on the remainder recursion. This is a third algorithm, independent of the two being modelled. The lemmas prove that `Gcd` is *the* greatest common divisor: it divides both arguments, every common divisor divides it, and it is unique. They also prove the facts the two loops rely on.
- `numeric_utils.dfy`: both algorithms as imperative methods proved against `Gcd`. It also holds:
  - the validators, as functions returning `Pass` or `Fail(error)`;
  - the overloads, as methods returning `Success(value)` or `Failure(error)`. `Failure` stands in for `ArgumentException`;
  - the `Aggregate` fold, as a loop proved against `GcdOfAll`, the gcd of a whole sequence.
- `double_extensions.dfy`: the formatters and the `ToBinary` assembly step as imperative methods.
  - Each method fills a `char` array, or appends to a string, and is proved against a specification function.
  - Lemmas give the field round trips and the exactness of the expansion.

C# `int` is modelled as a mathematical integer. The precondition `IsNegatableInt` restricts inputs to [−(2^31 − 1), 2^31 − 1], and every result is proved to be at most 2^31 − 1, so no arithmetic in the model can overflow.

Bit operations become arithmetic:
- `x & 1` becomes `x % 2`;
- `x >> 1` becomes `x / 2` (Dafny's Euclidean division agrees with an arithmetic shift, negative values included);
- `x << k` becomes `x * 2^k`.

The by-reference `Swap` (NumericUtils/NumericUtils.cs:289-294) is the parallel assignment `a, b := b, a` inside the Stein loop.

The validators (NumericUtils/NumericUtils.cs:257-287) are the functions `ValidateArrayLength`, `ValidateZeroValues2`, `ValidateZeroValues3` and `ValidateZeroValuesArray`. What they decide is stated in the overloads' contracts.

## Model

| member | source | states |
|---|---|---|
| GcdMath.GcdIsGcd | NumericUtils/NumericUtils.cs:206-218 | The reference Gcd divides both arguments, and every common divisor divides it. The loops' result therefore is a greatest common divisor. |
| GcdMath.GcdUnique | NumericUtils/NumericUtils.cs:206-218 | Any number with the greatest-common-divisor property equals Gcd(a, b), so both algorithms must return the same value. |
| GcdMath.GcdSubtract | NumericUtils/NumericUtils.cs:208-211 | Subtracting the smaller value from the larger keeps the gcd (the `first -= second` branch). |
| GcdMath.GcdSubtractFromSecond | NumericUtils/NumericUtils.cs:212-215 | Subtracting first from a second value at least as large keeps the gcd (the `second -= first` branch, and line 251 in Stein). |
| GcdMath.GcdHalveBoth | NumericUtils/NumericUtils.cs:237-241 | When both values are even, the gcd is twice the gcd of their halves (the shift loop). |
| GcdMath.GcdHalveFirst | NumericUtils/NumericUtils.cs:243 | With an odd second value, halving an even first value keeps the gcd. |
| GcdMath.GcdHalveSecond | NumericUtils/NumericUtils.cs:246 | With an odd first value, halving an even second value keeps the gcd. |
| GcdMath.GcdCommutative | NumericUtils/NumericUtils.cs:247-250 | gcd(a, b) == gcd(b, a), so the swap keeps the gcd. |
| GcdMath.GcdWithZero | NumericUtils/NumericUtils.cs:196-204 | gcd(a, 0) == a and gcd(0, a) == a, which are the early returns. |
| GcdMath.GcdBounds | NumericUtils/NumericUtils.cs:17-22 | The gcd is 0 exactly when both arguments are 0. Otherwise it is at most each nonzero argument, so it fits in an int. |
| GcdMath.GcdStep | NumericUtils/NumericUtils.cs:191-219 | gcd(a, b) == gcd(b, a mod b) for b > 0. This is the step the unit-test expectations are evaluated with. |
| GcdMath.GcdDouble | NumericUtils/NumericUtils.cs:237-241 | gcd(2a, 2b) == 2 gcd(a, b). |
| GcdMath.GcdHalve | NumericUtils/NumericUtils.cs:243-246 | With a odd, gcd(a, 2b) == gcd(a, b). |
| NumericUtils.EuclidGcdValidNumbers | NumericUtils/NumericUtils.cs:191-219 | Returns gcd(\|first\|, \|second\|), which lies in [0, 2^31 − 1]. With one argument 0 it returns the absolute value of the other, and (0, 0) gives 0. The loop keeps both values positive and their gcd unchanged while first + second decreases. |
| NumericUtils.SteinGcdValidNumbers | NumericUtils/NumericUtils.cs:221-255 | Returns gcd(\|first\|, \|second\|) in [0, 2^31 − 1]. The shift loop keeps 2^shift · gcd(first, second) equal to the original gcd, and leaves at least one value odd. |
| NumericUtils.SteinOddPart | NumericUtils/NumericUtils.cs:243-252 | On positive values, at least one of them odd, the loop that strips twos from first and the do-while end with first equal to gcd(first, second), odd and positive. In the do-while first stays odd and positive and is at most second after the swap, and gcd(first, second) is kept. |
| NumericUtils.CommonFactorStep | NumericUtils/NumericUtils.cs:237-241 | One pass of the shift loop keeps 2^shift · gcd(first, second) unchanged. |
| NumericUtils.ValidateArrayLength | NumericUtils/NumericUtils.cs:257-263 | Lets the call through exactly when there are at least two values; otherwise fails with TooFewValues. |
| NumericUtils.ValidateZeroValues2 | NumericUtils/NumericUtils.cs:265-271 | Lets the call through exactly when some argument is nonzero; otherwise fails with AllValuesZero. |
| NumericUtils.ValidateZeroValues3 | NumericUtils/NumericUtils.cs:273-279 | Lets the call through exactly when some of the three arguments is nonzero; otherwise fails with AllValuesZero. |
| NumericUtils.ValidateZeroValuesArray | NumericUtils/NumericUtils.cs:281-287 | Lets the call through exactly when some value is nonzero (never for no values); otherwise fails with AllValuesZero. |
| NumericUtils.EuclidGcd | NumericUtils/NumericUtils.cs:17-22 | Fails with AllValuesZero exactly when both arguments are 0. Otherwise succeeds with gcd(\|first\|, \|second\|), which is positive and fits in an int. |
| NumericUtils.SteinGcd | NumericUtils/NumericUtils.cs:107-112 | The same contract as EuclidGcd, for the Stein algorithm. |
| NumericUtils.EuclidGcd3 | NumericUtils/NumericUtils.cs:47-52 | Fails exactly when all three arguments are 0. Otherwise returns pairwise(pairwise(a, b), c), which is the gcd of all three and positive. |
| NumericUtils.SteinGcd3 | NumericUtils/NumericUtils.cs:137-142 | The same contract as EuclidGcd3, for the Stein algorithm. |
| NumericUtils.EuclidGcdArray | NumericUtils/NumericUtils.cs:77-83 | Fails with TooFewValues when there are fewer than two values; this check comes first, so [0] gets TooFewValues. Fails with AllValuesZero when every value is 0. Otherwise returns the gcd of all values. |
| NumericUtils.SteinGcdArray | NumericUtils/NumericUtils.cs:167-173 | The same contract as EuclidGcdArray, for the Stein algorithm. |
| NumericUtils.AggregateGcd | NumericUtils/NumericUtils.cs:82 | The left fold of the pairwise gcd from the first element (also line 172 for Stein) equals GcdOfAll of the values and lies in [0, 2^31 − 1]. |
| NumericUtils.GcdOfAllIsGcd | NumericUtils/NumericUtils.cs:82 | GcdOfAll(s) divides every element of s, and every common divisor of the elements divides it. |
| NumericUtils.GcdOfAllUnique | NumericUtils/NumericUtils.cs:172 | Any greatest common divisor of all elements equals GcdOfAll(s). |
| NumericUtils.GcdOfAllZero | NumericUtils/NumericUtils.cs:281-287 | GcdOfAll(s) is 0 exactly when every element is 0, so the zero check is what makes the result positive. |
| NumericUtils.ZeroElementHarmless | NumericUtils.UnitTests/NumericUtilsTests.cs:48 | A 0 anywhere in the values leaves the gcd of all values unchanged. |
| NumericUtils.Gcd3Facts | NumericUtils/NumericUtils.cs:51 | pairwise(pairwise(a, b), c) is the gcd of [a, b, c], and it is 0 exactly when all three are 0. |
| NumericUtils.EuclidSteinAgree | NumericUtils.UnitTests/NumericUtilsTests.cs:68-73 | Euclid and Stein give the same result, validation errors included, and the result does not depend on argument order. |
| NumericUtils.TwoArgumentTestCases | NumericUtils.UnitTests/NumericUtilsTests.cs:9-14 | The six expected two-argument results: 3, 1000, 1, 6, 24 and 5641. |
| NumericUtils.ThreeArgumentTestCases | NumericUtils.UnitTests/NumericUtilsTests.cs:27-30 | The expected results 1 for (0, 1, 2) and 111 for (666, 888, 999). |
| NumericUtils.ArrayWithZeroTestCase | NumericUtils.UnitTests/NumericUtilsTests.cs:48 | The gcd of [−288, 28934, 882838, 5627384, −78534, 0, 178236] is 2. |
| NumericUtils.EuclidGcd3TimedAsWritten | NumericUtils/NumericUtils.cs:64-67 | Returns the two-argument result on first and second, ignoring third, and passes the elapsed time through. |
| NumericUtils.EuclidGcd3Timed | NumericUtils/NumericUtils.cs:154-157 | Returns the three-argument result, as the timed Stein overload does, and passes the elapsed time through. |
| NumericUtils.EuclidGcd3TimedDiscrepancy | NumericUtils/NumericUtils.cs:66 | On (2, 4, 3) the as-written overload gives 2 where the gcd is 1. On (0, 0, 5) it reports AllValuesZero where the gcd is 5. |
| NumericUtils.Wrap32 | NumericUtils/NumericUtils.cs:193-194 | Unchecked 32-bit arithmetic: the result is in [−2^31, 2^31 − 1], congruent to the exact value modulo 2^32, and equal to it when that fits. |
| NumericUtils.AbsAsWritten | NumericUtils/NumericUtils.cs:193-194 | The unchecked `x < 0 ? -x : x` (also lines 223-224) stays within int and is the true absolute value on every int except int.MinValue. |
| NumericUtils.EuclidPassAsWritten | NumericUtils/NumericUtils.cs:208-215 | One pass of the subtraction loop with unchecked arithmetic stays within int; on two positive ints it is the exact subtraction of the smaller from the larger, both stay non-negative and their sum decreases. |
| NumericUtils.StripTwos | NumericUtils/NumericUtils.cs:243 | Shifting a nonzero x right until its low bit is set (also line 246) ends at a nonzero odd value, which for positive x lies in (0, x]. |
| NumericUtils.SteinPassAsWritten | NumericUtils/NumericUtils.cs:245-251 | One pass of the do-while with unchecked subtraction keeps an odd first odd; on positive ints nothing wraps, the new first is positive and the two new values add up to the larger of first and the odd part of second. |
| NumericUtils.AbsOfIntMin | NumericUtils/NumericUtils.cs:193-204 | The unchecked `first < 0 ? -first : first` leaves int.MinValue negative, so (int.MinValue, 0) and (0, int.MinValue) return int.MinValue; on every other int it is the absolute value. |
| NumericUtils.EuclidIntMinCycles | NumericUtils/NumericUtils.cs:206-216 | From (int.MinValue, s) or (s, int.MinValue) with 0 < s, two passes of the unchecked subtraction loop return to the same state while first != second, so the loop never ends. |
| NumericUtils.StripTwosNegativePower | NumericUtils/NumericUtils.cs:243 | Arithmetic right shifts of −2^k until the value is odd end at −1. |
| NumericUtils.SteinIntMinMaxValue | NumericUtils/NumericUtils.cs:236-254 | On (int.MinValue, int.MaxValue) or (int.MaxValue, int.MinValue), first becomes −1, the unchecked subtraction wraps second to int.MinValue, and the next pass reaches (−1, 0), so −1 is returned. |
| NumericUtils.SteinIntMinCycles | NumericUtils/NumericUtils.cs:236-252 | On (int.MinValue, 1) the shift loop does not run, first is shifted down to −1, and the do-while goes from (−1, 1) to the fixed state (−1, 2), so second never reaches 0. |
| DoubleExtensions.ExponentBinary | NumericUtils/DoubleExtensions.cs:58-77 | Returns exactly 11 binary digits: the low 11 bits of number, most significant first. |
| DoubleExtensions.BitsMsbFirstAt | NumericUtils/DoubleExtensions.cs:62-74 | The digit at index 10 − i is '1' exactly when bit i of number is set. |
| DoubleExtensions.BitsMsbFirstValue | NumericUtils/DoubleExtensions.cs:62-74 | Reading the digits most significant first gives number mod 2^width. |
| DoubleExtensions.BitsMsbFirstLowBits | NumericUtils/DoubleExtensions.cs:62-74 | Two numbers give the same digits exactly when their low 11 bits agree, so only those bits matter. |
| DoubleExtensions.ExponentFieldRoundTrip | NumericUtils/DoubleExtensions.cs:58-77 | For 0 <= e < 2048 the 11 digits read back as e. |
| DoubleExtensions.ExponentFieldExamples | NumericUtils/DoubleExtensions.cs:58-77 | Exponent 0 gives "00000000000" and exponent 1023 gives "01111111111". |
| DoubleExtensions.FractionBinary | NumericUtils/DoubleExtensions.cs:79-98 | Returns exactly 52 binary digits: the first 52 digits of the radix-2 expansion of fraction. |
| DoubleExtensions.RemainderInUnitInterval | NumericUtils/DoubleExtensions.cs:83-96 | A running value in [0, 1) stays in [0, 1) after every doubling-and-subtract step. |
| DoubleExtensions.FractionExpansion | NumericUtils/DoubleExtensions.cs:83-96 | After k steps, fraction · 2^k equals the k digits read as an integer plus the running value. This is the expansion invariant, scaled by 2^k. |
| DoubleExtensions.FractionBitsExact | NumericUtils/DoubleExtensions.cs:83-96 | A fraction m · 2^−52 with 0 <= m < 2^52 is expanded exactly: the final running value is 0 and the digits read back as m. |
| DoubleExtensions.FractionBitsOfZero | NumericUtils/DoubleExtensions.cs:79-98 | A fraction of 0 gives 52 '0' digits. |
| DoubleExtensions.ToBinary | NumericUtils/DoubleExtensions.cs:13-31 | Returns the sign digit, then the 11 exponent digits, then the 52 fraction digits: 64 binary digits in total. |
| DoubleExtensions.Binary64RoundTrip | NumericUtils/DoubleExtensions.cs:15-31 | For a biased exponent below 2048 and a fraction m · 2^−52, the three fields of the string read back as the sign, the exponent and m. |
| DoubleExtensions.Binary64Examples | NumericUtils/DoubleExtensions.cs:15-31 | The field images of +0.0, −0.0 and 1.0. |

## Left out

- Timed overloads: the `out long methodExecutionMilliseconds` overloads and `MeasureExecutionTime` (NumericUtils/NumericUtils.cs:33-36, 94-97, 123-126, 154-157, 184-187, 296-305) read a wall-clock stopwatch. They are not modelled. The exception is the three-argument Euclid one, which is modelled under Findings with the elapsed time as a parameter.
- `GetDoublesExponent`, `GetNormalExponent` and `GetDoublesFraction` (NumericUtils/DoubleExtensions.cs:101-150) are not modelled. They depend on `Math.Pow` and on floating-point underflow, overflow and NaN, which reals cannot express. `ToBinary` therefore takes the biased exponent and the fraction as inputs.
- NaN exponent: for NaN, `GetDoublesExponent` returns biased exponent 1 (lines 103-106). Section 3.4 of IEEE 754-2008 gives NaN the all-ones exponent field. Since the model does not derive the exponent, it takes neither side.
- `GetSignBinaryRepresentation` and `IsNegativeZero` (NumericUtils/DoubleExtensions.cs:48-56, 152-155) depend on IEEE signed zero and on 1.0 / −0.0 being −∞. The sign is a boolean input of `ToBinary`, and the negation at line 22 is left out with it.
- DoubleExtensions.FractionBinary: the real-number loop equals the double loop only for fractions of binary64 values in [0, 1). For other inputs, doubles would round where reals do not.
- NumericUtils.EuclidGcdValidNumbers: requires inputs other than −2^31. With unchecked arithmetic the library returns int.MinValue for (int.MinValue, 0), (0, int.MinValue) and (int.MinValue, int.MinValue), and otherwise loops forever, for example on (int.MinValue, 1); see Findings. The contract states the intended gcd on the remaining inputs.
- NumericUtils.SteinGcdValidNumbers: requires inputs other than −2^31. With unchecked arithmetic the library returns int.MinValue for (int.MinValue, 0), (0, int.MinValue) and (int.MinValue, int.MinValue), returns −1 for (int.MinValue, ±int.MaxValue) and (±int.MaxValue, int.MinValue), and otherwise loops forever, for example on (int.MinValue, 1); see Findings. Only the (int.MinValue, 1) and ±int.MaxValue cases are proved.
- NumericUtils.EuclidGcd: inherits the same restriction against −2^31 on every argument it passes to the algorithms.
- NumericUtils.SteinGcd: inherits the same restriction against −2^31 on every argument it passes to the algorithms.
- NumericUtils.EuclidGcd3: inherits the same restriction against −2^31 on every argument it passes to the algorithms.
- NumericUtils.SteinGcd3: inherits the same restriction against −2^31 on every argument it passes to the algorithms.
- NumericUtils.EuclidGcdArray: inherits the same restriction against −2^31 on every argument it passes to the algorithms.
- NumericUtils.SteinGcdArray: inherits the same restriction against −2^31 on every argument it passes to the algorithms.
- NumericUtils.AggregateGcd: inherits the same restriction against −2^31 on every argument it passes to the algorithms.
- NumericUtils.EuclidGcd3Timed: inherits the same restriction against −2^31 on every argument it passes to the algorithms.
- NumericUtils.EuclidGcd3TimedAsWritten: inherits the same restriction on first and second; third is never read, so it is unrestricted.
- Arrays passed to the array overloads are modelled as `seq<int>`, because the library only reads them; a null array, which throws NullReferenceException at NumericUtils/NumericUtils.cs:259 rather than ArgumentException, cannot be expressed. LINQ's `All` becomes a quantifier, `Aggregate` a loop, and `StringBuilder` string concatenation.

## Findings

| source | as written | input that shows it | evidently intended | confidence | as-written member | corrected member |
|---|---|---|---|---|---|---|
| NumericUtils/NumericUtils.cs:64-67 | The timed three-argument `EuclidGCD` times and returns `EuclidGCD(first, second)`, dropping `third`. | (2, 4, 3) gives 2, but the gcd is 1. (0, 0, 5) throws the all-zero error, but the gcd is 5. | Time and return `EuclidGCD(first, second, third)`, as the timed Stein overload at lines 154-157 does. | not executed | NumericUtils.EuclidGcd3TimedAsWritten (shown by NumericUtils.EuclidGcd3TimedDiscrepancy) | NumericUtils.EuclidGcd3Timed |
| NumericUtils/NumericUtils.cs:193-219 | `-first` is unchecked, so int.MinValue stays negative; the subtraction loop then wraps around. | (int.MinValue, 0), (0, int.MinValue) and (int.MinValue, int.MinValue) return int.MinValue, a negative gcd (the last because first == second before the loop). (int.MinValue, 1) never returns: the state goes from (int.MinValue, 1) to (int.MinValue, −2147483647) and back. | Terminate with the gcd of the absolute values, which needs an input other than int.MinValue (2^31 is not an int). | not executed | NumericUtils.EuclidIntMinCycles (with NumericUtils.AbsOfIntMin) | NumericUtils.EuclidGcdValidNumbers |
| NumericUtils/NumericUtils.cs:223-255 | `-first` is unchecked, and the halving and subtraction wrap around or shift a negative value. | (int.MinValue, 1) never returns: first is shifted down to −1, and second then stays at 2 after every pass. (int.MinValue, int.MaxValue) returns −1, a negative gcd: second wraps round to int.MinValue, is shifted down to −1, and the subtraction reaches 0. | Terminate with the gcd of the absolute values, on inputs other than int.MinValue. | not executed | NumericUtils.SteinIntMinCycles (with NumericUtils.SteinIntMinMaxValue) | NumericUtils.SteinGcdValidNumbers |
