/**
 * The GCD library: subtractive Euclid and binary (Stein) GCD on 32-bit
 * signed integers, the argument validation in front of them, and the
 * public two-argument, three-argument and array overloads.
 *
 * A C# `int` is an `int` here together with the requirement that it is
 * strictly above -2^31: both algorithms negate negative inputs, and
 * negating -2^31 overflows. Every value the algorithms compute then stays
 * within [0, 2^31), which their contracts state for the results.
 * The `ArgumentException`s of the validators are a `Result` value.
 */
module NumericUtils {

  import opened GcdMath
  import opened Powers

  const IntMax: int := 0x7FFF_FFFF

  /** A C# int whose negation does not overflow. */
  predicate IsNegatableInt(x: int) {
    -IntMax <= x <= IntMax
  }

  function Abs(x: int): nat {
    if x < 0 then -x else x
  }

  /** The two messages of the `ArgumentException`s the validators throw. */
  datatype ValidationError =
    | TooFewValues    // "The number of values must be greater than one."
    | AllValuesZero   // "All the values cannot be zero."

  /** A validator either lets the call through or throws. */
  datatype Outcome = Pass | Fail(error: ValidationError)

  /** A public overload either returns a value or throws. */
  datatype Result = Success(value: int) | Failure(error: ValidationError)

  // -----------------------------------------------------------------------
  // The two algorithms on already validated numbers

  /** Subtractive Euclid: repeatedly subtract the smaller value from the larger. */
  method EuclidGcdValidNumbers(first: int, second: int) returns (r: int)
    requires IsNegatableInt(first) && IsNegatableInt(second)
    ensures r == Gcd(Abs(first), Abs(second))
    ensures 0 <= r <= IntMax
  {
    var a := if first < 0 then -first else first;
    var b := if second < 0 then -second else second;
    assert a == Abs(first) && b == Abs(second);
    ghost var g := Gcd(a, b);
    GcdBounds(a, b);

    if a == 0 {
      GcdWithZero(b);
      return b;
    }

    if b == 0 {
      GcdWithZero(a);
      return a;
    }

    while a != b
      invariant 0 < a <= IntMax && 0 < b <= IntMax
      invariant Gcd(a, b) == g
      decreases a + b
    {
      if a > b {
        GcdSubtract(a, b);
        a := a - b;
      } else {
        GcdSubtractFromSecond(a, b);
        b := b - a;
      }
    }

    GcdWithZero(a);
    r := a;
  }

  /**
   * Binary GCD: the common factor 2^shift is taken out first, `first` is
   * then made odd, and each round strips the factors of two from `second`,
   * orders the pair so that `first <= second` and subtracts; the loop ends
   * when `second` reaches zero and the answer is `first << shift`.
   * `(x & 1) == 0` is `x % 2 == 0`, `x >>= 1` is `x := x / 2` and
   * `first << shift` is `first * 2^shift` on these non-negative values;
   * `Swap` is the parallel assignment.
   */
  method SteinGcdValidNumbers(first: int, second: int) returns (r: int)
    requires IsNegatableInt(first) && IsNegatableInt(second)
    ensures r == Gcd(Abs(first), Abs(second))
    ensures 0 <= r <= IntMax
  {
    var a := if first < 0 then -first else first;
    var b := if second < 0 then -second else second;
    assert a == Abs(first) && b == Abs(second);
    GcdBounds(a, b);

    if a == 0 {
      GcdWithZero(b);
      return b;
    }

    if b == 0 {
      GcdWithZero(a);
      return a;
    }

    ghost var g := Gcd(a, b);
    var shift := 0;
    while a % 2 == 0 && b % 2 == 0
      invariant 0 < a && 0 < b
      invariant Pow2(shift) * Gcd(a, b) == g
      decreases a
    {
      CommonFactorStep(a, b, shift);
      a := a / 2;
      b := b / 2;
      shift := shift + 1;
    }

    var odd := SteinOddPart(a, b);
    assert g == Pow2(shift) * odd;
    r := Pow2(shift) * odd;
  }

  /**
   * The rest of SteinGcdValidNumbers once the common power of two is gone:
   * strip twos from first, then the do-while that strips twos from second,
   * orders the pair and subtracts. It ends with first equal to the gcd.
   */
  method SteinOddPart(first: int, second: int) returns (r: int)
    requires 0 < first && 0 < second && (first % 2 == 1 || second % 2 == 1)
    ensures r == Gcd(first, second)
    ensures 0 < r && r % 2 == 1
  {
    var a, b := first, second;
    while a % 2 == 0
      invariant 0 < a && 0 < b && (a % 2 == 1 || b % 2 == 1)
      invariant Gcd(a, b) == Gcd(first, second)
      decreases a
    {
      GcdHalveFirst(a, b);
      a := a / 2;
    }

    while true
      invariant 0 < a && a % 2 == 1 && 0 < b
      invariant Gcd(a, b) == Gcd(first, second)
      decreases a + b
    {
      while b % 2 == 0
        invariant 0 < b
        invariant Gcd(a, b) == Gcd(first, second)
        decreases b
      {
        GcdHalveSecond(a, b);
        b := b / 2;
      }
      if a > b {
        GcdCommutative(a, b);
        a, b := b, a;
      }
      GcdSubtractFromSecond(a, b);
      b := b - a;
      if b == 0 {
        break;
      }
    }

    GcdWithZero(a);
    r := a;
  }

  /** Taking a common factor two out of both values moves it into 2^shift. */
  lemma CommonFactorStep(a: nat, b: nat, shift: nat)
    requires a % 2 == 0 && b % 2 == 0
    ensures Pow2(shift + 1) * Gcd(a / 2, b / 2) == Pow2(shift) * Gcd(a, b)
  {
    GcdHalveBoth(a, b);
    MulPow2Succ(shift, Gcd(a / 2, b / 2));
  }

  lemma MulPow2Succ(k: nat, h: nat)
    ensures Pow2(k + 1) * h == Pow2(k) * (2 * h)
  {
    var p := Pow2(k);
    assert (2 * p) * h == p * (2 * h);
  }

  // -----------------------------------------------------------------------
  // Validation

  /** Rejects fewer than two values, and nothing else. */
  function ValidateArrayLength(numbers: seq<int>): (r: Outcome)
    ensures r == Pass <==> |numbers| >= 2
    ensures r.Fail? ==> r.error == TooFewValues
  {
    if |numbers| < 2 then Fail(TooFewValues) else Pass
  }

  /** Lets the call through exactly when some argument is nonzero. */
  function ValidateZeroValues2(first: int, second: int): (r: Outcome)
    ensures r == Pass <==> first != 0 || second != 0
    ensures r.Fail? ==> r.error == AllValuesZero
  {
    if first == 0 && second == 0 then Fail(AllValuesZero) else Pass
  }

  /** Lets the call through exactly when some argument is nonzero. */
  function ValidateZeroValues3(first: int, second: int, third: int): (r: Outcome)
    ensures r == Pass <==> first != 0 || second != 0 || third != 0
    ensures r.Fail? ==> r.error == AllValuesZero
  {
    if first == 0 && second == 0 && third == 0 then Fail(AllValuesZero) else Pass
  }

  /** Lets the call through exactly when some value is nonzero (so never for no values). */
  function ValidateZeroValuesArray(numbers: seq<int>): (r: Outcome)
    ensures r == Pass <==> exists i :: 0 <= i < |numbers| && numbers[i] != 0
    ensures r.Fail? ==> r.error == AllValuesZero
  {
    if forall i :: 0 <= i < |numbers| ==> numbers[i] == 0 then Fail(AllValuesZero) else Pass
  }

  // -----------------------------------------------------------------------
  // The gcd of a whole sequence

  /**
   * The left fold of the pairwise gcd over the absolute values, seeded
   * with 0 (gcd(0, x) == |x|, so the seed changes nothing).
   */
  function GcdOfAll(s: seq<int>): nat {
    if s == [] then 0 else Gcd(GcdOfAll(s[..|s| - 1]), Abs(s[|s| - 1]))
  }

  /** g divides every element of s (in absolute value). */
  ghost predicate DividesAll(g: nat, s: seq<int>) {
    forall i :: 0 <= i < |s| ==> Divides(g, Abs(s[i]))
  }

  /** GcdOfAll(s) divides every element, and every common divisor of the elements divides it. */
  lemma {:induction false} GcdOfAllIsGcd(s: seq<int>, d: nat)
    ensures DividesAll(GcdOfAll(s), s)
    ensures DividesAll(d, s) ==> Divides(d, GcdOfAll(s))
  {
    if s == [] {
      DividesZero(d);
    } else {
      var init, last := s[..|s| - 1], s[|s| - 1];
      var g0 := GcdOfAll(init);
      var g := GcdOfAll(s);
      GcdOfAllIsGcd(init, d);
      GcdDividesBoth(g0, Abs(last));
      forall i | 0 <= i < |s|
        ensures Divides(g, Abs(s[i]))
      {
        if i < |s| - 1 {
          assert s[i] == init[i];
          GcdIsGcd(g0, Abs(last));
          DividesTransitive(g, g0, Abs(s[i]));
        }
      }
      if DividesAll(d, s) {
        assert DividesAll(d, init) by {
          forall i | 0 <= i < |init| ensures Divides(d, Abs(init[i])) {
            assert init[i] == s[i];
          }
        }
        GcdGreatest(g0, Abs(last), d);
      }
    }
  }

  /** The gcd of a sequence is the unique number with the gcd property. */
  lemma GcdOfAllUnique(g: nat, s: seq<int>)
    requires DividesAll(g, s)
    requires forall d: nat :: DividesAll(d, s) ==> Divides(d, g)
    ensures g == GcdOfAll(s)
  {
    GcdOfAllIsGcd(s, g);
    DividesAntisymmetric(g, GcdOfAll(s));
  }

  /** The gcd of a sequence is zero exactly when every element is zero. */
  lemma {:induction false} GcdOfAllZero(s: seq<int>)
    ensures GcdOfAll(s) == 0 <==> forall i :: 0 <= i < |s| ==> s[i] == 0
  {
    if s != [] {
      var init := s[..|s| - 1];
      GcdOfAllZero(init);
      GcdBounds(GcdOfAll(init), Abs(s[|s| - 1]));
      if GcdOfAll(s) == 0 {
        forall i | 0 <= i < |s| ensures s[i] == 0 {
          if i < |s| - 1 { assert s[i] == init[i]; }
        }
      }
    }
  }

  /** A zero anywhere in the sequence does not change its gcd. */
  lemma ZeroElementHarmless(s: seq<int>, t: seq<int>)
    ensures GcdOfAll(s + [0] + t) == GcdOfAll(s + t)
  {
    var u, v := s + [0] + t, s + t;
    var g := GcdOfAll(v);
    forall d: nat
      ensures DividesAll(d, u) <==> DividesAll(d, v)
    {
      DividesZero(d);
      if DividesAll(d, v) {
        forall i | 0 <= i < |u| ensures Divides(d, Abs(u[i])) {
          if i < |s| { assert u[i] == v[i]; }
          else if i > |s| { assert u[i] == v[i - 1]; }
        }
      }
      if DividesAll(d, u) {
        forall i | 0 <= i < |v| ensures Divides(d, Abs(v[i])) {
          if i < |s| { assert v[i] == u[i]; }
          else { assert v[i] == u[i + 1]; }
        }
      }
    }
    GcdOfAllIsGcd(v, 0);
    forall d: nat | DividesAll(d, u) ensures Divides(d, g) {
      GcdOfAllIsGcd(v, d);
    }
    GcdOfAllUnique(g, u);
  }

  /** The left fold that `Aggregate` performs, starting from the first element. */
  method AggregateGcd(numbers: seq<int>, useStein: bool) returns (r: int)
    requires |numbers| >= 2
    requires forall i :: 0 <= i < |numbers| ==> IsNegatableInt(numbers[i])
    ensures r == GcdOfAll(numbers)
    ensures 0 <= r <= IntMax
  {
    r := numbers[0];
    GcdWithZero(Abs(numbers[0]));
    assert numbers[..1][..0] == [];
    for i := 1 to |numbers|
      invariant IsNegatableInt(r)
      invariant Abs(r) == GcdOfAll(numbers[..i])
      invariant i >= 2 ==> r >= 0
    {
      if useStein {
        r := SteinGcdValidNumbers(r, numbers[i]);
      } else {
        r := EuclidGcdValidNumbers(r, numbers[i]);
      }
      assert numbers[..i + 1][..i] == numbers[..i];
    }
    assert numbers[..|numbers|] == numbers;
  }

  // -----------------------------------------------------------------------
  // Public overloads

  method EuclidGcd(first: int, second: int) returns (r: Result)
    requires IsNegatableInt(first) && IsNegatableInt(second)
    ensures r == if first == 0 && second == 0 then Failure(AllValuesZero)
                 else Success(Gcd(Abs(first), Abs(second)))
    ensures r.Success? ==> 0 < r.value <= IntMax
  {
    match ValidateZeroValues2(first, second)
    case Fail(e) => return Failure(e);
    case Pass =>
      var g := EuclidGcdValidNumbers(first, second);
      GcdBounds(Abs(first), Abs(second));
      return Success(g);
  }

  method EuclidGcd3(first: int, second: int, third: int) returns (r: Result)
    requires IsNegatableInt(first) && IsNegatableInt(second) && IsNegatableInt(third)
    ensures r == if first == 0 && second == 0 && third == 0 then Failure(AllValuesZero)
                 else Success(Gcd(Gcd(Abs(first), Abs(second)), Abs(third)))
    ensures r.Success? ==> r.value == GcdOfAll([first, second, third]) && 0 < r.value <= IntMax
  {
    match ValidateZeroValues3(first, second, third)
    case Fail(e) => return Failure(e);
    case Pass =>
      var g := EuclidGcdValidNumbers(first, second);
      g := EuclidGcdValidNumbers(g, third);
      Gcd3Facts(first, second, third);
      return Success(g);
  }

  method EuclidGcdArray(numbers: seq<int>) returns (r: Result)
    requires forall i :: 0 <= i < |numbers| ==> IsNegatableInt(numbers[i])
    ensures r == if |numbers| < 2 then Failure(TooFewValues)
                 else if forall i :: 0 <= i < |numbers| ==> numbers[i] == 0 then Failure(AllValuesZero)
                 else Success(GcdOfAll(numbers))
    ensures r.Success? ==> 0 < r.value <= IntMax
  {
    match ValidateArrayLength(numbers)
    case Fail(e) => return Failure(e);
    case Pass =>
      match ValidateZeroValuesArray(numbers)
      case Fail(e) => return Failure(e);
      case Pass =>
        var g := AggregateGcd(numbers, false);
        GcdOfAllZero(numbers);
        return Success(g);
  }

  method SteinGcd(first: int, second: int) returns (r: Result)
    requires IsNegatableInt(first) && IsNegatableInt(second)
    ensures r == if first == 0 && second == 0 then Failure(AllValuesZero)
                 else Success(Gcd(Abs(first), Abs(second)))
    ensures r.Success? ==> 0 < r.value <= IntMax
  {
    match ValidateZeroValues2(first, second)
    case Fail(e) => return Failure(e);
    case Pass =>
      var g := SteinGcdValidNumbers(first, second);
      GcdBounds(Abs(first), Abs(second));
      return Success(g);
  }

  method SteinGcd3(first: int, second: int, third: int) returns (r: Result)
    requires IsNegatableInt(first) && IsNegatableInt(second) && IsNegatableInt(third)
    ensures r == if first == 0 && second == 0 && third == 0 then Failure(AllValuesZero)
                 else Success(Gcd(Gcd(Abs(first), Abs(second)), Abs(third)))
    ensures r.Success? ==> r.value == GcdOfAll([first, second, third]) && 0 < r.value <= IntMax
  {
    match ValidateZeroValues3(first, second, third)
    case Fail(e) => return Failure(e);
    case Pass =>
      var g := SteinGcdValidNumbers(first, second);
      g := SteinGcdValidNumbers(g, third);
      Gcd3Facts(first, second, third);
      return Success(g);
  }

  method SteinGcdArray(numbers: seq<int>) returns (r: Result)
    requires forall i :: 0 <= i < |numbers| ==> IsNegatableInt(numbers[i])
    ensures r == if |numbers| < 2 then Failure(TooFewValues)
                 else if forall i :: 0 <= i < |numbers| ==> numbers[i] == 0 then Failure(AllValuesZero)
                 else Success(GcdOfAll(numbers))
    ensures r.Success? ==> 0 < r.value <= IntMax
  {
    match ValidateArrayLength(numbers)
    case Fail(e) => return Failure(e);
    case Pass =>
      match ValidateZeroValuesArray(numbers)
      case Fail(e) => return Failure(e);
      case Pass =>
        var g := AggregateGcd(numbers, true);
        GcdOfAllZero(numbers);
        return Success(g);
  }

  /**
   * The three-argument overloads compute gcd(gcd(a, b), c); that is the gcd
   * of the three-element sequence, which is zero only when all three are.
   */
  lemma Gcd3Facts(first: int, second: int, third: int)
    ensures GcdOfAll([first, second, third]) == Gcd(Gcd(Abs(first), Abs(second)), Abs(third))
    ensures GcdOfAll([first, second, third]) == 0 <==> first == 0 && second == 0 && third == 0
  {
    var s := [first, second, third];
    assert [first][..0] == [];
    assert GcdOfAll([first]) == Gcd(0, Abs(first));
    GcdWithZero(Abs(first));
    assert [first, second][..1] == [first];
    assert GcdOfAll([first, second]) == Gcd(Abs(first), Abs(second));
    assert s[..2] == [first, second];
    GcdOfAllZero(s);
  }

  // -----------------------------------------------------------------------
  // Properties across overloads and the unit-test expectations

  /**
   * Both algorithms give the same answer, and the answer does not depend on
   * the order of the arguments.
   */
  method EuclidSteinAgree(first: int, second: int) returns (euclid: Result, stein: Result, swapped: Result)
    requires IsNegatableInt(first) && IsNegatableInt(second)
    ensures euclid == stein == swapped
  {
    euclid := EuclidGcd(first, second);
    stein := SteinGcd(first, second);
    swapped := EuclidGcd(second, first);
    GcdCommutative(Abs(first), Abs(second));
  }

  /** The expected results of the two-argument unit tests (the same for both algorithms). */
  lemma TwoArgumentTestCases()
    ensures Gcd(Abs(0), Abs(3)) == 3
    ensures Gcd(Abs(0), Abs(-1000)) == 1000
    ensures Gcd(Abs(5123), Abs(11823981)) == 1
    ensures Gcd(Abs(725418), Abs(6126)) == 6
    ensures Gcd(Abs(-888888), Abs(77274168)) == 24
    ensures Gcd(Abs(5641), Abs(31820881)) == 5641
  {
    GcdStep(0, 3);
    GcdStep(0, 1000);
    GcdStep(5123, 11823981); GcdStep(11823981, 5123); GcdStep(5123, 97); GcdStep(97, 79); GcdStep(79, 18);
    GcdStep(18, 7); GcdStep(7, 4); GcdStep(4, 3); GcdStep(3, 1);
    GcdStep(725418, 6126); GcdStep(6126, 2550); GcdStep(2550, 1026); GcdStep(1026, 498); GcdStep(498, 30);
    GcdStep(30, 18); GcdStep(18, 12); GcdStep(12, 6);
    GcdStep(888888, 77274168); GcdStep(77274168, 888888); GcdStep(888888, 829800); GcdStep(829800, 59088);
    GcdStep(59088, 2568); GcdStep(2568, 24);
    GcdStep(5641, 31820881); GcdStep(31820881, 5641);
  }

  /** The array unit test with a zero among the values: the gcd is 2. */
  lemma ArrayWithZeroTestCase()
    ensures GcdOfAll([-288, 28934, 882838, 5627384, -78534, 0, 178236]) == 2
  {
    var s := [-288, 28934, 882838, 5627384, -78534, 0, 178236];
    assert s[..1][..0] == [];
    assert s[..2][..1] == s[..1];
    assert s[..3][..2] == s[..2];
    assert s[..4][..3] == s[..3];
    assert s[..5][..4] == s[..4];
    assert s[..6][..5] == s[..5];
    assert s[..7][..6] == s[..6];
    assert s[..7] == s;
    ArrayWithZeroPairs();
    assert GcdOfAll(s[..1]) == 288;
    assert GcdOfAll(s[..2]) == 2;
    assert GcdOfAll(s[..3]) == 2;
    assert GcdOfAll(s[..4]) == 2;
    assert GcdOfAll(s[..5]) == 2;
    assert GcdOfAll(s[..6]) == 2;
  }

  /** The pairwise steps of that fold. */
  lemma ArrayWithZeroPairs()
    ensures Gcd(0, 288) == 288 && Gcd(288, 28934) == 2 && Gcd(2, 882838) == 2
    ensures Gcd(2, 5627384) == 2 && Gcd(2, 78534) == 2 && Gcd(2, 0) == 2 && Gcd(2, 178236) == 2
  {
    GcdStep(0, 288);
    GcdStep(288, 28934); GcdStep(28934, 288); GcdStep(288, 134); GcdStep(134, 20); GcdStep(20, 14);
    GcdStep(14, 6); GcdStep(6, 2);
    GcdStep(2, 882838); GcdStep(882838, 2);
    GcdStep(2, 5627384); GcdStep(5627384, 2);
    GcdStep(2, 78534); GcdStep(78534, 2);
    GcdStep(2, 178236); GcdStep(178236, 2);
  }

  /** Expected results of two of the three-argument unit tests. */
  lemma ThreeArgumentTestCases()
    ensures GcdOfAll([0, 1, 2]) == 1
    ensures GcdOfAll([666, 888, 999]) == 111
  {
    Gcd3Facts(0, 1, 2);
    Gcd3Facts(666, 888, 999);
    GcdWithZero(1);
    GcdStep(1, 2); GcdStep(2, 1);
    GcdStep(666, 888); GcdStep(888, 666); GcdStep(666, 222);
    GcdStep(222, 999); GcdStep(999, 222); GcdStep(222, 111);
  }

  // -----------------------------------------------------------------------
  // The timed three-argument Euclid overload (the elapsed time, read from a
  // stopwatch in the library, is a parameter here)

  /** As written: it times and returns the TWO-argument overload on first and second. */
  method EuclidGcd3TimedAsWritten(first: int, second: int, third: int, elapsed: nat)
    returns (r: Result, elapsedMilliseconds: nat)
    requires IsNegatableInt(first) && IsNegatableInt(second)
    ensures elapsedMilliseconds == elapsed
    ensures r == if first == 0 && second == 0 then Failure(AllValuesZero)
                 else Success(Gcd(Abs(first), Abs(second)))
  {
    r := EuclidGcd(first, second);
    elapsedMilliseconds := elapsed;
  }

  /** Corrected: it times and returns the three-argument overload, as the Stein one does. */
  method EuclidGcd3Timed(first: int, second: int, third: int, elapsed: nat)
    returns (r: Result, elapsedMilliseconds: nat)
    requires IsNegatableInt(first) && IsNegatableInt(second) && IsNegatableInt(third)
    ensures elapsedMilliseconds == elapsed
    ensures r == if first == 0 && second == 0 && third == 0 then Failure(AllValuesZero)
                 else Success(Gcd(Gcd(Abs(first), Abs(second)), Abs(third)))
  {
    r := EuclidGcd3(first, second, third);
    elapsedMilliseconds := elapsed;
  }

  /**
   * Inputs on which the two differ: (2, 4, 3), whose gcd is 1, gives 2 as
   * written; (0, 0, 5), whose gcd is 5, is rejected as all-zero as written.
   */
  method EuclidGcd3TimedDiscrepancy()
    returns (asWritten: Result, corrected: Result, asWrittenZeros: Result, correctedZeros: Result)
    ensures asWritten == Success(2) && corrected == Success(1)
    ensures asWrittenZeros == Failure(AllValuesZero) && correctedZeros == Success(5)
  {
    GcdStep(2, 4); GcdStep(4, 2); GcdStep(2, 3); GcdStep(3, 2); GcdStep(2, 1);
    GcdWithZero(5);
    var ms: nat;
    asWritten, ms := EuclidGcd3TimedAsWritten(2, 4, 3, 0);
    corrected, ms := EuclidGcd3Timed(2, 4, 3, 0);
    asWrittenZeros, ms := EuclidGcd3TimedAsWritten(0, 0, 5, 0);
    correctedZeros, ms := EuclidGcd3Timed(0, 0, 5, 0);
  }

  // -----------------------------------------------------------------------
  // The algorithms at int.MinValue, with C#'s unchecked 32-bit arithmetic

  const IntMin: int := -0x8000_0000

  /** Two's-complement wrap-around of an unchecked 32-bit `int` operation. */
  function Wrap32(x: int): (r: int)
    ensures IntMin <= r <= IntMax
    ensures (r - x) % 0x1_0000_0000 == 0
    ensures IntMin <= x <= IntMax ==> r == x
  {
    (x - IntMin) % 0x1_0000_0000 + IntMin
  }

  /** `x < 0 ? -x : x` with unchecked negation: the true absolute value on every int but int.MinValue. */
  function AbsAsWritten(x: int): (r: int)
    ensures IntMin <= x <= IntMax ==> IntMin <= r <= IntMax
    ensures IsNegatableInt(x) ==> r == Abs(x)
  {
    if x < 0 then Wrap32(-x) else x
  }

  /** int.MinValue is its own negation, so its "absolute value" stays negative. */
  lemma AbsOfIntMin()
    ensures AbsAsWritten(IntMin) == IntMin
    ensures forall x :: IsNegatableInt(x) ==> AbsAsWritten(x) == Abs(x)
  {
    assert Wrap32(-IntMin) == IntMin by {
      DivModUnique(-IntMin - IntMin, 0x1_0000_0000, 1, 0);
    }
  }

  /**
   * One pass of the subtractive loop, with unchecked subtraction. On two
   * positive ints nothing wraps: the pass is the exact subtraction of the
   * smaller from the larger, and first + second decreases.
   */
  function EuclidPassAsWritten(first: int, second: int): (r: (int, int))
    ensures IntMin <= first <= IntMax && IntMin <= second <= IntMax ==>
      IntMin <= r.0 <= IntMax && IntMin <= r.1 <= IntMax
    ensures 0 < first <= IntMax && 0 < second <= IntMax ==>
      r == (if first > second then (first - second, second) else (first, second - first))
    ensures 0 < first <= IntMax && 0 < second <= IntMax ==>
      0 <= r.0 && 0 <= r.1 && r.0 + r.1 < first + second
  {
    if first > second then (Wrap32(first - second), second) else (first, Wrap32(second - first))
  }

  /**
   * As written, Euclid on (int.MinValue, x) or (x, int.MinValue) with x != 0
   * and x != int.MinValue never returns: with s = |x|, the loop state goes
   * (MinValue, s) to (MinValue, s - 2^31) and back (likewise with the two
   * swapped), and first != second throughout. With x == 0 the early return
   * hands back int.MinValue itself.
   */
  lemma EuclidIntMinCycles(s: int)
    requires 0 < s <= IntMax
    ensures EuclidPassAsWritten(IntMin, s) == (IntMin, s + IntMin)
    ensures EuclidPassAsWritten(IntMin, s + IntMin) == (IntMin, s)
    ensures EuclidPassAsWritten(s, IntMin) == (s + IntMin, IntMin)
    ensures EuclidPassAsWritten(s + IntMin, IntMin) == (s, IntMin)
    ensures IntMin != s && IntMin != s + IntMin
  {
    assert Wrap32(s - IntMin) == s + IntMin by {
      DivModUnique(s - IntMin - IntMin, 0x1_0000_0000, 1, s);
    }
  }

  /** Arithmetic right shifts of a nonzero x until its low bit is set. */
  function StripTwos(x: int): (r: int)
    requires x != 0
    ensures r != 0 && r % 2 == 1
    ensures x > 0 ==> 0 < r <= x
    decreases Abs(x)
  {
    if x % 2 == 0 then StripTwos(x / 2) else x
  }

  /** -2^k, built by doubling so that its evenness is plain. */
  function NegPow2(k: nat): (r: int)
    ensures r < 0
    ensures r == -(Pow2(k) as int)
  {
    if k == 0 then -1 else 2 * NegPow2(k - 1)
  }

  /** Shifting -2^k right until it is odd leaves -1. */
  lemma {:induction false} StripTwosNegativePower(k: nat)
    ensures StripTwos(-(Pow2(k) as int)) == -1
  {
    StripTwosNegPow2(k);
  }

  lemma {:induction false} StripTwosNegPow2(k: nat)
    ensures StripTwos(NegPow2(k)) == -1
  {
    if k > 0 {
      StripTwosDouble(NegPow2(k - 1));
      StripTwosNegPow2(k - 1);
    }
  }

  lemma StripTwosDouble(h: int)
    requires h != 0
    ensures StripTwos(2 * h) == StripTwos(h)
  {
    assert (2 * h) % 2 == 0 && (2 * h) / 2 == h;
  }

  /**
   * One pass of the do-while of the binary algorithm, with unchecked
   * subtraction. An odd first stays odd. On positive ints nothing wraps:
   * the new first is the smaller of first and the odd part of second, and
   * the two new values add up to the larger one.
   */
  function SteinPassAsWritten(first: int, second: int): (r: (int, int))
    requires second != 0
    ensures IntMin <= r.1 <= IntMax
    ensures first % 2 == 1 ==> r.0 % 2 == 1
    ensures 0 < first <= IntMax && 0 < second <= IntMax ==>
      0 < r.0 && 0 <= r.1 &&
      r.0 + r.1 == (if first > StripTwos(second) then first else StripTwos(second))
  {
    var b := StripTwos(second);
    var (x, y) := if first > b then (b, first) else (first, b);
    (x, Wrap32(y - x))
  }

  /**
   * As written, the binary algorithm on (int.MinValue, 1) never returns:
   * the shift loop does not run (1 is odd), the halving loop takes
   * int.MinValue down to -1, and the do-while then goes from (-1, 1) to
   * (-1, 2) and stays there, second never reaching 0.
   */
  lemma SteinIntMinCycles()
    ensures !(AbsAsWritten(IntMin) % 2 == 0 && 1 % 2 == 0)
    ensures StripTwos(AbsAsWritten(IntMin)) == -1
    ensures SteinPassAsWritten(-1, 1) == (-1, 2)
    ensures SteinPassAsWritten(-1, 2) == (-1, 2)
  {
    AbsOfIntMin();
    StripTwosIntMin();
    assert StripTwos(2) == 1;
  }

  /**
   * As written, the binary algorithm on (int.MinValue, int.MaxValue) returns
   * -1: first is shifted down to -1, then `second -= first` wraps
   * int.MaxValue + 1 round to int.MinValue, which is shifted down to -1, and
   * the next subtraction gives 0. With the arguments the other way round,
   * the swap in the first pass leads to the same state. No shift was taken,
   * so `-1 << 0` is returned.
   */
  lemma SteinIntMinMaxValue()
    ensures StripTwos(AbsAsWritten(IntMin)) == -1 && StripTwos(IntMax) == IntMax
    ensures SteinPassAsWritten(-1, IntMax) == (-1, IntMin)
    ensures SteinPassAsWritten(IntMax, IntMin) == (-1, IntMin)
    ensures SteinPassAsWritten(-1, IntMin) == (-1, 0)
  {
    AbsOfIntMin();
    StripTwosIntMin();
    assert Wrap32(IntMax + 1) == IntMin by {
      DivModUnique(IntMax + 1 - IntMin, 0x1_0000_0000, 1, 0);
    }
  }

  lemma StripTwosIntMin()
    ensures StripTwos(IntMin) == -1
  {
    Pow2Of31();
    StripTwosNegativePower(31);
  }

  lemma Pow2Of31()
    ensures Pow2(31) == 0x8000_0000
  {
    assert Pow2(3) == 8;
    Pow2PlusFour(3); Pow2PlusFour(7); Pow2PlusFour(11); Pow2PlusFour(15);
    Pow2PlusFour(19); Pow2PlusFour(23); Pow2PlusFour(27);
  }

  lemma Pow2PlusFour(k: nat)
    ensures Pow2(k + 4) == 16 * Pow2(k)
  {
    assert Pow2(k + 4) == 2 * Pow2(k + 3);
    assert Pow2(k + 3) == 2 * Pow2(k + 2);
    assert Pow2(k + 2) == 2 * Pow2(k + 1);
  }
}
