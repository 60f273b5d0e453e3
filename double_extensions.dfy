/**
 * The bit formatters behind `ToBinary`: the biased exponent as 11 binary
 * digits, the fraction as 52 binary digits of its radix-2 expansion, and
 * the 64-character string sign + exponent + fraction, laid out as the
 * binary64 format of IEEE 754-2008 (section 3.4: 1 sign bit, an 11-bit
 * exponent field with bias 1023, a 52-bit trailing significand field).
 *
 * The sign, the biased exponent and the fraction are inputs here; how the
 * library derives them from a double is not part of this model.
 * A double's fraction is a `real`: doubling a binary64 value below 1 and
 * subtracting 1 from one in [1, 2) are exact, so the expansion loop
 * computes on reals exactly what it computes on doubles.
 */
module DoubleExtensions {

  import opened Powers

  const ExponentBitLength: nat := 11
  const FractionBitLength: nat := 52
  const ExponentBias: int := 1023

  /** Every character is a binary digit. */
  predicate IsBinary(s: string) {
    forall k :: 0 <= k < |s| ==> s[k] == '0' || s[k] == '1'
  }

  function BitChar(isSet: bool): char {
    if isSet then '1' else '0'
  }

  /** Bit i of n in two's complement (`(n >> i) & 1`). */
  function BitOf(n: int, i: nat): bool {
    (n / Pow2(i)) % 2 == 1
  }

  /** The number a string of binary digits denotes, most significant first. */
  function ValueMsbFirst(s: string): nat {
    if s == [] then 0
    else 2 * ValueMsbFirst(s[..|s| - 1]) + (if s[|s| - 1] == '1' then 1 else 0)
  }

  // -----------------------------------------------------------------------
  // Exponent field

  /** The low `width` bits of n, most significant first. */
  function BitsMsbFirst(n: int, width: nat): (s: string)
    ensures |s| == width && IsBinary(s)
    decreases width
  {
    if width == 0 then [] else BitsMsbFirst(n / 2, width - 1) + [BitChar(n % 2 == 1)]
  }

  /** Position width - 1 - i holds bit i. */
  lemma {:induction false} BitsMsbFirstAt(n: int, width: nat, i: nat)
    requires i < width
    ensures BitsMsbFirst(n, width)[width - 1 - i] == BitChar(BitOf(n, i))
    decreases width
  {
    if i > 0 {
      BitsMsbFirstAt(n / 2, width - 1, i - 1);
      DivNestedPow2(n, i - 1);
    }
  }

  /** Reading the digits back gives the low `width` bits of n. */
  lemma {:induction false} BitsMsbFirstValue(n: int, width: nat)
    ensures ValueMsbFirst(BitsMsbFirst(n, width)) == n % Pow2(width)
    decreases width
  {
    if width > 0 {
      var s := BitsMsbFirst(n, width);
      assert s[..width - 1] == BitsMsbFirst(n / 2, width - 1);
      BitsMsbFirstValue(n / 2, width - 1);
      ModPow2Succ(n, width - 1);
    }
  }

  /** Two numbers give the same digits exactly when their low `width` bits agree. */
  lemma BitsMsbFirstLowBits(n1: int, n2: int, width: nat)
    ensures BitsMsbFirst(n1, width) == BitsMsbFirst(n2, width) <==> n1 % Pow2(width) == n2 % Pow2(width)
  {
    BitsMsbFirstValue(n1, width);
    BitsMsbFirstValue(n2, width);
    if n1 % Pow2(width) == n2 % Pow2(width) {
      SameLowBits(n1, n2, width);
    }
  }

  lemma {:induction false} SameLowBits(n1: int, n2: int, width: nat)
    requires n1 % Pow2(width) == n2 % Pow2(width)
    ensures BitsMsbFirst(n1, width) == BitsMsbFirst(n2, width)
    decreases width
  {
    if width > 0 {
      ModPow2Succ(n1, width - 1);
      ModPow2Succ(n2, width - 1);
      SameLowBits(n1 / 2, n2 / 2, width - 1);
    }
  }

  /** `GetExponentBinaryRepresentation`: 11 digits, bit i of n at index 10 - i. */
  method ExponentBinary(number: int) returns (s: string)
    ensures s == BitsMsbFirst(number, ExponentBitLength)
    ensures |s| == 11 && IsBinary(s)
  {
    var bits := new char[ExponentBitLength];
    var n := number;
    for i := 0 to ExponentBitLength
      invariant n == number / Pow2(i)
      invariant forall j :: 0 <= j < i ==> bits[ExponentBitLength - 1 - j] == BitChar(BitOf(number, j))
    {
      if n % 2 == 1 {
        bits[ExponentBitLength - i - 1] := '1';
      } else {
        bits[ExponentBitLength - i - 1] := '0';
      }
      DivPow2Succ(number, i);
      n := n / 2;
    }
    s := bits[..];
    forall k | 0 <= k < ExponentBitLength
      ensures s[k] == BitsMsbFirst(number, ExponentBitLength)[k]
    {
      BitsMsbFirstAt(number, ExponentBitLength, ExponentBitLength - 1 - k);
    }
  }

  /** For a biased exponent in [0, 2047] the 11 digits read back as that exponent. */
  lemma ExponentFieldRoundTrip(e: int)
    requires 0 <= e < Pow2(ExponentBitLength)
    ensures ValueMsbFirst(BitsMsbFirst(e, ExponentBitLength)) == e
  {
    BitsMsbFirstValue(e, ExponentBitLength);
    DivModUnique(e, Pow2(ExponentBitLength), 0, e);
  }

  /** The zero (subnormal) exponent and the exponent of 1.0. */
  lemma ExponentFieldExamples()
    ensures BitsMsbFirst(0, ExponentBitLength) == "00000000000"
    ensures BitsMsbFirst(ExponentBias, ExponentBitLength) == "01111111111"
  {
  }

  // -----------------------------------------------------------------------
  // Fraction field

  /** The digit the expansion emits for running value x: is 2x at least 1? */
  function FractionDigit(x: real): char {
    if 2.0 * x < 1.0 then '0' else '1'
  }

  /** One step of the expansion: double, and drop the integer part 1 if present. */
  function ExpansionStep(x: real): real {
    if 2.0 * x < 1.0 then 2.0 * x else 2.0 * x - 1.0
  }

  /** The running value after k steps. */
  function Remainder(x: real, k: nat): real {
    if k == 0 then x else ExpansionStep(Remainder(x, k - 1))
  }

  /** The first `width` digits of the radix-2 expansion of x. */
  function FractionBits(x: real, width: nat): (s: string)
    ensures |s| == width && IsBinary(s)
  {
    if width == 0 then [] else FractionBits(x, width - 1) + [FractionDigit(Remainder(x, width - 1))]
  }

  /** A running value in [0, 1) stays in [0, 1). */
  lemma {:induction false} RemainderInUnitInterval(x: real, k: nat)
    requires 0.0 <= x < 1.0
    ensures 0.0 <= Remainder(x, k) < 1.0
  {
    if k > 0 {
      RemainderInUnitInterval(x, k - 1);
    }
  }

  /** x * 2^k, by doubling k times. */
  function Scale(x: real, k: nat): real {
    if k == 0 then x else 2.0 * Scale(x, k - 1)
  }

  /**
   * The expansion invariant, scaled by 2^k: after k steps,
   * x * 2^k == (the k digits read as an integer) + (the running value),
   * that is, x == sum of digit j * 2^-(j+1) for j < k, plus running * 2^-k.
   */
  lemma {:induction false} FractionExpansion(x: real, k: nat)
    ensures Scale(x, k) == ValueMsbFirst(FractionBits(x, k)) as real + Remainder(x, k)
  {
    if k > 0 {
      FractionExpansion(x, k - 1);
      var s := FractionBits(x, k);
      assert s[..k - 1] == FractionBits(x, k - 1);
    }
  }

  /** Scaling m / 2^k by 2^k gives back m. */
  lemma {:induction false} ScaleQuotient(m: real, k: nat)
    ensures Scale(m / (Pow2(k) as real), k) == m
    decreases k
  {
    if k > 0 {
      var p := Pow2(k - 1) as real;
      assert Pow2(k) as real == 2.0 * p;
      ScaleQuotient(m / 2.0, k - 1);
      HalfQuotient(m, p);
    }
  }

  lemma HalfQuotient(m: real, p: real)
    requires p > 0.0
    ensures m / (2.0 * p) == (m / 2.0) / p
  {
    var q := m / (2.0 * p);
    assert q * (2.0 * p) == m;
    assert (q * 2.0) * p == m;
  }

  /**
   * A fraction m * 2^-width with 0 <= m < 2^width is expanded exactly in
   * `width` digits: the final running value is 0, and the digits read as an
   * integer are m. Every fraction of a binary64 value has this form for
   * width 52.
   */
  lemma FractionBitsExact(m: nat, width: nat)
    requires m < Pow2(width)
    ensures Remainder(m as real / (Pow2(width) as real), width) == 0.0
    ensures ValueMsbFirst(FractionBits(m as real / (Pow2(width) as real), width)) == m
  {
    var x := m as real / (Pow2(width) as real);
    UnitFraction(m as real, Pow2(width) as real);
    ScaleQuotient(m as real, width);
    ExactWhenScaledIsInteger(x, m, width);
  }

  /** If x is in [0, 1) and x * 2^width is the integer m, the expansion ends exactly with digits m. */
  lemma ExactWhenScaledIsInteger(x: real, m: nat, width: nat)
    requires 0.0 <= x < 1.0 && Scale(x, width) == m as real
    ensures Remainder(x, width) == 0.0
    ensures ValueMsbFirst(FractionBits(x, width)) == m
  {
    RemainderInUnitInterval(x, width);
    FractionExpansion(x, width);
    var v := ValueMsbFirst(FractionBits(x, width));
    var rem := Remainder(x, width);
    assert (m - v) as real == rem;
  }

  /** 0 <= m < p gives 0 <= m / p < 1. */
  lemma UnitFraction(m: real, p: real)
    requires 0.0 <= m < p
    ensures 0.0 <= m / p < 1.0
  {
  }

  /** A zero fraction gives only '0' digits. */
  lemma {:induction false} FractionBitsOfZero(width: nat)
    ensures FractionBits(0.0, width) == seq(width, _ => '0')
  {
    if width > 0 {
      FractionBitsOfZero(width - 1);
      ZeroRemainder(width - 1);
    }
  }

  lemma {:induction false} ZeroRemainder(k: nat)
    ensures Remainder(0.0, k) == 0.0
  {
    if k > 0 {
      ZeroRemainder(k - 1);
    }
  }

  /** `GetFractionBinaryRepresentation`: the first 52 digits of the radix-2 expansion. */
  method FractionBinary(fraction: real) returns (s: string)
    ensures s == FractionBits(fraction, FractionBitLength)
    ensures |s| == 52 && IsBinary(s)
  {
    var bits := new char[FractionBitLength];
    var f := fraction;
    for i := 0 to bits.Length
      invariant f == Remainder(fraction, i)
      invariant bits[..i] == FractionBits(fraction, i)
    {
      f := f * 2.0;
      if f < 1.0 {
        bits[i] := '0';
      } else {
        bits[i] := '1';
        f := f - 1.0;
      }
      assert bits[..i + 1] == bits[..i] + [bits[i]];
    }
    s := bits[..];
  }

  // -----------------------------------------------------------------------
  // The whole string

  /** Sign digit, then the 11 exponent digits, then the 52 fraction digits. */
  function Binary64Image(negative: bool, exponent: int, fraction: real): (s: string)
    ensures |s| == 1 + ExponentBitLength + FractionBitLength && IsBinary(s)
  {
    [BitChar(negative)] + BitsMsbFirst(exponent, ExponentBitLength) + FractionBits(fraction, FractionBitLength)
  }

  /**
   * The assembly step of `ToBinary`: append the sign digit, the exponent
   * digits and the fraction digits to an initially empty builder.
   */
  method ToBinary(negative: bool, exponent: int, fraction: real) returns (s: string)
    ensures s == Binary64Image(negative, exponent, fraction)
    ensures |s| == 64 && IsBinary(s)
  {
    s := [];
    s := s + [BitChar(negative)];
    var exponentBits := ExponentBinary(exponent);
    s := s + exponentBits;
    var fractionBits := FractionBinary(fraction);
    s := s + fractionBits;
  }

  /** The three fields of a 64-digit string read back as sign, biased exponent and fraction integer. */
  function DecodeFields(s: string): (bool, nat, nat)
    requires |s| == 64
  {
    (s[0] == '1', ValueMsbFirst(s[1..12]), ValueMsbFirst(s[12..]))
  }

  /** The sign, exponent and fraction fields sit at positions 0, 1..11 and 12..63. */
  lemma ImageFields(negative: bool, exponent: int, fraction: real)
    ensures Binary64Image(negative, exponent, fraction)[0] == BitChar(negative)
    ensures Binary64Image(negative, exponent, fraction)[1..12] == BitsMsbFirst(exponent, ExponentBitLength)
    ensures Binary64Image(negative, exponent, fraction)[12..] == FractionBits(fraction, FractionBitLength)
  {
    var e, f := BitsMsbFirst(exponent, ExponentBitLength), FractionBits(fraction, FractionBitLength);
    var s := Binary64Image(negative, exponent, fraction);
    assert s == [BitChar(negative)] + e + f;
    assert s[1..12] == e;
    assert s[12..] == f;
  }

  /**
   * For a biased exponent in [0, 2047] and a fraction m * 2^-52, reading
   * the fields of the string back gives the sign, the exponent and m.
   */
  lemma Binary64RoundTrip(negative: bool, e: nat, m: nat)
    requires e < Pow2(ExponentBitLength) && m < Pow2(FractionBitLength)
    ensures DecodeFields(Binary64Image(negative, e, m as real / (Pow2(FractionBitLength) as real))) == (negative, e, m)
  {
    var x := m as real / (Pow2(FractionBitLength) as real);
    ImageFields(negative, e, x);
    ExponentFieldRoundTrip(e);
    FractionBitsExact(m, FractionBitLength);
  }

  /** +0.0, -0.0 and 1.0 from their fields: they differ only where the fields differ. */
  lemma Binary64Examples()
    ensures Binary64Image(false, 0, 0.0) == seq(64, _ => '0')
    ensures Binary64Image(true, 0, 0.0) == ['1'] + seq(63, _ => '0')
    ensures Binary64Image(false, ExponentBias, 0.0) == "0" + "01111111111" + seq(52, _ => '0')
  {
    ExponentFieldExamples();
    FractionBitsOfZero(FractionBitLength);
  }
}
