/**
 * The mathematics both GCD algorithms are measured against: divisibility on
 * natural numbers, a reference greatest common divisor defined by the
 * remainder recursion (a third algorithm, independent of the subtractive
 * and the binary one), and the facts about it that the two algorithms' loops
 * rely on. The central lemmas show that the reference Gcd is THE greatest
 * common divisor: it divides both arguments and every common divisor
 * divides it.
 */
module GcdMath {

  import Powers

  /** d divides n: n is an integer multiple of d. */
  ghost predicate Divides(d: nat, n: nat) {
    exists k: int :: d * k == n
  }

  /** g is a greatest common divisor of a and b (in the divisibility order). */
  ghost predicate IsGcd(g: nat, a: nat, b: nat) {
    Divides(g, a) && Divides(g, b) &&
    forall d: nat :: Divides(d, a) && Divides(d, b) ==> Divides(d, g)
  }

  /** Remainder of a by a positive b, by repeated subtraction. */
  function Rem(a: nat, b: nat): (r: nat)
    requires b > 0
    ensures r < b
    decreases a
  {
    if a < b then a else Rem(a - b, b)
  }

  /** Reference greatest common divisor, by the remainder recursion. */
  function Gcd(a: nat, b: nat): nat
    decreases b
  {
    if b == 0 then a else Gcd(b, Rem(a, b))
  }

  // ---------------------------------------------------------------------
  // Divisibility

  lemma DividesReflexive(n: nat)
    ensures Divides(n, n)
  {
    assert n * 1 == n;
  }

  lemma DividesZero(d: nat)
    ensures Divides(d, 0)
  {
    assert d * 0 == 0;
  }

  lemma DividesSum(d: nat, a: nat, b: nat)
    requires Divides(d, a) && Divides(d, b)
    ensures Divides(d, a + b)
  {
    var ka :| d * ka == a;
    var kb :| d * kb == b;
    assert d * (ka + kb) == a + b;
  }

  lemma DividesDifference(d: nat, a: nat, b: nat)
    requires b <= a && Divides(d, a) && Divides(d, b)
    ensures Divides(d, a - b)
  {
    var ka :| d * ka == a;
    var kb :| d * kb == b;
    assert d * (ka - kb) == a - b;
  }

  lemma DividesMultiple(d: nat, a: nat, c: nat)
    requires Divides(d, a)
    ensures Divides(d, a * c)
  {
    var k :| d * k == a;
    assert d * (k * c) == a * c;
  }

  lemma DividesTransitive(a: nat, b: nat, c: nat)
    requires Divides(a, b) && Divides(b, c)
    ensures Divides(a, c)
  {
    var k :| a * k == b;
    var j :| b * j == c;
    assert a * (k * j) == c;
  }

  /** A divisor of a positive number is no larger than it. */
  lemma DividesBound(d: nat, n: nat)
    requires n > 0 && Divides(d, n)
    ensures d <= n
  {
    var k :| d * k == n;
    assert d * k == d * (k - 1) + d;
    assert d * (k - 1) >= 0;
  }

  lemma DividesAntisymmetric(a: nat, b: nat)
    requires Divides(a, b) && Divides(b, a)
    ensures a == b
  {
    var k :| a * k == b;
    var j :| b * j == a;
    if a == 0 {
      assert b == 0;
    } else if b != 0 {
      DividesBound(a, b);
      DividesBound(b, a);
    }
  }

  /** Every divisor of an odd number is odd. */
  lemma OddDivisor(d: nat, n: nat)
    requires n % 2 == 1 && Divides(d, n)
    ensures d % 2 == 1
  {
    var k :| d * k == n;
    var t, e := d / 2, d % 2;
    assert n == 2 * (t * k) + e * k;
  }

  /** An odd number that divides 2b divides b. */
  lemma OddDividesDouble(d: nat, b: nat)
    requires d % 2 == 1 && Divides(d, 2 * b)
    ensures Divides(d, b)
  {
    var k :| d * k == 2 * b;
    var s, u, f := d / 2, k / 2, k % 2;
    assert d * k == 2 * (2 * s * u + s * f + u) + f;
    assert f == 0;
    assert d * k == 2 * (d * u);
  }

  /** Rem is the Euclidean remainder. */
  lemma {:induction false} RemIsMod(a: nat, b: nat)
    requires b > 0
    ensures Rem(a, b) == a % b
    decreases a
  {
    if a >= b {
      RemIsMod(a - b, b);
      Powers.DivModUnique(a, b, (a - b) / b + 1, (a - b) % b);
    }
  }

  // ---------------------------------------------------------------------
  // Gcd is the greatest common divisor

  lemma {:induction false} GcdDividesBoth(a: nat, b: nat)
    ensures Divides(Gcd(a, b), a) && Divides(Gcd(a, b), b)
    decreases b
  {
    var g := Gcd(a, b);
    if b == 0 {
      DividesReflexive(a);
      DividesZero(a);
    } else {
      GcdDividesBoth(b, Rem(a, b));
      RemIsMod(a, b);
      assert a == b * (a / b) + a % b;
      DividesMultiple(g, b, a / b);
      DividesSum(g, b * (a / b), a % b);
    }
  }

  lemma {:induction false} GcdGreatest(a: nat, b: nat, d: nat)
    requires Divides(d, a) && Divides(d, b)
    ensures Divides(d, Gcd(a, b))
    decreases b
  {
    if b > 0 {
      RemIsMod(a, b);
      assert a == b * (a / b) + a % b;
      DividesMultiple(d, b, a / b);
      DividesDifference(d, a, b * (a / b));
      GcdGreatest(b, Rem(a, b), d);
    }
  }

  lemma GcdIsGcd(a: nat, b: nat)
    ensures IsGcd(Gcd(a, b), a, b)
  {
    GcdDividesBoth(a, b);
    forall d: nat | Divides(d, a) && Divides(d, b)
      ensures Divides(d, Gcd(a, b))
    {
      GcdGreatest(a, b, d);
    }
  }

  /** A greatest common divisor is unique: any g with the property is Gcd(a, b). */
  lemma GcdUnique(g: nat, a: nat, b: nat)
    requires IsGcd(g, a, b)
    ensures g == Gcd(a, b)
  {
    GcdDividesBoth(a, b);
    GcdGreatest(a, b, g);
    DividesAntisymmetric(g, Gcd(a, b));
  }

  // ---------------------------------------------------------------------
  // The facts the algorithms' loops rely on

  /** One step of the remainder recursion, with the remainder written as `%`. */
  lemma GcdStep(a: nat, b: nat)
    requires b > 0
    ensures Gcd(a, b) == Gcd(b, a % b)
  {
    RemIsMod(a, b);
  }

  lemma GcdCommutative(a: nat, b: nat)
    ensures Gcd(a, b) == Gcd(b, a)
  {
    GcdIsGcd(b, a);
    GcdUnique(Gcd(b, a), a, b);
  }

  /** gcd(a, 0) == a and gcd(0, b) == b. */
  lemma GcdWithZero(a: nat)
    ensures Gcd(a, 0) == a && Gcd(0, a) == a
  {
    GcdCommutative(0, a);
  }

  /** Subtracting the smaller argument from the larger keeps the gcd. */
  lemma GcdSubtract(a: nat, b: nat)
    requires b <= a
    ensures Gcd(a - b, b) == Gcd(a, b)
  {
    var g := Gcd(a - b, b);
    GcdDividesBoth(a - b, b);
    DividesSum(g, a - b, b);
    forall d: nat | Divides(d, a) && Divides(d, b)
      ensures Divides(d, g)
    {
      DividesDifference(d, a, b);
      GcdGreatest(a - b, b, d);
    }
    GcdUnique(g, a, b);
  }

  /** Doubling both arguments doubles the remainder. */
  lemma {:induction false} RemDouble(a: nat, b: nat)
    requires b > 0
    ensures Rem(2 * a, 2 * b) == 2 * Rem(a, b)
    decreases a
  {
    if a >= b {
      RemDouble(a - b, b);
      assert 2 * a - 2 * b == 2 * (a - b);
    }
  }

  /** A common factor of two comes out of the gcd: gcd(2a, 2b) == 2 gcd(a, b). */
  lemma {:induction false} GcdDouble(a: nat, b: nat)
    ensures Gcd(2 * a, 2 * b) == 2 * Gcd(a, b)
    decreases b
  {
    if b > 0 {
      RemDouble(a, b);
      GcdDouble(b, Rem(a, b));
    }
  }

  /** A factor of two in one argument does not matter when the other is odd. */
  lemma GcdHalve(a: nat, b: nat)
    requires a % 2 == 1
    ensures Gcd(a, 2 * b) == Gcd(a, b)
  {
    var g := Gcd(a, b);
    GcdDividesBoth(a, b);
    DividesSum(g, b, b);
    forall d: nat | Divides(d, a) && Divides(d, 2 * b)
      ensures Divides(d, g)
    {
      OddDivisor(d, a);
      OddDividesDouble(d, b);
      GcdGreatest(a, b, d);
    }
    GcdUnique(g, a, 2 * b);
  }

  /** Subtracting the smaller first argument from the second keeps the gcd. */
  lemma GcdSubtractFromSecond(a: nat, b: nat)
    requires a <= b
    ensures Gcd(a, b - a) == Gcd(a, b)
  {
    GcdSubtract(b, a);
    GcdCommutative(b - a, a);
    GcdCommutative(b, a);
  }

  /** Halving an even second argument keeps the gcd with an odd first one. */
  lemma GcdHalveSecond(a: nat, b: nat)
    requires a % 2 == 1 && b % 2 == 0
    ensures Gcd(a, b / 2) == Gcd(a, b)
  {
    GcdHalve(a, b / 2);
    assert 2 * (b / 2) == b;
  }

  /** Halving an even first argument keeps the gcd with an odd second one. */
  lemma GcdHalveFirst(a: nat, b: nat)
    requires a % 2 == 0 && b % 2 == 1
    ensures Gcd(a / 2, b) == Gcd(a, b)
  {
    GcdHalveSecond(b, a);
    GcdCommutative(a / 2, b);
    GcdCommutative(a, b);
  }

  /** Halving two even arguments halves the gcd. */
  lemma GcdHalveBoth(a: nat, b: nat)
    requires a % 2 == 0 && b % 2 == 0
    ensures Gcd(a, b) == 2 * Gcd(a / 2, b / 2)
  {
    GcdDouble(a / 2, b / 2);
    assert 2 * (a / 2) == a && 2 * (b / 2) == b;
  }

  /** The gcd of two numbers that are not both zero is positive and no larger than either nonzero one. */
  lemma GcdBounds(a: nat, b: nat)
    ensures Gcd(a, b) == 0 <==> a == 0 && b == 0
    ensures a > 0 ==> Gcd(a, b) <= a
    ensures b > 0 ==> Gcd(a, b) <= b
  {
    GcdDividesBoth(a, b);
    var g := Gcd(a, b);
    if g == 0 {
      var k :| g * k == a;
      var j :| g * j == b;
    }
    if a > 0 { DividesBound(g, a); }
    if b > 0 { DividesBound(g, b); }
  }
}
