/**
 * Exponentiation by squaring, as in math/binary_exponent.cpp: `base` raised
 * to `exponent` in a number of multiplications logarithmic in `exponent`,
 * once by recursion on `exponent / 2` and once by a loop over the bits of
 * the exponent.  `Pow` is the reference definition both are proved against.
 * Integers are unbounded: the `long long` overflow of the source is not
 * modelled.
 */
module BinaryExponent {
  import opened CppArith

  /** `base` multiplied by itself `e` times. */
  function Pow(base: int, e: nat): int
  {
    if e == 0 then 1 else base * Pow(base, e - 1)
  }

  lemma {:induction false} PowAdd(base: int, m: nat, n: nat)
    ensures Pow(base, m + n) == Pow(base, m) * Pow(base, n)
    decreases m
  {
    if m > 0 {
      PowAdd(base, m - 1, n);
      assert Pow(base, m + n) == base * Pow(base, (m - 1) + n);
    }
  }

  lemma {:induction false} PowProduct(a: int, b: int, n: nat)
    ensures Pow(a * b, n) == Pow(a, n) * Pow(b, n)
  {
    if n > 0 {
      PowProduct(a, b, n - 1);
      var pa, pb := Pow(a, n - 1), Pow(b, n - 1);
      calc {
        Pow(a * b, n);
        (a * b) * Pow(a * b, n - 1);
        (a * b) * (pa * pb);
        { Interchange(a, b, pa, pb); }
        (a * pa) * (b * pb);
        Pow(a, n) * Pow(b, n);
      }
    }
  }

  /** Regrouping a product of four factors. */
  lemma Interchange(a: int, b: int, c: int, d: int)
    ensures (a * b) * (c * d) == (a * c) * (b * d)
  {
    assert (a * b) * (c * d) == a * (b * (c * d));
    assert b * (c * d) == c * (b * d);
    assert a * (c * (b * d)) == (a * c) * (b * d);
  }

  /** Squaring the base doubles the exponent. */
  lemma PowSquare(base: int, n: nat)
    ensures Pow(base * base, n) == Pow(base, n) * Pow(base, n)
    ensures Pow(base * base, n) == Pow(base, 2 * n)
  {
    PowProduct(base, base, n);
    PowAdd(base, n, n);
  }

  /** The identity both versions rest on:
    * `base^e == (base^(e/2))^2`, times `base` when `e` is odd. */
  lemma PowHalving(base: int, e: nat)
    ensures var half := Pow(base, e / 2);
      Pow(base, e) == if e % 2 == 1 then half * half * base else half * half
  {
    var h := e / 2;
    PowAdd(base, h, h);
    if e % 2 == 1 {
      PowAdd(base, h + h, 1);
      assert Pow(base, 1) == base;
    }
  }

  /** `binary_exponent_recursive`.  C++ truncates `exponent / 2` toward zero,
    * so on a negative exponent the recursion also descends to `0` and the
    * result is `base` raised to the magnitude of `exponent`. */
  function BinaryExponentRecursive(base: int, exponent: int): (r: int)
    ensures r == Pow(base, Abs(exponent))
    decreases Abs(exponent)
  {
    if exponent == 0 then
      1
    else
      CDivCRemAbs(exponent, 2);
      var half := BinaryExponentRecursive(base, CDiv(exponent, 2));
      PowHalving(base, Abs(exponent));
      if CRem(exponent, 2) != 0 then half * half * base else half * half
  }

  /** Number of binary digits of `e`: how many times `e >>= 1` executes before `e`
    * reaches zero. */
  function BitLength(e: nat): nat
  {
    if e == 0 then 0 else 1 + BitLength(e / 2)
  }

  /** The loop iterates `⌊log2 e⌋ + 1` times:
    * `2^BitLength(e)` is the least power of two above `e`, that is
    * `e < 2^BitLength(e) <= 2 * e`. */
  lemma {:induction false} BitLengthIsLogarithm(e: nat)
    requires e > 0
    ensures BitLength(e) >= 1
    ensures e < Pow(2, BitLength(e)) <= 2 * e
  {
    if e == 1 {
      assert BitLength(e) == 1 + BitLength(0);
    } else {
      var h := e / 2;
      BitLengthIsLogarithm(h);
      var k := BitLength(h);
      assert BitLength(e) == k + 1;
      assert Pow(2, k + 1) == 2 * Pow(2, k);
      Doubling(e, Pow(2, k));
    }
  }

  /** Bounds `h < p <= 2 * h` on `h == e / 2` double to `e < 2 * p <= 2 * e`. */
  lemma Doubling(e: nat, p: int)
    requires e / 2 < p <= 2 * (e / 2)
    ensures e < 2 * p <= 2 * e
  {
  }

  /** `(x * y) * z == x * (z * y)`, stated on its own so that the solver
    * sees it apart from the surrounding `Pow` facts. */
  lemma Regroup(x: int, y: int, z: int)
    ensures (x * y) * z == x * (z * y)
  {
  }

  /** One iteration of the loop: multiply the accumulator by the running
    * square when the low bit is set, square, shift; the value
    * `res * b^e` still to be delivered is unchanged. */
  lemma IterationStep(res: int, b: int, e: nat)
    requires e > 0
    ensures (if e % 2 != 0 then res * b else res) * Pow(b * b, e / 2) == res * Pow(b, e)
  {
    var p := Pow(b, e / 2);
    PowSquare(b, e / 2);
    PowHalving(b, e);
    assert Pow(b * b, e / 2) == p * p;
    if e % 2 != 0 {
      assert Pow(b, e) == (p * p) * b;
      Regroup(res, b, p * p);
    } else {
      assert Pow(b, e) == p * p;
    }
  }

  /** `binary_exponent_iterative`.  The loop keeps `res * b^e == base^exponent`
    * and iterates once per bit of the exponent (counted in the ghost `steps`);
    * an exponent at or below zero never enters it and yields `1`. */
  method BinaryExponentIterative(base: int, exponent: int) returns (res: int, ghost steps: nat)
    ensures exponent >= 0 ==> res == Pow(base, exponent)
    ensures exponent >= 0 ==> res == BinaryExponentRecursive(base, exponent)
    ensures exponent <= 0 ==> res == 1
    ensures steps == if exponent > 0 then BitLength(exponent) else 0
  {
    var b, e := base, exponent;
    res := 1;
    steps := 0;
    while e > 0
      invariant exponent <= 0 ==> e == exponent && res == 1 && steps == 0
      invariant exponent > 0 ==> e >= 0 && res * Pow(b, e) == Pow(base, exponent)
      invariant exponent > 0 ==> e >= 0 && steps + BitLength(e) == BitLength(exponent)
      decreases e
    {
      IterationStep(res, b, e);
      if e % 2 != 0 {
        res := res * b;
      }
      b := b * b;
      // `exponent >>= 1` on a positive exponent is division by 2.
      e := e / 2;
      steps := steps + 1;
    }
  }

  /** The values the self-test prints next to its expectations; by the
    * contract of `BinaryExponentIterative` the loop delivers the same. */
  lemma TestValues()
    ensures BinaryExponentRecursive(2, 10) == 1024
    ensures BinaryExponentRecursive(3, 7) == 2187
    ensures BinaryExponentRecursive(4, 12) == 16777216
    ensures BinaryExponentRecursive(5, 15) == 30517578125
    ensures BinaryExponentRecursive(6, 20) == 3656158440062976
  {
    // The larger powers are assembled from fifth powers.
    assert Pow(5, 5) == 3125;
    PowAdd(5, 5, 5);
    PowAdd(5, 10, 5);
    assert Pow(6, 5) == 7776;
    PowAdd(6, 5, 5);
    PowAdd(6, 10, 10);
  }

  /** On a negative exponent the two versions part: the recursion returns
    * `base^|exponent|`, while the loop is never entered and yields `1`. */
  lemma NegativeExponent()
    ensures BinaryExponentRecursive(2, -3) == 8
  {
  }
}
