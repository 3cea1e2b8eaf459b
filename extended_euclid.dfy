/**
 * The extended Euclidean algorithm of math/extended_euclid_algorithm.cpp:
 * from `a, b` it computes `gcd` and Bézout coefficients `x, y` with
 * `a * x + b * y == gcd`, once by recursion with back-substitution and once
 * by a loop that carries two coefficient pairs.  The C++ out-parameters
 * `gcd, x, y` become the fields of a `Bezout` triple.  Division is the C++
 * truncating division of `long long`, so the model covers negative inputs
 * too; `gcd` is then not normalised to be non-negative.
 */
module ExtendedEuclid {
  import opened CppArith

  datatype Bezout = Bezout(gcd: int, x: int, y: int)

  /** `d` divides `n`. */
  ghost predicate Divides(d: int, n: int) {
    exists k :: d * k == n
  }

  /** `extended_euclid_recursive`: stop when `b == 0`, otherwise recurse on
    * `(b, a % b)` and back-substitute the coefficients.  What it computes is
    * stated by the lemmas below (`BezoutIdentity`, `GcdDividesInputs`,
    * `CommonDivisorDividesGcd`, ...), which keeps evaluation on concrete
    * inputs cheap. */
  function ExtendedEuclidRecursive(a: int, b: int): Bezout
    decreases Abs(b)
  {
    if b == 0 then
      Bezout(a, 1, 0)
    else
      CRemProperties(a, b);
      BackSubstitute(ExtendedEuclidRecursive(b, CRem(a, b)), CDiv(a, b))
  }

  /** Bézout's identity for the returned triple: `a * x + b * y == gcd`. */
  lemma {:induction false} BezoutIdentity(a: int, b: int)
    ensures var r := ExtendedEuclidRecursive(a, b);
      a * r.x + b * r.y == r.gcd
    decreases Abs(b)
  {
    if b != 0 {
      CRemProperties(a, b);
      BezoutIdentity(b, CRem(a, b));
      var inner := ExtendedEuclidRecursive(b, CRem(a, b));
      BackSubstitution(a, b, CDiv(a, b), CRem(a, b), inner.x, inner.y, inner.gcd);
    }
  }

  /** The base case: for `b == 0` the triple is `(a, 1, 0)`. */
  lemma BaseCase(a: int)
    ensures ExtendedEuclidRecursive(a, 0) == Bezout(a, 1, 0)
  {
  }

  /** The back-substitution of `extended_euclid_recursive`: from the triple of
    * `(b, a % b)` and the quotient `q == a / b`, `x = y1, y = x1 - q * y1`. */
  function BackSubstitute(inner: Bezout, q: int): Bezout
  {
    Bezout(inner.gcd, inner.y, inner.x - q * inner.y)
  }

  /** The algebra behind the back-substitution step: a combination of `b` and
    * `a - q * b` is a combination of `a` and `b`. */
  lemma BackSubstitution(a: int, b: int, q: int, r: int, x1: int, y1: int, g: int)
    requires a == q * b + r
    requires b * x1 + r * y1 == g
    ensures a * y1 + b * (x1 - q * y1) == g
  {
    calc {
      a * y1 + b * (x1 - q * y1);
      (q * b + r) * y1 + b * x1 - b * (q * y1);
      { assert (q * b + r) * y1 == q * b * y1 + r * y1; }
      q * b * y1 + r * y1 + b * x1 - b * (q * y1);
      { assert q * b * y1 == b * (q * y1); }
      b * x1 + r * y1;
    }
  }

  /** `gcd` is zero exactly for the degenerate input `(0, 0)`: a non-zero
    * remainder sequence ends in a non-zero value. */
  lemma {:induction false} GcdZeroIff(a: int, b: int)
    ensures ExtendedEuclidRecursive(a, b).gcd == 0 <==> a == 0 && b == 0
    decreases Abs(b)
  {
    if b != 0 {
      CRemProperties(a, b);
      GcdZeroIff(b, CRem(a, b));
    }
  }

  /** On non-negative inputs every remainder is non-negative, and so is `gcd`. */
  lemma {:induction false} GcdNonNegative(a: int, b: int)
    requires a >= 0 && b >= 0
    ensures ExtendedEuclidRecursive(a, b).gcd >= 0
    decreases b
  {
    if b != 0 {
      CRemProperties(a, b);
      GcdNonNegative(b, CRem(a, b));
    }
  }

  /** Coefficient pairs `(x0, y0)`, `(x1, y1)` as the loop of
    * `extended_euclid_iterative` holds them, applied to the triple `rest` that
    * the remaining descent yields: the answer the loop will deliver. */
  function Apply(rest: Bezout, x0: int, y0: int, x1: int, y1: int): Bezout
  {
    Bezout(rest.gcd, x0 * rest.x + x1 * rest.y, y0 * rest.x + y1 * rest.y)
  }

  /** One iteration of the loop, which shifts the coefficient pairs by the
    * quotient `q`, does not change the answer it will deliver. */
  lemma ResumeStep(a: int, b: int, x0: int, y0: int, x1: int, y1: int)
    requires b != 0
    ensures var q := CDiv(a, b);
      Apply(ExtendedEuclidRecursive(a, b), x0, y0, x1, y1)
      == Apply(ExtendedEuclidRecursive(b, a - q * b), x1, y1, x0 - q * x1, y0 - q * y1)
  {
    var q := CDiv(a, b);
    var r := a - q * b;
    assert r == CRem(a, b);
    var inner := ExtendedEuclidRecursive(b, r);
    assert ExtendedEuclidRecursive(a, b) == BackSubstitute(inner, q);
    ApplyShift(inner, q, x0, y0, x1, y1);
  }

  /** Applying the pairs to a back-substituted triple is applying the shifted
    * pairs to the triple itself. */
  lemma ApplyShift(t: Bezout, q: int, x0: int, y0: int, x1: int, y1: int)
    ensures Apply(BackSubstitute(t, q), x0, y0, x1, y1) == Apply(t, x1, y1, x0 - q * x1, y0 - q * y1)
  {
    var u, v := t.x, t.y;
    Recombine(x0, x1, q, u, v);
    Recombine(y0, y1, q, u, v);
    assert BackSubstitute(t, q) == Bezout(t.gcd, v, u - q * v);
  }

  /** Weights `(c0, c1)` on the back-substituted pair `(v, u - q * v)` equal
    * the shifted weights `(c1, c0 - q * c1)` on the pair `(u, v)`. */
  lemma Recombine(c0: int, c1: int, q: int, u: int, v: int)
    ensures c0 * v + c1 * (u - q * v) == c1 * u + (c0 - q * c1) * v
  {
    assert c1 * (u - q * v) == c1 * u - c1 * (q * v);
    assert (c0 - q * c1) * v == c0 * v - (q * c1) * v;
    assert c1 * (q * v) == (q * c1) * v;
  }

  /** The sequence of quotients `a / b` the descent computes, first to last. */
  function Quotients(a: int, b: int): seq<int>
    decreases Abs(b)
  {
    if b == 0 then [] else CRemProperties(a, b); [CDiv(a, b)] + Quotients(b, CRem(a, b))
  }

  /** What the loop of `extended_euclid_iterative` keeps, for the original
    * inputs `(a, b)` and the working state `(a', b')`, `(x0, y0)`, `(x1, y1)`
    * with the quotients used so far: each working value is the combination
    * of the inputs weighted by its coefficient pair, the answer the loop will
    * deliver is the recursive one, and the quotients still to come are the
    * rest of the recursive descent's. */
  ghost predicate LoopInvariant(a: int, b: int, a': int, b': int,
                                x0: int, y0: int, x1: int, y1: int, quotients: seq<int>)
  {
    && a' == x0 * a + y0 * b
    && b' == x1 * a + y1 * b
    && ExtendedEuclidRecursive(a, b) == Apply(ExtendedEuclidRecursive(a', b'), x0, y0, x1, y1)
    && Quotients(a, b) == quotients + Quotients(a', b')
  }

  /** One iteration of the loop preserves `LoopInvariant`. */
  lemma LoopStep(a: int, b: int, a': int, b': int,
                 x0: int, y0: int, x1: int, y1: int, quotients: seq<int>)
    requires b' != 0
    requires LoopInvariant(a, b, a', b', x0, y0, x1, y1, quotients)
    ensures var q := CDiv(a', b');
      LoopInvariant(a, b, b', a' - q * b', x1, y1, x0 - q * x1, y0 - q * y1, quotients + [q])
  {
    var q := CDiv(a', b');
    var r := a' - q * b';
    assert r == CRem(a', b');
    ResumeStep(a', b', x0, y0, x1, y1);
    LinearStep(a, b, q, x0, y0, x1, y1);
    assert Quotients(a', b') == [q] + Quotients(b', r);
    assert quotients + Quotients(a', b') == (quotients + [q]) + Quotients(b', r);
  }

  /** The new working value `a - q * b` is the combination of the inputs
    * with the updated coefficients. */
  lemma LinearStep(a: int, b: int, q: int, x0: int, y0: int, x1: int, y1: int)
    ensures (x0 * a + y0 * b) - q * (x1 * a + y1 * b) == (x0 - q * x1) * a + (y0 - q * y1) * b
  {
    assert q * (x1 * a + y1 * b) == (q * x1) * a + (q * y1) * b;
  }

  /** `extended_euclid_iterative`.  The loop keeps `LoopInvariant`, so it
    * computes the same triple as `ExtendedEuclidRecursive`, satisfies
    * Bézout's identity and divides by the same quotients, which it returns in
    * the ghost `quotients`. */
  method ExtendedEuclidIterative(a: int, b: int) returns (gcd: int, x: int, y: int, ghost quotients: seq<int>)
    ensures a * x + b * y == gcd
    ensures Bezout(gcd, x, y) == ExtendedEuclidRecursive(a, b)
    ensures quotients == Quotients(a, b)
  {
    var a', b' := a, b;
    var x0, y0, x1, y1 := 1, 0, 0, 1;
    quotients := [];
    while b' != 0
      invariant LoopInvariant(a, b, a', b', x0, y0, x1, y1, quotients)
      decreases Abs(b')
    {
      var q, temp := CDiv(a', b'), b';
      CRemProperties(a', b');
      LoopStep(a, b, a', b', x0, y0, x1, y1, quotients);
      quotients := quotients + [q];
      b' := a' - q * b';
      a' := temp;

      temp := x1;
      x1 := x0 - q * x1;
      x0 := temp;

      temp := y1;
      y1 := y0 - q * y1;
      y0 := temp;
    }
    gcd, x, y := a', x0, y0;
  }

  /** A common divisor of `m` and `n` divides every integer combination of them. */
  lemma DividesCombination(d: int, m: int, n: int, s: int, t: int)
    requires Divides(d, m) && Divides(d, n)
    ensures Divides(d, m * s + n * t)
  {
    var k :| d * k == m;
    var l :| d * l == n;
    assert d * (k * s + l * t) == m * s + n * t by {
      assert d * (k * s + l * t) == (d * k) * s + (d * l) * t;
    }
  }

  /** The computed `gcd` divides both inputs.  The proof follows the descent:
    * a divisor of `b` and of `a % b` divides `a == (a / b) * b + a % b`. */
  lemma {:induction false} GcdDividesInputs(a: int, b: int)
    ensures Divides(ExtendedEuclidRecursive(a, b).gcd, a)
    ensures Divides(ExtendedEuclidRecursive(a, b).gcd, b)
    decreases Abs(b)
  {
    var g := ExtendedEuclidRecursive(a, b).gcd;
    if b == 0 {
      assert g * 1 == a && g * 0 == b;
    } else {
      CRemProperties(a, b);
      GcdDividesInputs(b, CRem(a, b));
      assert g == ExtendedEuclidRecursive(b, CRem(a, b)).gcd;
      DividesCombination(g, b, CRem(a, b), CDiv(a, b), 1);
      assert b * CDiv(a, b) + CRem(a, b) * 1 == a;
    }
  }

  /** Every common divisor of the inputs divides the computed `gcd`: by
    * Bézout's identity `gcd` is a combination of them. */
  lemma CommonDivisorDividesGcd(a: int, b: int, d: int)
    requires Divides(d, a) && Divides(d, b)
    ensures Divides(d, ExtendedEuclidRecursive(a, b).gcd)
  {
    var r := ExtendedEuclidRecursive(a, b);
    BezoutIdentity(a, b);
    DividesCombination(d, a, b, r.x, r.y);
  }

  /** For inputs that are not both zero, `|gcd|` is the greatest common
    * divisor: it divides both, and no common divisor exceeds it. */
  lemma GcdIsGreatest(a: int, b: int, d: int)
    requires a != 0 || b != 0
    requires Divides(d, a) && Divides(d, b)
    ensures Abs(d) <= Abs(ExtendedEuclidRecursive(a, b).gcd)
  {
    var g := ExtendedEuclidRecursive(a, b).gcd;
    CommonDivisorDividesGcd(a, b, d);
    GcdZeroIff(a, b);
    var k :| d * k == g;
    assert k != 0;
    MultipleBound(k, d);
  }

  /** Adding multiples of `m` does not change the Euclidean residue mod `m`. */
  lemma ModShift(n: int, m: int, k: int)
    requires m > 0
    ensures (n + m * k) % m == n % m
  {
    var s := n + m * k;
    assert s == (s / m) * m + s % m;
    assert n == (n / m) * m + n % m;
    assert s == (n / m + k) * m + n % m;
    NearRemaindersEqual(s / m, s % m, n / m + k, n % m, m, false);
  }

  /** Modular inverse, the use the file documents: when `gcd(A, M) == 1`, the
    * returned `x` satisfies `A * x ≡ 1 (mod M)`, with the congruence taken in
    * the mathematical sense (Dafny's `%` on a positive modulus). */
  lemma ModularInverse(A: int, M: int)
    requires M > 0
    requires ExtendedEuclidRecursive(A, M).gcd == 1
    ensures (A * ExtendedEuclidRecursive(A, M).x) % M == 1 % M
  {
    var r := ExtendedEuclidRecursive(A, M);
    BezoutIdentity(A, M);
    InverseFromBezout(A, M, r.x, r.y);
  }

  /** `A * x + M * y == 1` makes `x` an inverse of `A` modulo `M`. */
  lemma InverseFromBezout(A: int, M: int, x: int, y: int)
    requires M > 0
    requires A * x + M * y == 1
    ensures (A * x) % M == 1 % M
  {
    assert A * x == 1 + M * (-y);
    ModShift(1, M, -y);
  }

  /** The documentation's statement read with C++ `%`, which keeps the sign of
    * the dividend: for `(101, 23)` the returned `x` is `-5`, and
    * `(101 * -5) % 23` is `-22` in C++, not `1`. */
  lemma ModularInverseAsDocumented()
    ensures ExtendedEuclidRecursive(101, 23).gcd == 1
    ensures CRem(101 * ExtendedEuclidRecursive(101, 23).x, 23) == -22
  {
    Example101And23();
    assert CDiv(-505, 23) == -21;
  }

  /** The documented use fails a second way on a negative `A`: `-1` and `3`
    * are coprime, but the truncating descent returns `gcd == -1` with
    * `x == 1`, an inverse of `1` rather than of `-1`, and `(-1 * 1) mod 3`
    * is `2`. */
  lemma ModularInverseNegativeA()
    ensures ExtendedEuclidRecursive(-1, 3) == Bezout(-1, 1, 0)
  {
    assert ExtendedEuclidRecursive(3, -1) == Bezout(-1, 0, 1) by {
      Unfold(3, -1, -3, 0, Bezout(-1, 1, 0));
    }
    Unfold(-1, 3, 0, -1, Bezout(-1, 0, 1));
  }

  /** One step of the descent: if the triple of `(b, a - q * b)` is `inner`,
    * that of `(a, b)` is its back-substitution. */
  lemma Unfold(a: int, b: int, q: int, r: int, inner: Bezout)
    requires b != 0 && q == CDiv(a, b) && r == a - q * b
    requires ExtendedEuclidRecursive(b, r) == inner
    ensures ExtendedEuclidRecursive(a, b) == BackSubstitute(inner, q)
  {
  }

  /** The self-test input `(30, 20)`. */
  lemma Example30And20()
    ensures ExtendedEuclidRecursive(30, 20) == Bezout(10, 1, -1)
  {
  }

  /** The textbook extended Euclid over natural numbers, with mathematical
    * division and remainder.  It is an independent reference for the C++
    * descent, and being free of the sign case split of truncating division
    * it is also the cheaper one to evaluate on the worked examples. */
  function TextbookExtendedEuclid(a: nat, b: nat): Bezout
    decreases b
  {
    if b == 0 then Bezout(a, 1, 0)
    else
      var inner := TextbookExtendedEuclid(b, a % b);
      Bezout(inner.gcd, inner.y, inner.x - (a / b) * inner.y)
  }

  /** On non-negative inputs C++ division is mathematical division, so the
    * descent is the textbook algorithm step for step. */
  lemma {:induction false} AgreesWithTextbook(a: nat, b: nat)
    ensures ExtendedEuclidRecursive(a, b) == TextbookExtendedEuclid(a, b)
    decreases b
  {
    if b != 0 {
      CDivNonNegative(a, b);
      AgreesWithTextbook(b, a % b);
    }
  }

  /** The self-test input `(101, 23)`: quotients 4, 2, 1, 1, 4. */
  lemma Example101And23()
    ensures ExtendedEuclidRecursive(101, 23) == Bezout(1, -5, 22)
  {
    AgreesWithTextbook(101, 23);
    Textbook101And23();
  }

  /** The self-test input `(55, 34)`, consecutive Fibonacci numbers: every
    * quotient but the last is 1 and the coefficients are Fibonacci numbers
    * of alternating sign. */
  lemma Example55And34()
    ensures ExtendedEuclidRecursive(55, 34) == Bezout(1, 13, -21)
  {
    AgreesWithTextbook(55, 34);
    Textbook55And34();
  }

  // The textbook descent on the example inputs, evaluated by the verifier in
  // lemmas of their own (at most five steps each) where no call of the C++
  // descent on the same literals competes with it.

  lemma Textbook101And23()
    ensures TextbookExtendedEuclid(101, 23) == Bezout(1, -5, 22)
  {
  }

  lemma Textbook55And34()
    ensures TextbookExtendedEuclid(55, 34) == Bezout(1, 13, -21)
  {
    Textbook21And13();
  }

  lemma Textbook21And13()
    ensures TextbookExtendedEuclid(21, 13) == Bezout(1, 5, -8)
  {
    Textbook8And5();
  }

  lemma Textbook8And5()
    ensures TextbookExtendedEuclid(8, 5) == Bezout(1, 2, -3)
  {
  }

  /** A negative input: `gcd` keeps the sign the truncating descent leaves it
    * with and is not normalised. */
  lemma ExampleNegative()
    ensures ExtendedEuclidRecursive(-30, 20) == Bezout(-10, 1, 1)
  {
  }
}
