/**
 * Integer division as C++ defines it on `long long`: the quotient is
 * truncated toward zero and the remainder takes the sign of the dividend,
 * so that `(a / b) * b + a % b == a`.  Dafny's own `/` and `%` on `int`
 * are Euclidean (the remainder is never negative), so the two differ as
 * soon as an operand is negative; both algorithms of this model use the
 * functions below wherever the source writes `/` or `%`.
 */
module CppArith {

  function Abs(n: int): nat
  {
    if n < 0 then -n else n
  }

  /** C++ `a / b`: the algebraic quotient with any fractional part discarded. */
  function CDiv(a: int, b: int): int
    requires b != 0
  {
    // For a non-negative dividend the Euclidean remainder is non-negative,
    // as C++ also demands, so the two quotients coincide.
    if a >= 0 then a / b else -((-a) / b)
  }

  /** C++ `a % b`, defined through the identity `(a / b) * b + a % b == a`. */
  function CRem(a: int, b: int): int
    requires b != 0
  {
    a - CDiv(a, b) * b
  }

  /** What C++ promises of `/` and `%`: the division identity, a remainder
    * smaller than the divisor in magnitude, and a remainder that is zero or
    * has the sign of the dividend.  This is also why the Euclidean descent
    * terminates: the new second operand `a % b` is smaller than `b` in
    * absolute value. */
  lemma CRemProperties(a: int, b: int)
    requires b != 0
    ensures CDiv(a, b) * b + CRem(a, b) == a
    ensures Abs(CRem(a, b)) < Abs(b)
    ensures CRem(a, b) == 0 || (CRem(a, b) < 0 <==> a < 0)
  {
    if a < 0 {
      var n := -a;
      assert n == (n / b) * b + n % b;
      assert CRem(a, b) == -(n % b);
    } else {
      assert a == (a / b) * b + a % b;
      assert CRem(a, b) == a % b;
    }
  }

  /** For a positive divisor, the magnitudes of the truncating quotient and
    * remainder are those of the Euclidean division of the magnitudes. */
  lemma CDivCRemAbs(a: int, b: int)
    requires b > 0
    ensures Abs(CDiv(a, b)) == Abs(a) / b
    ensures Abs(CRem(a, b)) == Abs(a) % b
  {
    var n := Abs(a);
    var q, r := n / b, n % b;
    assert n == q * b + r && q >= 0 && 0 <= r < b;
    if a < 0 {
      assert CDiv(a, b) == -q;
      assert CRem(a, b) == -r by {
        assert CRem(a, b) == a + q * b;
      }
    } else {
      assert CDiv(a, b) == q;
      assert CRem(a, b) == r;
    }
  }

  /** The truncating quotient is the only one whose remainder satisfies the
    * C++ rules, so `CDiv` is exactly the operator C++ specifies. */
  lemma {:induction false} CDivUnique(a: int, b: int, q: int, r: int)
    requires b != 0
    requires a == q * b + r
    requires Abs(r) < Abs(b)
    requires r == 0 || (r < 0 <==> a < 0)
    ensures q == CDiv(a, b) && r == CRem(a, b)
  {
    CRemProperties(a, b);
    var q', r' := CDiv(a, b), CRem(a, b);
    assert q * b + r == q' * b + r';
    NearRemaindersEqual(q, r, q', r', b, a < 0);
  }

  /** Two divisions `q * b + r == q' * b + r'` whose remainders lie on the
    * same side of zero and below |b| are the same division. */
  lemma NearRemaindersEqual(q: int, r: int, q': int, r': int, b: int, negative: bool)
    requires b != 0
    requires q * b + r == q' * b + r'
    requires Abs(r) < Abs(b) && Abs(r') < Abs(b)
    requires if negative then r <= 0 && r' <= 0 else r >= 0 && r' >= 0
    ensures q == q' && r == r'
  {
    var d := q - q';
    assert d * b == r' - r by {
      assert d * b == q * b - q' * b;
    }
    if d != 0 {
      MultipleBound(d, b);
      assert false;
    }
  }

  /** A non-zero multiple of b is at least |b| in magnitude. */
  lemma MultipleBound(k: int, b: int)
    requires k != 0
    ensures Abs(k * b) >= Abs(b)
  {
    if k > 0 {
      if b >= 0 { assert k * b >= b; } else { assert k * b <= b; }
    } else {
      if b >= 0 { assert k * b <= -b; } else { assert k * b >= -b; }
    }
  }

  /** On a non-negative dividend and a positive divisor C++ and Dafny agree. */
  lemma CDivNonNegative(a: int, b: int)
    requires a >= 0 && b > 0
    ensures CDiv(a, b) == a / b && CRem(a, b) == a % b
  {
  }
}
