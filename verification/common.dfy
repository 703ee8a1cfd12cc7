/** Small shared vocabulary: optional values for Java's NaN, results for
    Java's exceptions, and the integer operations the Java code relies on. */
module Common {

  /** `None` stands for a double that is NaN (or otherwise undefined). */
  datatype Option<T> = None | Some(value: T)

  /** `Failure` stands for an exception thrown by the Java code. */
  datatype Result<T, E> = Success(value: T) | Failure(error: E)

  /** Java's `Math.round` on a finite double: the nearest integer, ties upwards. */
  function Round(x: real): (r: int)
    ensures r as real - 0.5 <= x < r as real + 0.5
  {
    (x + 0.5).Floor
  }

  lemma RoundMonotone(x: real, y: real)
    requires x <= y
    ensures Round(x) <= Round(y)
  {
  }

  /** Java's `/` on `int`: the quotient truncated toward zero. */
  function JavaDiv(a: int, b: int): (q: int)
    requires b != 0
    ensures Abs(q) * Abs(b) <= Abs(a) < (Abs(q) + 1) * Abs(b)
    ensures q == 0 || (q > 0 <==> (a > 0) == (b > 0))
  {
    var m := Abs(a) / Abs(b);
    DivisionBounds(Abs(a), Abs(b), m);
    var q := if (a >= 0) == (b > 0) then m else -m;
    assert Abs(q) == m;
    q
  }

  /** Euclidean division of naturals brackets the dividend. */
  lemma DivisionBounds(x: nat, y: nat, m: int)
    requires y > 0 && m == x / y
    ensures Abs(m) * y <= x < (Abs(m) + 1) * y
  {
    assert x == m * y + x % y;
    assert (m + 1) * y == m * y + y;
  }

  /** For non-negative operands Java's truncating division is Dafny's `/`. */
  lemma JavaDivNonNegative(a: int, b: int)
    requires a >= 0 && b > 0
    ensures JavaDiv(a, b) == a / b
  {
  }

  /** A floating-point quotient x / y: `None` when y is 0, where Java gives
      an infinity or NaN. */
  function Quotient(x: real, y: real): (q: Option<real>)
    ensures q.Some? <==> y != 0.0
    ensures q.Some? ==> q.value * y == x
  {
    if y == 0.0 then None else Some(x / y)
  }

  function Abs(a: int): nat { if a >= 0 then a else -a }

  function MinInt(a: int, b: int): int { if a <= b then a else b }

  function MinReal(a: real, b: real): real { if a <= b then a else b }

  function MaxReal(a: real, b: real): real { if a >= b then a else b }

  /** A product of two non-negative integers is non-negative. */
  lemma MultiplyNonNegative(a: int, b: int)
    requires a >= 0 && b >= 0
    ensures a * b >= 0
  {
  }

  /** A product of two non-negative reals is non-negative. */
  lemma MultiplyNonNegativeReal(x: real, y: real)
    requires x >= 0.0 && y >= 0.0
    ensures x * y >= 0.0
  {
  }

  /** Multiplying by a non-negative factor keeps an inequality. */
  lemma MultiplyMonotone(x: real, y: real, f: real)
    requires x <= y && f >= 0.0
    ensures x * f <= y * f
  {
    MultiplyNonNegativeReal(y - x, f);
    assert (y - x) * f == y * f - x * f;
  }

  /** Scaling by a factor in [0, 1] does not grow a non-negative number. */
  lemma ScaleDown(x: real, f: real)
    requires x >= 0.0 && 0.0 <= f <= 1.0
    ensures 0.0 <= x * f <= x
  {
    MultiplyMonotone(f, 1.0, x);
    MultiplyNonNegativeReal(x, f);
  }

  /** The quotient y / z is the one number that z multiplies back to y. */
  lemma DivisionUnique(y: real, z: real, r: real)
    requires z != 0.0 && r * z == y
    ensures y / z == r
  {
  }

  lemma DivideSelf(t: real)
    requires t != 0.0
    ensures t / t == 1.0
  {
  }

  /** A quotient x / d with 0 < d and x ≤ d is at most 1, and exactly 1 when
      x = d. */
  lemma QuotientAtMostOne(x: real, d: real)
    requires x <= d && d > 0.0
    ensures x / d <= 1.0
    ensures x / d == 1.0 <==> x == d
  {
    var q := x / d;
    assert q * d == x;
    if q == 1.0 {
      assert x == 1.0 * d;
    }
  }
}
