/** Java's 32-bit `int` arithmetic, written out over Dafny's unbounded `int`.

    Dafny's `/` and `%` are Euclidean; Java's truncate toward zero. The
    functions here give the Java meaning explicitly so that the rest of the
    model can follow the source operator by operator.
 */
module JavaInt {

  const INT_MIN: int := -0x8000_0000
  const INT_MAX: int := 0x7fff_ffff
  /** Number of distinct `int` values, 2^32. */
  const MODULUS: int := 0x1_0000_0000

  /** `x` is a value of Java's `int` type. */
  predicate IsInt(x: int) {
    INT_MIN <= x <= INT_MAX
  }

  /** Two's complement wrap-around: the `int` a Java expression yields when the
      mathematical value `x` overflows. */
  function Wrap(x: int): (r: int)
    ensures IsInt(r)
    ensures IsInt(x) ==> r == x
    ensures (x - r) % MODULUS == 0
  {
    (x - INT_MIN) % MODULUS + INT_MIN
  }

  /** Two `int` values congruent modulo 2^32 are equal, so `Wrap` is the only
      `int` congruent to its argument. */
  lemma WrapUnique(x: int, r: int)
    requires IsInt(r)
    requires (x - r) % MODULUS == 0
    ensures Wrap(x) == r
  {
    var w := Wrap(x);
    var k1 := (x - r) / MODULUS;
    var k2 := (x - w) / MODULUS;
    assert w - r == (k1 - k2) * MODULUS;
  }

  /** Java's `a / b` for a positive divisor: the quotient truncated toward zero. */
  function JDiv(a: int, b: int): (q: int)
    requires b > 0
    ensures a >= 0 ==> q >= 0
    ensures a <= 0 ==> q <= 0
  {
    if a >= 0 then a / b else -((-a) / b)
  }

  /** Java's `a % b`: the remainder of truncating division, which takes the
      sign of the dividend. */
  function JRem(a: int, b: int): (m: int)
    requires b != 0
    ensures a >= 0 ==> 0 <= m < Abs(b)
    ensures a < 0 ==> -Abs(b) < m <= 0
  {
    if a >= 0 then a % Abs(b) else -((-a) % Abs(b))
  }

  function Abs(x: int): int {
    if x >= 0 then x else -x
  }

  /** Euclidean division is characterised by quotient and remainder. */
  lemma DivModUnique(a: int, b: int, q: int, m: int)
    requires b > 0 && 0 <= m < b && a == q * b + m
    ensures a / b == q && a % b == m
  {
    var q' := a / b;
    var m' := a % b;
    assert (q - q') * b == m' - m;
    if q - q' != 0 {
      MulAtLeast(q - q', b);
    }
  }

  /** A non-zero multiple of `b` is at least `b` away from zero. */
  lemma MulAtLeast(k: int, b: int)
    requires k != 0 && b > 0
    ensures k > 0 ==> k * b >= b
    ensures k < 0 ==> k * b <= -b
  {
    if k > 0 {
      MulNonNegative(k - 1, b);
      assert k * b == b + (k - 1) * b;
    } else {
      MulNonNegative(-k - 1, b);
      assert k * b == -b - (-k - 1) * b;
    }
  }

  lemma MulNonNegative(x: int, y: int)
    requires x >= 0 && y >= 0
    ensures x * y >= 0
  {
  }

  /** Multiplying by a non-negative factor preserves order. */
  lemma MulMonotone(k: int, x: int, y: int)
    requires k >= 0 && x <= y
    ensures k * x <= k * y
  {
    MulNonNegative(k, y - x);
  }

  function Pow2(n: nat): (r: nat)
    ensures r >= 1
  {
    if n == 0 then 1 else 2 * Pow2(n - 1)
  }
}
