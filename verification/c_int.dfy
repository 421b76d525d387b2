/**
 The integer semantics of C that the other modules rely on, for a platform
 with a 32-bit `int`, an 8-bit `unsigned char` and a 64-bit `size_t`, as
 on LP64 platforms (ISO/IEC 9899:2011). A `size_t` other than `unsigned int`
 is what makes reading a `size_t` argument as an `int` undefined; with a
 `size_t` that is `unsigned int` the two are corresponding signed and unsigned
 types (section 6.2.5 paragraph 6) and such a read of a value below 2^31 is
 defined. Signed overflow is undefined behaviour in C, so the
 models never wrap: an operation whose result would leave `int32` carries a
 precondition instead.
 */
module CInt {

  const INT_MIN: int := -0x8000_0000
  const INT_MAX: int := 0x7FFF_FFFF
  const SIZE_MAX: int := 0xFFFF_FFFF_FFFF_FFFF

  /** True if `x` is representable as a C `int`. */
  predicate InInt32(x: int) {
    INT_MIN <= x <= INT_MAX
  }

  type int32 = x: int | INT_MIN <= x <= INT_MAX

  type size_t = x: int | 0 <= x <= SIZE_MAX

  type uchar = x: int | 0 <= x < 0x100

  function Abs(x: int): (r: nat)
    ensures r == x || r == -x
  {
    if x < 0 then -x else x
  }

  /**
   Conversion of an `int` to `unsigned char` (section 6.3.1.3 paragraph 2 of
   ISO/IEC 9899:2011), which is what `%c` prints: the value is reduced modulo
   256 into 0..255.
   */
  function ToUnsignedChar(v: int): (c: uchar)
    ensures (v - c) % 0x100 == 0
    ensures 0 <= v < 0x100 ==> c == v
  {
    v % 0x100
  }

  /**
   C's `/` on integers (section 6.5.5 paragraph 6 of ISO/IEC 9899:2011): the
   algebraic quotient with any fractional part discarded, i.e. truncated
   toward zero. Dafny's own `/` is Euclidean and differs for negative
   operands.
   */
  function Quot(a: int, b: int): (q: int)
    requires b != 0
    ensures Abs(q) <= Abs(a)
    ensures (q < 0 ==> (a < 0) != (b < 0)) && (q > 0 ==> (a < 0) == (b < 0))
  {
    var m: int := NatQuot(Abs(a), Abs(b));
    if (a < 0) == (b < 0) then m else -m
  }

  /** The quotient of two naturals, rounded down. */
  function NatQuot(n: nat, d: nat): (m: nat)
    requires d >= 1
    ensures m <= n
  {
    DivAtMost(n, d);
    n / d
  }

  /**
   The quotient Quot returns is the one C promises: `a - Quot(a, b) * b` is a
   remainder smaller than `b` in magnitude that is zero or has the sign of
   `a` (section 6.5.5 paragraph 6 of ISO/IEC 9899:2011).
   */
  lemma QuotRemainder(a: int, b: int)
    requires b != 0
    ensures Abs(a - Quot(a, b) * b) < Abs(b)
    ensures a - Quot(a, b) * b == 0 || (a - Quot(a, b) * b < 0 <==> a < 0)
  {
    var m := NatQuot(Abs(a), Abs(b));
    NatQuotRemainder(Abs(a), Abs(b));
    var r := Abs(a) - m * Abs(b);
    SignedProduct(m, b);
    // Quot(a, b) * b is m * Abs(b) when a >= 0 and its negation when a < 0,
    // which leaves the remainder r carrying the sign of a.
    assert Quot(a, b) * b == (if a < 0 then -(m * Abs(b)) else m * Abs(b));
    assert a - Quot(a, b) * b == (if a < 0 then -r else r);
  }

  /** The remainder of NatQuot is below the divisor. */
  lemma NatQuotRemainder(n: nat, d: nat)
    requires d >= 1
    ensures 0 <= n - NatQuot(n, d) * d < d
  {
    assert n == d * (n / d) + n % d;
  }

  /** `(m * b)` and `(-m) * b` in terms of `m * Abs(b)`. */
  lemma SignedProduct(m: int, b: int)
    ensures m * b == (if b < 0 then -(m * Abs(b)) else m * Abs(b))
    ensures (-m) * b == -(m * b)
  {
  }

  lemma DivAtMost(n: nat, d: nat)
    requires d >= 1
    ensures n / d <= n
  {
    var q := n / d;
    assert n == d * q + n % d;
    MulAtLeast(q, d, 1);
  }

  lemma DivHalves(n: nat, d: nat)
    requires d >= 2
    ensures n / d <= n / 2
  {
    var q := n / d;
    assert n == d * q + n % d;
    MulAtLeast(q, d, 2);
    assert q * 2 <= n;
  }

  /** Multiplying a natural number by at least `k` gives at least `k` times it. */
  lemma MulAtLeast(q: nat, d: nat, k: nat)
    requires d >= k
    ensures d * q >= k * q
  {
    assert d * q == k * q + (d - k) * q;
  }

  /**
   Among the int32 operands, the quotient overflows exactly for
   `INT_MIN / -1` (section 6.5.5 paragraph 6 of ISO/IEC 9899:2011 leaves
   that case undefined).
   */
  lemma QuotFits(a: int32, b: int32)
    requires b != 0
    ensures InInt32(Quot(a, b)) <==> !(a == INT_MIN && b == -1)
  {
    var q := Quot(a, b);
    var na: nat := Abs(a);
    var nb: nat := Abs(b);
    if a == INT_MIN && b == -1 {
      assert na / nb == na;
      assert q == -INT_MIN;
    } else if a == INT_MIN && b == 1 {
      assert na / nb == na;
      assert q == a;
    } else if a == INT_MIN {
      assert nb >= 2;
      DivHalves(na, nb);
      assert Abs(q) <= na / 2;
    } else {
      assert INT_MIN < a <= INT_MAX;
      assert na <= INT_MAX;
    }
  }

  /** The sign and magnitude of a product from those of its factors. */
  lemma ProductSign(a: int, b: int)
    ensures a * b == 0 <==> a == 0 || b == 0
    ensures Abs(a * b) == Abs(a) * Abs(b)
    ensures a * b < 0 <==> a * b != 0 && (a < 0) != (b < 0)
  {
    if a < 0 && b < 0 {
      assert a * b == (-a) * (-b);
    } else if a < 0 {
      assert a * b == -((-a) * b);
    } else if b < 0 {
      assert a * b == -(a * (-b));
    }
    if a != 0 && b != 0 {
      MulPositive(Abs(a), Abs(b));
    }
  }

  lemma MulPositive(a: nat, b: nat)
    requires a > 0 && b > 0
    ensures a * b > 0
  {
    assert a * b == (a - 1) * b + b;
  }
}
