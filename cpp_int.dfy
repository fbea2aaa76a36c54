/**
 * Fixed-width C++ integers and the few pieces of C++ integer semantics that
 * the duration arithmetic relies on: integral conversions (which reduce
 * modulo 2^w), truncating division and remainder, and std::abs.
 */
module CppInt {

  const TWO_32: int := 0x1_0000_0000
  const TWO_64: int := 0x1_0000_0000_0000_0000

  const INT32_MIN: int := -0x8000_0000
  const INT32_MAX: int := 0x7fff_ffff
  const UINT32_MAX: int := 0xffff_ffff
  const INT64_MIN: int := -0x8000_0000_0000_0000
  const INT64_MAX: int := 0x7fff_ffff_ffff_ffff

  newtype int32 = x: int | -0x8000_0000 <= x < 0x8000_0000
  newtype uint32 = x: int | 0 <= x < 0x1_0000_0000
  newtype int64 = x: int | -0x8000_0000_0000_0000 <= x < 0x8000_0000_0000_0000
  newtype uint64 = x: int | 0 <= x < 0x1_0000_0000_0000_0000

  /** Conversion of any integer to uint32_t: the value congruent modulo 2^32. */
  function ToUint32(x: int): (r: uint32)
    ensures (r as int - x) % TWO_32 == 0
    ensures 0 <= x <= UINT32_MAX ==> r as int == x
  {
    (x % TWO_32) as uint32
  }

  /** Conversion of any integer to uint64_t: the value congruent modulo 2^64. */
  function ToUint64(x: int): (r: uint64)
    ensures (r as int - x) % TWO_64 == 0
    ensures 0 <= x < TWO_64 ==> r as int == x
  {
    (x % TWO_64) as uint64
  }

  /**
   * Conversion of any integer to int32_t. Two's complement wrap-around, as
   * C++20 requires and as gcc and clang do for earlier standards.
   */
  function ToInt32(x: int): (r: int32)
    ensures (r as int - x) % TWO_32 == 0
    ensures INT32_MIN <= x <= INT32_MAX ==> r as int == x
  {
    var m := x % TWO_32;
    (if m <= INT32_MAX then m else m - TWO_32) as int32
  }

  /** Conversion of any integer to int64_t, with the same wrap-around. */
  function ToInt64(x: int): (r: int64)
    ensures (r as int - x) % TWO_64 == 0
    ensures INT64_MIN <= x <= INT64_MAX ==> r as int == x
  {
    var m := x % TWO_64;
    (if m <= INT64_MAX then m else m - TWO_64) as int64
  }

  /** C++ `a / b` for a positive divisor: the quotient rounded toward zero. */
  function Quot(a: int, b: int): (q: int)
    requires b > 0
    ensures a >= 0 ==> 0 <= q * b <= a < q * b + b
    ensures a < 0 ==> q * b - b < a <= q * b <= 0
  {
    if a >= 0 then
      DivBounds(a, b);
      a / b
    else
      DivBounds(-a, b);
      -((-a) / b)
  }

  lemma DivBounds(a: nat, b: int)
    requires b > 0
    ensures 0 <= (a / b) * b <= a < (a / b) * b + b
  {
    assert a == (a / b) * b + a % b;
  }

  /** C++ `a % b` for a positive divisor: its sign follows the dividend. */
  function Rem(a: int, b: int): (r: int)
    requires b > 0
    ensures a == Quot(a, b) * b + r
    ensures a >= 0 ==> 0 <= r < b
    ensures a < 0 ==> -b < r <= 0
  {
    a - Quot(a, b) * b
  }

  /**
   * Truncating and floor division differ by one exactly when the truncated
   * remainder is negative; the floor remainder is then the truncated one plus
   * the divisor. (Dafny's `/` and `%` on int are floor division for b > 0.)
   */
  lemma {:induction false} QuotRemVersusFloor(a: int, b: int)
    requires b > 0
    ensures Rem(a, b) >= 0 ==> Quot(a, b) == a / b && Rem(a, b) == a % b
    ensures Rem(a, b) < 0 ==> Quot(a, b) - 1 == a / b && Rem(a, b) + b == a % b
  {
    var q, r := Quot(a, b), Rem(a, b);
    if r >= 0 {
      FloorUnique(a, b, q, r);
    } else {
      assert a == (q - 1) * b + (r + b);
      FloorUnique(a, b, q - 1, r + b);
    }
  }

  /** Floor division is the only split of `a` into a multiple of `b` and a remainder in [0, b). */
  lemma FloorUnique(a: int, b: int, q: int, r: int)
    requires b > 0 && a == q * b + r && 0 <= r < b
    ensures q == a / b && r == a % b
  {
    var q', r' := a / b, a % b;
    assert a == q' * b + r' && 0 <= r' < b;
    assert (q - q') * b == r' - r;
    if q > q' {
      MulAtLeast(q - q', b);
    } else if q < q' {
      MulAtLeast(q' - q, b);
    }
  }

  /** A positive multiple of `b` is at least `b`. */
  lemma MulAtLeast(k: int, b: int)
    requires k >= 1 && b > 0
    ensures k * b >= b
  {
    assert k * b == (k - 1) * b + b;
    assert (k - 1) * b >= 0;
  }

  /** std::abs on int64_t; the magnitude of INT64_MIN is not representable (undefined behaviour). */
  function Abs(x: int64): (r: int64)
    requires x as int > INT64_MIN
    ensures r >= 0 && (r == x || r as int == -(x as int))
  {
    if x < 0 then -x else x
  }
}
