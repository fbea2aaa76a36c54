/**
 * rclcpp::Duration: a signed 64-bit count of nanoseconds (the
 * `nanoseconds` field of an rcl_duration_t) with conversions to and from the
 * builtin_interfaces/msg/Duration message and rmw_time_t, comparisons, and
 * addition and subtraction guarded against int64 overflow.
 *
 * The C++ class is a value type whose constructors and assignments write its
 * one field, so it is a datatype here and every operation is a function.
 */
module Durations {
  import opened CppInt

  /** RCL_S_TO_NS(1): nanoseconds per second. */
  const NS_PER_S: int := 1_000_000_000

  /** builtin_interfaces/msg/Duration: whole seconds and a nanosecond part. */
  datatype DurationMsg = DurationMsg(sec: int32, nanosec: uint32)

  /** rmw_time_t: seconds and nanoseconds, both unsigned 64-bit. */
  datatype RmwTime = RmwTime(sec: uint64, nsec: uint64)

  datatype Duration = Duration(ns: int64)

  /** The std::overflow_error and std::underflow_error thrown by + and -. */
  datatype ArithError = Overflow | Underflow

  /** Outcome of a bounds_check_duration_* guard: return normally or throw. */
  datatype BoundsCheck = Pass | Throw(error: ArithError)

  /** A Duration, or the exception that an operator raised instead. */
  datatype Result = Ok(value: Duration) | Err(error: ArithError)

  /**
   * Duration(int32_t seconds, uint32_t nanoseconds): seconds are scaled in
   * int64 and the nanoseconds added as they are, without normalizing a
   * nanosecond part of a second or more. Neither step can overflow int64.
   */
  function FromSecNsec(seconds: int32, nanoseconds: uint32): (d: Duration)
    ensures d.ns as int == seconds as int * NS_PER_S + nanoseconds as int
    ensures INT32_MIN * NS_PER_S <= d.ns as int <= INT32_MAX * NS_PER_S + UINT32_MAX
  {
    var scaled: int64 := (seconds as int * NS_PER_S) as int64;
    Duration((scaled as int + nanoseconds as int) as int64)
  }

  /** Duration(int64_t nanoseconds): stores the count unchanged. */
  function FromNanoseconds(nanoseconds: int64): (d: Duration)
    ensures d.ns == nanoseconds
  {
    Duration(nanoseconds)
  }

  /** Duration::nanoseconds(): the stored count, from which Duration(int64_t) rebuilds the value. */
  function Nanoseconds(d: Duration): (ns: int64)
    ensures FromNanoseconds(ns) == d
  {
    d.ns
  }

  /**
   * Duration(const builtin_interfaces::msg::Duration &). The seconds are cast
   * to uint64_t first, so the product is unsigned and reduced modulo 2^64
   * before it is stored in the int64 field; for every int32 this wraps back
   * to the signed product.
   */
  function FromMsg(msg: DurationMsg): (d: Duration)
    ensures d.ns as int == msg.sec as int * NS_PER_S + msg.nanosec as int
  {
    var unsignedSec := ToUint64(msg.sec as int);
    var unsignedProduct := ToUint64(unsignedSec as int * NS_PER_S);
    var scaled := ToInt64(unsignedProduct as int);
    UnsignedScaleIsExact(msg.sec);
    Duration((scaled as int + msg.nanosec as int) as int64)
  }

  /** The unsigned scaling in FromMsg agrees with signed scaling for every int32. */
  lemma UnsignedScaleIsExact(sec: int32)
    ensures ToInt64(ToUint64(ToUint64(sec as int) as int * NS_PER_S) as int) as int
            == sec as int * NS_PER_S
  {
    var s := sec as int;
    if s < 0 {
      assert ToUint64(s) as int == s + TWO_64;
      var p := (s + TWO_64) * NS_PER_S;
      assert p == s * NS_PER_S + TWO_64 * NS_PER_S;
      ModShift(s * NS_PER_S, NS_PER_S);
      assert p % TWO_64 == (s * NS_PER_S) % TWO_64;
      assert (s * NS_PER_S) % TWO_64 == s * NS_PER_S + TWO_64;
    }
  }

  /** Adding a multiple of 2^64 does not change the residue. */
  lemma ModShift(x: int, k: nat)
    ensures (x + TWO_64 * k) % TWO_64 == x % TWO_64
  {
    if k > 0 {
      ModShift(x, k - 1);
      assert x + TWO_64 * k == (x + TWO_64 * (k - 1)) + TWO_64;
    }
  }

  /**
   * Duration::operator=(const builtin_interfaces::msg::Duration &): the same
   * two steps as the (seconds, nanoseconds) constructor, on signed seconds.
   * It stores what the message constructor stores.
   */
  function AssignMsg(msg: DurationMsg): (d: Duration)
    ensures d == FromMsg(msg)
  {
    FromSecNsec(msg.sec, msg.nanosec)
  }

  /**
   * operator builtin_interfaces::msg::Duration(): truncating quotient and
   * remainder by 10^9, cast to int32_t and uint32_t respectively. Neither cast
   * is checked, so both may wrap. A negative Duration with a fractional part
   * has a negative remainder, which the uint32_t cast moves up by 2^32.
   */
  function ToMsg(d: Duration): (msg: DurationMsg)
    ensures d.ns >= 0 ==> msg.nanosec as int == d.ns as int % NS_PER_S < NS_PER_S
    ensures 0 <= d.ns as int <= INT32_MAX * NS_PER_S + (NS_PER_S - 1) ==> msg.sec as int == d.ns as int / NS_PER_S
    ensures MSG_MIN_NS <= d.ns as int < 0 ==> msg.sec as int == Quot(d.ns as int, NS_PER_S)
    ensures d.ns < 0 && Rem(d.ns as int, NS_PER_S) != 0 ==>
              msg.nanosec as int == Rem(d.ns as int, NS_PER_S) + TWO_32 >= TWO_32 - NS_PER_S + 1
    ensures d.ns < 0 && Rem(d.ns as int, NS_PER_S) == 0 ==> msg.nanosec == 0
    ensures (msg.sec as int - Quot(d.ns as int, NS_PER_S)) % TWO_32 == 0
    ensures msg.sec as int == Quot(d.ns as int, NS_PER_S) <==> INT32_MIN <= Quot(d.ns as int, NS_PER_S) <= INT32_MAX
    ensures d.ns as int > INT32_MAX * NS_PER_S + (NS_PER_S - 1) ==> msg.sec as int != Quot(d.ns as int, NS_PER_S)
  {
    DurationMsg(ToInt32(Quot(d.ns as int, NS_PER_S)), ToUint32(Rem(d.ns as int, NS_PER_S)))
  }

  /**
   * Duration::to_rmw_time(): the message conversion, with each field copied
   * into an unsigned 64-bit field.
   */
  function ToRmwTime(d: Duration): (t: RmwTime)
    ensures t.nsec as int == ToMsg(d).nanosec as int
    ensures ToMsg(d).sec >= 0 ==> t.sec as int == ToMsg(d).sec as int
    ensures ToMsg(d).sec < 0 ==> t.sec as int == TWO_64 + ToMsg(d).sec as int
  {
    var msg := ToMsg(d);
    RmwTime(ToUint64(msg.sec as int), ToUint64(msg.nanosec as int))
  }

  /** Nanoseconds in INT32_MIN whole seconds: the least value a normalized message holds. */
  const MSG_MIN_NS: int := INT32_MIN * NS_PER_S

  /** Duration::max(): INT32_MAX seconds and 999999999 nanoseconds. */
  function Max(): (d: Duration)
    ensures d.ns as int == 2_147_483_647_999_999_999
    ensures ToMsg(d) == DurationMsg(INT32_MAX as int32, 999_999_999)
  {
    FromSecNsec(INT32_MAX as int32, 999_999_999)
  }

  /** Duration::operator==: equal nanosecond counts, which is equality of values. */
  function Eq(lhs: Duration, rhs: Duration): (b: bool)
    ensures b <==> lhs == rhs
  {
    lhs.ns == rhs.ns
  }

  /** Duration::operator<: integer order on the stored counts, never between equal values. */
  function Less(lhs: Duration, rhs: Duration): (b: bool)
    ensures b <==> Nanoseconds(lhs) < Nanoseconds(rhs)
    ensures b ==> !Eq(lhs, rhs)
  {
    lhs.ns < rhs.ns
  }

  /** Duration::operator<=: less than or equal as values. */
  function LessEq(lhs: Duration, rhs: Duration): (b: bool)
    ensures b <==> Less(lhs, rhs) || lhs == rhs
  {
    lhs.ns <= rhs.ns
  }

  /** Duration::operator>=: the converse of <=, and the negation of <. */
  function GreaterEq(lhs: Duration, rhs: Duration): (b: bool)
    ensures b <==> LessEq(rhs, lhs)
    ensures b <==> !Less(lhs, rhs)
  {
    lhs.ns >= rhs.ns
  }

  /** Duration::operator>: the converse of <, and the negation of <=. */
  function Greater(lhs: Duration, rhs: Duration): (b: bool)
    ensures b <==> Less(rhs, lhs)
    ensures b <==> !LessEq(lhs, rhs)
  {
    lhs.ns > rhs.ns
  }

  /**
   * bounds_check_duration_sum: throws when both operands have the same sign
   * and the sum of their magnitudes, computed in uint64_t, exceeds `max`.
   * The unsigned sum of two magnitudes below 2^63 never wraps.
   */
  function BoundsCheckSum(lhsns: int64, rhsns: int64, max: uint64): (c: BoundsCheck)
    requires lhsns as int > INT64_MIN && rhsns as int > INT64_MIN
    ensures c == Throw(Overflow) <==> lhsns > 0 && rhsns > 0 && lhsns as int + rhsns as int > max as int
    ensures c == Throw(Underflow) <==> lhsns < 0 && rhsns < 0 && -(lhsns as int + rhsns as int) > max as int
  {
    var absLhs := ToUint64(Abs(lhsns) as int);
    var absRhs := ToUint64(Abs(rhsns) as int);
    var total := ToUint64(absLhs as int + absRhs as int);
    if lhsns > 0 && rhsns > 0 then
      if total > max then Throw(Overflow) else Pass
    else if lhsns < 0 && rhsns < 0 then
      if total > max then Throw(Underflow) else Pass
    else
      Pass
  }

  /**
   * Duration::operator+: the guard with max = INT64_MAX, then the int64 sum.
   * Every sum that is returned lies in [-INT64_MAX, INT64_MAX], and every sum
   * in that range is returned.
   */
  function Add(lhs: Duration, rhs: Duration): (r: Result)
    requires lhs.ns as int > INT64_MIN && rhs.ns as int > INT64_MIN
    ensures r.Ok? <==> -INT64_MAX <= lhs.ns as int + rhs.ns as int <= INT64_MAX
    ensures r.Ok? ==> r.value.ns as int == lhs.ns as int + rhs.ns as int
    ensures r == Err(Overflow) <==> lhs.ns > 0 && rhs.ns > 0 && lhs.ns as int + rhs.ns as int > INT64_MAX
    ensures r == Err(Underflow) <==> lhs.ns < 0 && rhs.ns < 0 && lhs.ns as int + rhs.ns as int < -INT64_MAX
  {
    match BoundsCheckSum(lhs.ns, rhs.ns, INT64_MAX as uint64)
    case Throw(e) => Err(e)
    case Pass => Ok(FromNanoseconds((lhs.ns as int + rhs.ns as int) as int64))
  }

  /**
   * bounds_check_duration_difference: throws when the operands have opposite
   * signs and the sum of their magnitudes, computed in uint64_t, exceeds `max`.
   */
  function BoundsCheckDifference(lhsns: int64, rhsns: int64, max: uint64): (c: BoundsCheck)
    requires lhsns as int > INT64_MIN && rhsns as int > INT64_MIN
    ensures c == Throw(Overflow) <==> lhsns > 0 && rhsns < 0 && lhsns as int - rhsns as int > max as int
    ensures c == Throw(Underflow) <==> lhsns < 0 && rhsns > 0 && rhsns as int - lhsns as int > max as int
  {
    var absLhs := ToUint64(Abs(lhsns) as int);
    var absRhs := ToUint64(Abs(rhsns) as int);
    var total := ToUint64(absLhs as int + absRhs as int);
    if lhsns > 0 && rhsns < 0 then
      if total > max then Throw(Overflow) else Pass
    else if lhsns < 0 && rhsns > 0 then
      if total > max then Throw(Underflow) else Pass
    else
      Pass
  }

  /**
   * Duration::operator-: the guard with max = INT64_MAX, then the int64
   * difference. Every difference in [-INT64_MAX, INT64_MAX] is returned, and
   * only those.
   */
  function Sub(lhs: Duration, rhs: Duration): (r: Result)
    requires lhs.ns as int > INT64_MIN && rhs.ns as int > INT64_MIN
    ensures r.Ok? <==> -INT64_MAX <= lhs.ns as int - rhs.ns as int <= INT64_MAX
    ensures r.Ok? ==> r.value.ns as int == lhs.ns as int - rhs.ns as int
    ensures r == Err(Overflow) <==> lhs.ns > 0 && rhs.ns < 0 && lhs.ns as int - rhs.ns as int > INT64_MAX
    ensures r == Err(Underflow) <==> lhs.ns < 0 && rhs.ns > 0 && lhs.ns as int - rhs.ns as int < -INT64_MAX
  {
    match BoundsCheckDifference(lhs.ns, rhs.ns, INT64_MAX as uint64)
    case Throw(e) => Err(e)
    case Pass => Ok(FromNanoseconds((lhs.ns as int - rhs.ns as int) as int64))
  }
}
