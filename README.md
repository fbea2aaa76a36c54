# rclcpp::Duration in Dafny

A model of `rclcpp::Duration` from rclcpp, the C++ client library of ROS 2.
A Duration is a signed 64-bit count of nanoseconds (the `nanoseconds` field
of an `rcl_duration_t`). The model covers its constructors from
`(int32 sec, uint32 nsec)`, from raw nanoseconds and from a
`builtin_interfaces/msg/Duration` message; assignment from a message; the
conversions to the message and to `rmw_time_t`; the five comparison
operators; `max()`; and `+` and `-` with their overflow and underflow guards
(`bounds_check_duration_sum`, `bounds_check_duration_difference`).

The C++ class is a value type whose constructors and assignments write its one
int64 field, so it is a `datatype Duration = Duration(ns: int64)` and every
operation is a function. A thrown `std::overflow_error` or
`std::underflow_error` is an `Err(Overflow)` or `Err(Underflow)` result.

Files:

- `cpp_int.dfy` (module `CppInt`): `int32`, `uint32`, `int64` and `uint64`
  as newtypes; integral conversions as reduction modulo 2^w; `Quot` and `Rem`,
  C++'s truncating `/` and `%` (Dafny's own are Euclidean); `std::abs`.
- `duration.dfy` (module `Durations`): the operations.
- `duration_properties.dfy` (module `DurationProperties`): the constructors
  agree, the message round trips and exactly where they hold, the comparisons
  form total orders, and algebraic laws of `+` and `-`.
- `normalized_msg.dfy` (module `NormalizedMsg`): the corrected message
  conversion and the two inputs that show the one as written going wrong
  (see Findings).

Details of the C++ semantics that the model makes explicit:

- `RCL_S_TO_NS(x)` is taken as `x * (1000LL * 1000LL * 1000LL)` and
  `RCL_NS_TO_S(x)` as `x / (1000LL * 1000LL * 1000LL)`. The rcl and rcutils
  headers that define them are not part of this model.
- The message constructor casts the seconds to `uint64_t` before scaling, so
  the product is unsigned and wraps modulo 2^64 before it is stored in the
  int64 field. `Durations.UnsignedScaleIsExact` proves that this gives the
  signed product for every int32, so it stores the same value as `operator=`,
  which scales in int64. For negative seconds the unsigned product is at least
  2^63, and storing it into `int64_t` is the same narrowing as the `int32_t`
  cast below: modular since C++20, implementation-defined before it, and gcc
  and clang wrap.
- `static_cast<uint32_t>` of a negative remainder wraps modulo 2^32. Every C++
  standard defines conversion to an unsigned type this way.
- `static_cast<int32_t>` of a quotient outside int32 also wraps modulo 2^32.
  This two's complement narrowing is required since C++20; earlier standards
  leave it implementation-defined, and gcc and clang wrap.
- `rmw_time_t` is taken to have two `uint64_t` fields `sec` and `nsec`.
  `rmw/types.h` is not part of this model. Copying the int32 seconds into
  the uint64 field wraps negative seconds to 2^64 + sec.
- The guards compute `abs(lhs) + abs(rhs)` in `uint64_t`. That sum of two
  magnitudes below 2^63 never wraps. So each guard throws, in its sign case
  (both operands of one sign for the sum, opposite signs for the
  difference), exactly when the exact sum of magnitudes exceeds `max`. As a result `+` and `-` return
  exactly those results that lie in [-INT64_MAX, INT64_MAX]. A sum of exactly
  INT64_MIN is representable but is still reported as underflow
  (`DurationProperties.AddRejectsExactMin`).

## Model

| member | source | states |
|---|---|---|
| `Durations.FromSecNsec` | rclcpp/src/rclcpp/duration.cpp:34-38 | stores exactly sec*10^9 + nsec with no normalization; the value always lies in [INT32_MIN*10^9, INT32_MAX*10^9 + UINT32_MAX], so neither int64 step overflows |
| `Durations.FromMsg` | rclcpp/src/rclcpp/duration.cpp:52-56 | despite the unsigned, wrapping scaling of the seconds, stores exactly sec*10^9 + nanosec for every message |
| `Durations.UnsignedScaleIsExact` | rclcpp/src/rclcpp/duration.cpp:54 | the uint64 cast, the product modulo 2^64 and the store into int64 give back sec*10^9 for every int32 sec |
| `Durations.AssignMsg` | rclcpp/src/rclcpp/duration.cpp:78-83 | assignment from a message stores the same Duration as construction from that message |
| `Durations.ToMsg` | rclcpp/src/rclcpp/duration.cpp:63-70 | for ns >= 0 the nanosecond part is ns % 10^9 < 10^9; for 0 <= ns <= max() the seconds are ns / 10^9; for INT32_MIN*10^9 <= ns < 0 the seconds are the truncated quotient; for every ns < 0 a non-zero truncated remainder r becomes nanosec = r + 2^32, at least 2^32 - 10^9 + 1, and a zero remainder gives nanosec 0; for every ns the seconds are congruent to the truncated quotient modulo 2^32, equal to it exactly when it fits in int32, so above max() they wrap |
| `Durations.ToRmwTime` | rclcpp/src/rclcpp/duration.cpp:192-200 | same nanoseconds as the message conversion; same seconds when they are non-negative, otherwise 2^64 + sec |
| `Durations.Max` | rclcpp/src/rclcpp/duration.cpp:185 | max() holds 2147483647999999999 ns and converts to the message (INT32_MAX, 999999999) |
| `Durations.Eq` | rclcpp/src/rclcpp/duration.cpp:85-88 | `==` holds exactly when the two Durations are the same value |
| `Durations.LessEq` | rclcpp/src/rclcpp/duration.cpp:95-98 | `<=` holds exactly when `<` holds or the two are equal |
| `Durations.GreaterEq` | rclcpp/src/rclcpp/duration.cpp:100-103 | `a >= b` is `b <= a` and is the negation of `a < b` |
| `Durations.Greater` | rclcpp/src/rclcpp/duration.cpp:105-108 | `a > b` is `b < a` and is the negation of `a <= b` |
| `Durations.BoundsCheckSum` | rclcpp/src/rclcpp/duration.cpp:110-124 | throws overflow iff both operands are positive and their sum exceeds max; underflow iff both are negative and the sum of their magnitudes exceeds max; no uint64 wrap-around occurs |
| `Durations.Add` | rclcpp/src/rclcpp/duration.cpp:126-132 | returns a result iff the exact sum lies in [-INT64_MAX, INT64_MAX], and then it is the exact sum; overflow iff both positive and sum > INT64_MAX; underflow iff both negative and sum < -INT64_MAX |
| `Durations.BoundsCheckDifference` | rclcpp/src/rclcpp/duration.cpp:134-148 | throws overflow iff lhs > 0, rhs < 0 and lhs - rhs exceeds max; underflow iff lhs < 0, rhs > 0 and rhs - lhs exceeds max |
| `Durations.Sub` | rclcpp/src/rclcpp/duration.cpp:150-157 | returns a result iff the exact difference lies in [-INT64_MAX, INT64_MAX], and then it is the exact difference; overflow and underflow exactly under the opposite-sign conditions |
| `Durations.FromNanoseconds` | rclcpp/src/rclcpp/duration.cpp:40 | Duration(int64) stores the given count unchanged |
| `Durations.Nanoseconds` | rclcpp/src/rclcpp/duration.cpp:183 | nanoseconds() returns the stored count, and Duration(int64) of it rebuilds the same value |
| `Durations.Less` | rclcpp/src/rclcpp/duration.cpp:90-93 | `<` is integer order on the nanosecond field and never holds between equal values (a strict total order, see ComparisonsAreTotalOrders) |
| `CppInt.Quot` | rclcpp/src/rclcpp/duration.cpp:66 | C++ `/` by a positive divisor rounds toward zero: for a >= 0, 0 <= q*b <= a < q*b + b; for a < 0, q*b - b < a <= q*b <= 0 |
| `CppInt.Rem` | rclcpp/src/rclcpp/duration.cpp:68 | C++ `%` by a positive divisor: a == Quot(a, b)*b + r, with r in [0, b) for a >= 0 and in (-b, 0] for a < 0 |
| `CppInt.ToUint32` | rclcpp/src/rclcpp/duration.cpp:68 | the uint32 value congruent to x modulo 2^32; x itself when it fits |
| `CppInt.ToInt32` | rclcpp/src/rclcpp/duration.cpp:66 | the int32 value congruent to x modulo 2^32; x itself when it fits |
| `CppInt.ToUint64` | rclcpp/src/rclcpp/duration.cpp:54 | the uint64 value congruent to x modulo 2^64; x itself when it fits (also the casts on lines 112-113 and 136-137 and the field copies on lines 197-198) |
| `CppInt.ToInt64` | rclcpp/src/rclcpp/duration.cpp:54 | the int64 value congruent to x modulo 2^64; x itself when it fits (the store of the unsigned product into the int64 field) |
| `CppInt.Abs` | rclcpp/src/rclcpp/duration.cpp:112-113 | the magnitude of x, for x > INT64_MIN (std::abs(INT64_MIN) is undefined behaviour); also lines 136-137 |
| `CppInt.QuotRemVersusFloor` | rclcpp/src/rclcpp/duration.cpp:66-68 | for every positive divisor, truncating and floor division agree iff the truncated remainder is non-negative; otherwise the floor quotient is one less and the floor remainder is the truncated one plus the divisor |
| `DurationProperties.NanosecondsRoundTrip` | rclcpp/src/rclcpp/duration.cpp:40 | Duration(int64) and nanoseconds() are mutually inverse |
| `DurationProperties.ConstructionsAgree` | rclcpp/src/rclcpp/duration.cpp:52-56 | the (sec, nsec) constructor, the message constructor and assignment from a message all store sec*10^9 + nanosec |
| `DurationProperties.FromSecNsecToMsg` | rclcpp/src/rclcpp/duration.cpp:34-38 | for sec >= 0 with sec + nsec / 10^9 <= INT32_MAX, a nanosecond part of a second or more is carried into the seconds only by the message conversion: the message is (sec + nsec / 10^9, nsec % 10^9); with nsec < 10^9 it is (sec, nsec); in all these cases it is the carrying normalization of (sec, nsec) |
| `DurationProperties.CarryIsFloorSplit` | rclcpp/src/rclcpp/duration.cpp:66-68 | normalizing a (sec, nsec) pair by carrying whole seconds out of the nanoseconds one at a time (`Carry`, a reference definition without division) ends at (sec + nsec / 10^9, nsec % 10^9), a pair with 0 <= nanosec < 10^9 that denotes the same number of nanoseconds |
| `DurationProperties.ToMsgRoundTrip` | rclcpp/src/rclcpp/duration.cpp:63-70 | for 0 <= ns with ns / 10^9 <= INT32_MAX the message is (ns / 10^9, ns % 10^9) with nanosec < 10^9, and constructing from it gives back the Duration |
| `DurationProperties.NormalizedMsgAtMostMax` | rclcpp/src/rclcpp/duration.cpp:185 | every message with nanosec < 10^9 holds a Duration in [INT32_MIN*10^9, max()] |
| `DurationProperties.NonNegativeRoundTripIff` | rclcpp/src/rclcpp/duration.cpp:63-70 | a non-negative Duration survives conversion to a message and back iff it is at most max() |
| `DurationProperties.RoundTripIffInMsgRange` | rclcpp/src/rclcpp/duration.cpp:66-68 | within [INT32_MIN*10^9, max()] a Duration survives the round trip iff it is non-negative or a whole number of seconds |
| `DurationProperties.RoundTripFailsBelowMsgRange` | rclcpp/src/rclcpp/duration.cpp:63-70 | a Duration below INT32_MIN seconds never survives conversion to a message and back |
| `DurationProperties.RoundTripIff` | rclcpp/src/rclcpp/duration.cpp:63-70 | over every Duration, the round trip as written succeeds iff the value is in [0, max()] or is a whole number of seconds in [INT32_MIN s, 0) |
| `DurationProperties.MsgRoundTripIff` | rclcpp/src/rclcpp/duration.cpp:63-70 | a message survives conversion to a Duration and back iff nanosec < 10^9 and it is not negative seconds with a non-zero nanosec |
| `DurationProperties.MsgRoundTripWhenNormalized` | rclcpp/src/rclcpp/duration.cpp:63-70 | a message with nanosec < 10^9 and non-negative seconds or zero nanoseconds comes back unchanged |
| `DurationProperties.MsgRoundTripFailsOtherwise` | rclcpp/src/rclcpp/duration.cpp:66-68 | a message with nanosec >= 10^9, or with negative seconds and non-zero nanoseconds, comes back with a different nanosecond part |
| `DurationProperties.MaxRoundTrip` | rclcpp/src/rclcpp/duration.cpp:185 | max() is the message (INT32_MAX, 999999999) read back, and it survives the round trip |
| `DurationProperties.ToRmwTimeInRange` | rclcpp/src/rclcpp/duration.cpp:192-200 | on [0, max()] to_rmw_time() has sec = ns / 10^9 and nsec = ns % 10^9, the same as the message |
| `DurationProperties.ComparisonsAreTotalOrders` | rclcpp/src/rclcpp/duration.cpp:90-98 | `<` is irreflexive, transitive and total on distinct values; `<=` is reflexive, antisymmetric, transitive and total |
| `DurationProperties.ComparisonDuality` | rclcpp/src/rclcpp/duration.cpp:85-108 | `a < b` iff not `a >= b`; `a > b` iff `b < a`; `a <= b` iff not `a > b`; `==` iff both `<=` and `>=`; trichotomy |
| `DurationProperties.AddMixedSignsNeverThrow` | rclcpp/src/rclcpp/duration.cpp:115-123 | operands of opposite signs, or a zero operand, never make `+` throw, and the sum is returned |
| `DurationProperties.AddCommutes` | rclcpp/src/rclcpp/duration.cpp:126-132 | `a + b` and `b + a` give the same result or the same exception |
| `DurationProperties.AddZero` | rclcpp/src/rclcpp/duration.cpp:126-132 | adding zero returns the left operand |
| `DurationProperties.SubIsAddNegated` | rclcpp/src/rclcpp/duration.cpp:150-157 | `a - b` gives the same result or exception as `a + (-b)` |
| `DurationProperties.SubAntiCommutes` | rclcpp/src/rclcpp/duration.cpp:134-157 | `a - b` succeeds iff `b - a` does, with the negated result; overflow one way is underflow the other |
| `DurationProperties.AddThenSub` | rclcpp/src/rclcpp/duration.cpp:126-157 | when `a + b` succeeds, subtracting `b` from it succeeds and gives back `a` |
| `DurationProperties.AddRejectsExactMin` | rclcpp/src/rclcpp/duration.cpp:119-121 | -1 ns plus (INT64_MIN + 1) ns throws underflow although the sum INT64_MIN is representable |
| `NormalizedMsg.ToMsgNormalized` | rclcpp/src/rclcpp/duration.cpp:63-70 | corrected conversion: the nanosecond part is always below 10^9; within [INT32_MIN*10^9, max()] the message reads back as the Duration; above it saturates to max()'s message, below it to INT32_MIN seconds |
| `NormalizedMsg.NormalizedRoundTripIff` | rclcpp/src/rclcpp/duration.cpp:63-70 | under the corrected conversion a Duration survives the round trip iff it lies in [INT32_MIN*10^9, max()] |
| `NormalizedMsg.NormalizedMsgRoundTripIff` | rclcpp/src/rclcpp/duration.cpp:63-70 | under the corrected conversion a message survives the round trip iff nanosec < 10^9, negative seconds included |
| `NormalizedMsg.NormalizedFromTruncated` | rclcpp/src/rclcpp/duration.cpp:66-68 | within the message range the corrected conversion is the truncated quotient and remainder when the remainder is non-negative, and otherwise borrows one second: (q - 1, r + 10^9) |
| `NormalizedMsg.NormalizedIsCarry` | rclcpp/src/rclcpp/duration.cpp:63-70 | within the message range the corrected conversion is the carrying normalization of (0 s, ns) |
| `NormalizedMsg.NormalizedAgreesOnNonNegative` | rclcpp/src/rclcpp/duration.cpp:63-70 | on [0, max()] the corrected conversion equals the one as written |
| `NormalizedMsg.NormalizedIsMonotone` | rclcpp/src/rclcpp/duration.cpp:63-70 | reading back the corrected message preserves the order of Durations: a <= b implies FromMsg(ToMsgNormalized(a)) <= FromMsg(ToMsgNormalized(b)) |
| `NormalizedMsg.NegativeFractionBreaksRoundTrip` | rclcpp/src/rclcpp/duration.cpp:66-68 | as written, -1 ns converts to (0, 4294967295), which reads back as 4294967295 ns; corrected, it converts to (-1, 999999999) and reads back as -1 ns |
| `NormalizedMsg.LargeSecondsWrap` | rclcpp/src/rclcpp/duration.cpp:66 | as written, 2^31 s converts to (INT32_MIN, 0), a negative Duration; corrected, it saturates to (INT32_MAX, 999999999) |

## Left out

- `CppInt.Abs`, `Durations.BoundsCheckSum`, `Durations.Add`, `Durations.BoundsCheckDifference` and `Durations.Sub` require both operands above INT64_MIN: `std::abs(INT64_MIN)` is undefined behaviour in C++, so the source has no defined result for that operand.
- `Durations.ToRmwTime` keeps the message conversion as written, as the source does (it reuses it), so it inherits both findings below. The corrected conversion `NormalizedMsg.ToMsgNormalized` agrees with it on [0, max()].
- `operator*(double)`, `bounds_check_duration_scale`, `seconds()` and `from_seconds(double)`: floating point.
- The `std::chrono::nanoseconds` and `rcl_duration_t` constructors and the copy constructor and copy assignment: each copies the int64 field unchanged. They are the identity on a value type, so they have no separate members.
- `rclcpp/include/rclcpp/wait_set_template.hpp`: its methods forward to storage and synchronisation policy hooks that are not part of this model, and it otherwise manages shared ownership and thread safety around `rcl_wait_set_t`.

## Findings

| source | as written | input that shows it | evidently intended | confidence | as-written member | corrected member |
|---|---|---|---|---|---|---|
| rclcpp/src/rclcpp/duration.cpp:66-68 | the message takes the truncated quotient and the truncated remainder cast to uint32, so a negative Duration with a fractional part gets a negative remainder wrapped to at least 2^32 - 10^9 + 1 | -1 ns gives the message (0, 4294967295), which reads back as 4294967295 ns | a normalized message, floor seconds and 0 <= nanosec < 10^9: (-1, 999999999) | high; not executed | `NormalizedMsg.NegativeFractionBreaksRoundTrip` | `NormalizedMsg.ToMsgNormalized` |
| rclcpp/src/rclcpp/duration.cpp:66 | the int64 quotient is cast to int32 without a check, so seconds above INT32_MAX wrap (for every Duration, `Durations.ToMsg` ensures the seconds are congruent to the quotient modulo 2^32 and differ from it above max()) | 2^31 s (2147483648000000000 ns) gives the message (INT32_MIN, 0), a negative duration | a positive Duration never becomes a negative message; the correction modelled saturates at max()'s message (INT32_MAX, 999999999), and throwing would also meet the intent | medium; not executed | `NormalizedMsg.LargeSecondsWrap` | `NormalizedMsg.ToMsgNormalized` |
