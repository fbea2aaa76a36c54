/**
 * The message conversion as evidently intended: a builtin_interfaces
 * Duration with 0 <= nanosec < 10^9 and the floor of the seconds, saturating
 * at the two ends of the range such a message can hold. Next to it, two
 * concrete inputs on which the conversion as written (Durations.ToMsg)
 * produces a message that does not read back as the original Duration.
 */
module NormalizedMsg {
  import opened CppInt
  import opened Durations
  import opened DurationProperties

  /**
   * Floor quotient and non-negative remainder, clamped to
   * [(INT32_MIN, 0), (INT32_MAX, 999999999)].
   */
  function ToMsgNormalized(d: Duration): (msg: DurationMsg)
    ensures msg.nanosec as int < NS_PER_S
    ensures MSG_MIN_NS <= d.ns as int <= Max().ns as int ==> FromMsg(msg) == d
    ensures d.ns as int > Max().ns as int ==> msg == ToMsg(Max())
    ensures d.ns as int < MSG_MIN_NS ==> FromMsg(msg).ns as int == MSG_MIN_NS
  {
    var n := d.ns as int;
    if n > Max().ns as int then
      DurationMsg(INT32_MAX as int32, 999_999_999)
    else if n < MSG_MIN_NS then
      DurationMsg(INT32_MIN as int32, 0)
    else
      FloorSplit(n);
      DurationMsg((n / NS_PER_S) as int32, (n % NS_PER_S) as uint32)
  }

  /** Inside the message range the floor quotient fits in int32. */
  lemma FloorSplit(n: int)
    requires MSG_MIN_NS <= n <= Max().ns as int
    ensures INT32_MIN <= n / NS_PER_S <= INT32_MAX
    ensures n == (n / NS_PER_S) * NS_PER_S + n % NS_PER_S
  {
  }

  /** The corrected conversion round-trips exactly on the range a message can hold. */
  lemma {:induction false} NormalizedRoundTripIff(d: Duration)
    ensures FromMsg(ToMsgNormalized(d)) == d <==> MSG_MIN_NS <= d.ns as int <= Max().ns as int
  {
    var m := ToMsgNormalized(d);
    NormalizedMsgAtMostMax(m);
  }

  /** Every normalized message, negative ones included, survives the trip through a Duration. */
  lemma {:induction false} NormalizedMsgRoundTripIff(msg: DurationMsg)
    ensures ToMsgNormalized(FromMsg(msg)) == msg <==> msg.nanosec as int < NS_PER_S
  {
    var n := FromMsg(msg).ns as int;
    var s, t := msg.sec as int, msg.nanosec as int;
    if t < NS_PER_S {
      NormalizedMsgAtMostMax(msg);
      assert n == s * NS_PER_S + t;
      FloorUnique(n, NS_PER_S, s, t);
    }
  }

  /**
   * The corrected conversion in the C++ operators the source already uses:
   * keep the truncated quotient and remainder when the remainder is
   * non-negative, otherwise borrow one second into the nanosecond part.
   */
  lemma NormalizedFromTruncated(d: Duration)
    requires MSG_MIN_NS <= d.ns as int <= Max().ns as int
    ensures var q, r := Quot(d.ns as int, NS_PER_S), Rem(d.ns as int, NS_PER_S);
      ToMsgNormalized(d) == if r >= 0 then DurationMsg(q as int32, r as uint32)
                            else DurationMsg((q - 1) as int32, (r + NS_PER_S) as uint32)
  {
    FloorSplit(d.ns as int);
    QuotRemVersusFloor(d.ns as int, NS_PER_S);
  }

  /**
   * Within the message range the corrected conversion is the carrying
   * normalization of (0 s, ns).
   */
  lemma NormalizedIsCarry(d: Duration)
    requires MSG_MIN_NS <= d.ns as int <= Max().ns as int
    ensures var m := ToMsgNormalized(d); (m.sec as int, m.nanosec as int) == Carry(0, d.ns as int)
  {
    CarryIsFloorSplit(0, d.ns as int);
  }

  /** On [0, Duration::max()] the corrected conversion is the one as written. */
  lemma NormalizedAgreesOnNonNegative(d: Duration)
    requires 0 <= d.ns && LessEq(d, Max())
    ensures ToMsgNormalized(d) == ToMsg(d)
  {
  }

  /** Reading back the corrected message preserves the order of Durations. */
  lemma NormalizedIsMonotone(a: Duration, b: Duration)
    requires LessEq(a, b)
    ensures LessEq(FromMsg(ToMsgNormalized(a)), FromMsg(ToMsgNormalized(b)))
  {
  }

  /**
   * As written: -1 ns converts to the message (0, 4294967295), whose
   * nanosecond part is not below 10^9 and which reads back as 4294967295 ns.
   * The corrected conversion gives (-1, 999999999).
   */
  lemma NegativeFractionBreaksRoundTrip()
    ensures ToMsg(Duration(-1)) == DurationMsg(0, 4_294_967_295)
    ensures FromMsg(ToMsg(Duration(-1))) == Duration(4_294_967_295)
    ensures ToMsgNormalized(Duration(-1)) == DurationMsg(-1, 999_999_999)
    ensures FromMsg(ToMsgNormalized(Duration(-1))) == Duration(-1)
  {
  }

  /**
   * As written: 2^31 seconds, a valid positive Duration above
   * Duration::max(), converts to INT32_MIN seconds, the most negative message.
   * The corrected conversion saturates at (INT32_MAX, 999999999).
   */
  lemma LargeSecondsWrap()
    ensures ToMsg(Duration(2_147_483_648_000_000_000)) == DurationMsg(INT32_MIN as int32, 0)
    ensures Less(FromMsg(ToMsg(Duration(2_147_483_648_000_000_000))), Duration(0))
    ensures ToMsgNormalized(Duration(2_147_483_648_000_000_000)) == DurationMsg(INT32_MAX as int32, 999_999_999)
  {
  }
}
