/**
 * Properties of the Duration model: the constructors agree, the message
 * conversion and the constructors are inverse on [0, max()] and on whole
 * negative seconds down to INT32_MIN s, the comparisons form a total order, and + and - throw
 * exactly when the exact result leaves [-INT64_MAX, INT64_MAX].
 */
module DurationProperties {
  import opened CppInt
  import opened Durations

  // ---------------------------------------------------------------------------
  // Construction

  /** Duration(int64_t) and nanoseconds() are mutually inverse. */
  lemma NanosecondsRoundTrip(ns: int64, d: Duration)
    ensures Nanoseconds(FromNanoseconds(ns)) == ns
    ensures FromNanoseconds(Nanoseconds(d)) == d
  {
  }

  /**
   * The three ways of building a Duration from seconds and nanoseconds store
   * the same value: the (int32, uint32) constructor, the message constructor
   * (unsigned scaling) and assignment from a message (signed scaling).
   */
  lemma ConstructionsAgree(msg: DurationMsg)
    ensures FromMsg(msg) == FromSecNsec(msg.sec, msg.nanosec)
    ensures AssignMsg(msg) == FromMsg(msg)
    ensures Nanoseconds(FromMsg(msg)) as int == msg.sec as int * NS_PER_S + msg.nanosec as int
  {
  }

  /**
   * The (seconds, nanoseconds) constructor does not normalize: a nanosecond
   * part of a second or more is carried into the seconds only when the
   * Duration is converted back to a message.
   */
  lemma {:induction false} FromSecNsecToMsg(sec: int32, nsec: uint32)
    requires sec >= 0
    requires sec as int + nsec as int / NS_PER_S <= INT32_MAX
    ensures Nanoseconds(FromSecNsec(sec, nsec)) as int == sec as int * NS_PER_S + nsec as int
    ensures ToMsg(FromSecNsec(sec, nsec)).sec as int == sec as int + nsec as int / NS_PER_S
    ensures ToMsg(FromSecNsec(sec, nsec)).nanosec as int == nsec as int % NS_PER_S
    ensures nsec as int < NS_PER_S ==> ToMsg(FromSecNsec(sec, nsec)) == DurationMsg(sec, nsec)
    ensures var m := ToMsg(FromSecNsec(sec, nsec)); (m.sec as int, m.nanosec as int) == Carry(sec as int, nsec as int)
  {
    CarryIsFloorSplit(sec as int, nsec as int);
  }

  // ---------------------------------------------------------------------------
  // Normalization

  /**
   * Reference definition of a normalized (seconds, nanoseconds) pair,
   * independent of division: carry whole seconds out of the nanosecond part,
   * one at a time, until it lies in [0, 10^9).
   */
  function Carry(sec: int, nsec: int): (p: (int, int))
    decreases if nsec < 0 then NS_PER_S - nsec else nsec
  {
    if nsec >= NS_PER_S then Carry(sec + 1, nsec - NS_PER_S)
    else if nsec < 0 then Carry(sec - 1, nsec + NS_PER_S)
    else (sec, nsec)
  }

  /**
   * Carrying ends in the floor split of the total: seconds increased by
   * nsec / 10^9 and the nanoseconds reduced to nsec % 10^9, so the pair
   * still denotes sec * 10^9 + nsec nanoseconds.
   */
  lemma {:induction false} CarryIsFloorSplit(sec: int, nsec: int)
    decreases if nsec < 0 then NS_PER_S - nsec else nsec
    ensures Carry(sec, nsec) == (sec + nsec / NS_PER_S, nsec % NS_PER_S)
    ensures 0 <= Carry(sec, nsec).1 < NS_PER_S
    ensures Carry(sec, nsec).0 * NS_PER_S + Carry(sec, nsec).1 == sec * NS_PER_S + nsec
  {
    if nsec >= NS_PER_S {
      CarryIsFloorSplit(sec + 1, nsec - NS_PER_S);
    } else if nsec < 0 {
      CarryIsFloorSplit(sec - 1, nsec + NS_PER_S);
    }
  }

  // ---------------------------------------------------------------------------
  // Message conversion

  /**
   * A non-negative Duration whose seconds fit in int32 converts to the
   * message (ns / 10^9, ns % 10^9), and constructing from that message
   * gives the Duration back.
   */
  lemma {:induction false} ToMsgRoundTrip(d: Duration)
    requires 0 <= d.ns && d.ns as int / NS_PER_S <= INT32_MAX
    ensures ToMsg(d).sec as int == d.ns as int / NS_PER_S
    ensures ToMsg(d).nanosec as int == d.ns as int % NS_PER_S < NS_PER_S
    ensures FromMsg(ToMsg(d)) == d
  {
    assert d.ns as int <= INT32_MAX * NS_PER_S + (NS_PER_S - 1);
  }

  /** A message whose nanosecond part is normalized holds at most Duration::max(). */
  lemma NormalizedMsgAtMostMax(msg: DurationMsg)
    requires msg.nanosec as int < NS_PER_S
    ensures MSG_MIN_NS <= FromMsg(msg).ns as int
    ensures LessEq(FromMsg(msg), Max())
  {
  }

  /**
   * For a non-negative Duration the message round trip succeeds exactly up
   * to Duration::max(); beyond it the int32 seconds wrap.
   */
  lemma {:induction false} NonNegativeRoundTripIff(d: Duration)
    requires d.ns >= 0
    ensures FromMsg(ToMsg(d)) == d <==> LessEq(d, Max())
  {
    if LessEq(d, Max()) {
      ToMsgRoundTrip(d);
    } else {
      NormalizedMsgAtMostMax(ToMsg(d));
    }
  }

  /**
   * Within the range a normalized message spans, the message round trip
   * succeeds exactly for non-negative Durations and for whole seconds: a
   * negative Duration with a fractional part has a negative truncated
   * remainder, which the uint32_t cast moves by 2^32.
   */
  lemma {:induction false} RoundTripIffInMsgRange(d: Duration)
    requires MSG_MIN_NS <= d.ns as int <= Max().ns as int
    ensures FromMsg(ToMsg(d)) == d <==> d.ns >= 0 || d.ns as int % NS_PER_S == 0
  {
    var n := d.ns as int;
    if n >= 0 {
      ToMsgRoundTrip(d);
    } else {
      var q, r := Quot(n, NS_PER_S), Rem(n, NS_PER_S);
      assert INT32_MIN <= q <= 0;
      assert ToMsg(d).sec as int == q;
      if r == 0 {
        assert n == q * NS_PER_S;
        assert n % NS_PER_S == 0;
      } else {
        assert ToMsg(d).nanosec as int == r + TWO_32;
        assert FromMsg(ToMsg(d)).ns as int == n + TWO_32;
        NegativeRemainder(n, q, r);
      }
    }
  }

  /** A negative number with a non-zero truncated remainder is not a multiple of 10^9. */
  lemma NegativeRemainder(n: int, q: int, r: int)
    requires n == q * NS_PER_S + r && -NS_PER_S < r < 0
    ensures n % NS_PER_S != 0
  {
    assert n == (q - 1) * NS_PER_S + (r + NS_PER_S);
    assert n % NS_PER_S == r + NS_PER_S;
  }

  /**
   * Converting a message to a Duration and back gives the same message
   * exactly when its nanosecond part is normalized and it is not a negative
   * number of seconds with a fractional part.
   */
  lemma {:induction false} MsgRoundTripIff(msg: DurationMsg)
    ensures ToMsg(FromMsg(msg)) == msg <==> msg.nanosec as int < NS_PER_S && (msg.sec >= 0 || msg.nanosec == 0)
  {
    if msg.nanosec as int < NS_PER_S && (msg.sec >= 0 || msg.nanosec == 0) {
      MsgRoundTripWhenNormalized(msg);
    } else {
      MsgRoundTripFailsOtherwise(msg);
    }
  }

  /** The direction of MsgRoundTripIff in which the message survives. */
  lemma MsgRoundTripWhenNormalized(msg: DurationMsg)
    requires msg.nanosec as int < NS_PER_S && (msg.sec >= 0 || msg.nanosec == 0)
    ensures ToMsg(FromMsg(msg)) == msg
  {
    var s := msg.sec as int;
    if s >= 0 {
      FromSecNsecToMsg(msg.sec, msg.nanosec);
    } else {
      assert FromMsg(msg).ns as int == s * NS_PER_S;
      assert Quot(s * NS_PER_S, NS_PER_S) == s;
    }
  }

  /** The direction of MsgRoundTripIff in which the nanosecond part changes. */
  lemma MsgRoundTripFailsOtherwise(msg: DurationMsg)
    requires msg.nanosec as int >= NS_PER_S || (msg.sec < 0 && msg.nanosec != 0)
    ensures ToMsg(FromMsg(msg)).nanosec != msg.nanosec
  {
    var d := FromMsg(msg);
    var s, t := msg.sec as int, msg.nanosec as int;
    var m := ToMsg(d);
    if d.ns >= 0 {
      // a negative number of seconds with a fractional part below a second
      // would make the Duration negative, so the nanosecond part is too large
      assert m.nanosec as int < NS_PER_S <= t;
    } else {
      // the truncated remainder is 0, or it is negative and wraps to itself plus 2^32
      var q, r := Quot(d.ns as int, NS_PER_S), Rem(d.ns as int, NS_PER_S);
      assert d.ns as int == s * NS_PER_S + t == q * NS_PER_S + r;
      if r == 0 {
        assert m.nanosec == 0;
      } else {
        assert m.nanosec as int == r + TWO_32;
        TwoPow32NotMultiple(q - s);
      }
    }
  }

  /**
   * Below the message range the round trip always fails: any message reads
   * back as at least INT32_MIN seconds.
   */
  lemma RoundTripFailsBelowMsgRange(d: Duration)
    requires d.ns as int < MSG_MIN_NS
    ensures FromMsg(ToMsg(d)) != d
  {
  }

  /**
   * The message round trip as written, over every Duration: it succeeds
   * exactly on [0, Duration::max()] and on the whole seconds of
   * [INT32_MIN s, 0).
   */
  lemma {:induction false} RoundTripIff(d: Duration)
    ensures FromMsg(ToMsg(d)) == d <==>
      (0 <= d.ns && LessEq(d, Max())) || (MSG_MIN_NS <= d.ns as int < 0 && d.ns as int % NS_PER_S == 0)
  {
    if d.ns as int < MSG_MIN_NS {
      RoundTripFailsBelowMsgRange(d);
    } else if d.ns >= 0 {
      NonNegativeRoundTripIff(d);
    } else {
      RoundTripIffInMsgRange(d);
    }
  }

  /** 2^32 is not a whole number of seconds in nanoseconds. */
  lemma TwoPow32NotMultiple(j: int)
    ensures j * NS_PER_S != TWO_32
  {
    if j <= 4 {
      assert j * NS_PER_S <= 4 * NS_PER_S;
    } else {
      assert j * NS_PER_S >= 5 * NS_PER_S;
    }
  }

  /** Duration::max() is the (INT32_MAX, 999999999) message, and it round-trips. */
  lemma MaxRoundTrip()
    ensures FromMsg(DurationMsg(INT32_MAX as int32, 999_999_999)) == Max()
    ensures FromMsg(ToMsg(Max())) == Max()
  {
  }

  /**
   * to_rmw_time() reuses the message conversion: on [0, Duration::max()] it
   * has the same seconds and nanoseconds as the message.
   */
  lemma ToRmwTimeInRange(d: Duration)
    requires 0 <= d.ns && LessEq(d, Max())
    ensures ToRmwTime(d).sec as int == ToMsg(d).sec as int == d.ns as int / NS_PER_S
    ensures ToRmwTime(d).nsec as int == ToMsg(d).nanosec as int == d.ns as int % NS_PER_S
  {
  }

  // ---------------------------------------------------------------------------
  // Comparison

  ghost predicate StrictTotalOrder(lt: (Duration, Duration) -> bool)
  {
    && (forall a :: !lt(a, a))
    && (forall a, b, c :: lt(a, b) && lt(b, c) ==> lt(a, c))
    && (forall a, b :: a != b ==> lt(a, b) || lt(b, a))
  }

  ghost predicate TotalOrder(le: (Duration, Duration) -> bool)
  {
    && (forall a :: le(a, a))
    && (forall a, b :: le(a, b) && le(b, a) ==> a == b)
    && (forall a, b, c :: le(a, b) && le(b, c) ==> le(a, c))
    && (forall a, b :: le(a, b) || le(b, a))
  }

  /** operator< is a strict total order and operator<= a total order on Durations. */
  lemma ComparisonsAreTotalOrders()
    ensures StrictTotalOrder(Less)
    ensures TotalOrder(LessEq)
  {
  }

  /** The five operators agree with one another as integer comparisons do. */
  lemma ComparisonDuality(a: Duration, b: Duration)
    ensures Less(a, b) <==> !GreaterEq(a, b)
    ensures Greater(a, b) <==> Less(b, a)
    ensures LessEq(a, b) <==> !Greater(a, b)
    ensures Eq(a, b) <==> LessEq(a, b) && GreaterEq(a, b)
    ensures Less(a, b) || Eq(a, b) || Greater(a, b)
  {
  }

  // ---------------------------------------------------------------------------
  // Addition and subtraction

  /** Mixed-sign or zero operands never make + throw. */
  lemma AddMixedSignsNeverThrow(a: Duration, b: Duration)
    requires a.ns as int > INT64_MIN && b.ns as int > INT64_MIN
    requires a.ns <= 0 <= b.ns || b.ns <= 0 <= a.ns
    ensures Add(a, b) == Ok(Duration((a.ns as int + b.ns as int) as int64))
  {
  }

  /** + is commutative, including which exception it throws. */
  lemma AddCommutes(a: Duration, b: Duration)
    requires a.ns as int > INT64_MIN && b.ns as int > INT64_MIN
    ensures Add(a, b) == Add(b, a)
  {
  }

  /** Adding zero is the identity. */
  lemma AddZero(a: Duration)
    requires a.ns as int > INT64_MIN
    ensures Add(a, Duration(0)) == Ok(a)
  {
  }

  /** Subtraction is addition of the negated right operand. */
  lemma SubIsAddNegated(a: Duration, b: Duration)
    requires a.ns as int > INT64_MIN && b.ns as int > INT64_MIN
    ensures Sub(a, b) == Add(a, Duration(-b.ns))
  {
  }

  /** Swapping the operands of - negates the result and swaps overflow and underflow. */
  lemma SubAntiCommutes(a: Duration, b: Duration)
    requires a.ns as int > INT64_MIN && b.ns as int > INT64_MIN
    ensures Sub(a, b).Ok? <==> Sub(b, a).Ok?
    ensures Sub(a, b).Ok? ==> Sub(b, a).value.ns as int == -(Sub(a, b).value.ns as int)
    ensures Sub(a, b) == Err(Overflow) <==> Sub(b, a) == Err(Underflow)
  {
  }

  /** A sum that does not throw can be undone by subtracting the right operand. */
  lemma AddThenSub(a: Duration, b: Duration)
    requires a.ns as int > INT64_MIN && b.ns as int > INT64_MIN
    requires Add(a, b).Ok?
    ensures Add(a, b).value.ns as int > INT64_MIN
    ensures Sub(Add(a, b).value, b) == Ok(a)
  {
  }

  /**
   * The guard of + is conservative at the lower end: a sum of exactly
   * INT64_MIN is representable but still reported as underflow.
   */
  lemma AddRejectsExactMin()
    ensures Add(Duration(-1), Duration((INT64_MIN + 1) as int64)) == Err(Underflow)
  {
  }
}
