/** NTP timestamps (rtp/NtpTime.cxx): 32 bits of seconds and 32 bits of fraction, with
    the wrap-around of unsigned arithmetic written out. */
module NtpArithmetic {

  // A second has 0x1_0000_0000 ticks.  The code gives a millisecond 4294967 of them, and
  // the remaining 296 of each second are what makes differences inexact.

  type Word = x: int | 0 <= x < 0x1_0000_0000

  function U32(x: int): Word { x % 0x1_0000_0000 }

  lemma {:induction false} WrapOnce(x: int)
    requires -0x1_0000_0000 <= x < 0x2_0000_0000
    ensures U32(x) == if x < 0 then x + 0x1_0000_0000 else if x < 0x1_0000_0000 then x else x - 0x1_0000_0000
  {}

  datatype NtpTime = NtpTime(seconds: Word, fractional: Word) {
    /** The instant in ticks. */
    function Ticks(): int { seconds * 0x1_0000_0000 + fractional }

    predicate After(t: NtpTime) {
      if seconds == t.seconds then fractional > t.fractional else seconds > t.seconds
    }
  }

  /** The order on times is the order on ticks. */
  lemma {:induction false} AfterMeansMoreTicks(a: NtpTime, b: NtpTime)
    ensures a.After(b) <==> a.Ticks() > b.Ticks()
    ensures a == b <==> a.Ticks() == b.Ticks()
  {}

  /** The span from one time to a later one. */
  function Elapsed(later: NtpTime, earlier: NtpTime): (span: NtpTime)
    requires !earlier.After(later)
    ensures span.Ticks() == later.Ticks() - earlier.Ticks()
  {
    if later.fractional >= earlier.fractional then
      NtpTime(later.seconds - earlier.seconds, later.fractional - earlier.fractional)
    else
      NtpTime(later.seconds - earlier.seconds - 1, later.fractional - earlier.fractional + 0x1_0000_0000)
  }

  /** The milliseconds that the code makes of a span, in 32 bits. */
  function MillisOf(span: NtpTime): Word {
    U32(U32(span.seconds * 1000) + span.fractional / 4294967)
  }

  lemma {:induction false} NoMillisInNoTime(span: NtpTime)
    requires span == NtpTime(0, 0)
    ensures MillisOf(span) == 0
  {}

  function Negate32(m: Word): Word { if m == 0 then 0 else 0x1_0000_0000 - m }

  /** What operator- computes: the milliseconds elapsed, or their negation in 32 bits
      without a sign. */
  function Difference(lhs: NtpTime, rhs: NtpTime): Word {
    if rhs.After(lhs) then Negate32(MillisOf(Elapsed(rhs, lhs))) else MillisOf(Elapsed(lhs, rhs))
  }

  /** A span, with the borrow of 32-bit subtraction. */
  lemma {:induction false} ElapsedWraps(later: NtpTime, earlier: NtpTime)
    requires !earlier.After(later)
    ensures var s, f := U32(later.seconds - earlier.seconds), U32(later.fractional - earlier.fractional);
      Elapsed(later, earlier) ==
        if later.fractional > earlier.fractional then NtpTime(s, f)
        else if later.fractional == earlier.fractional then NtpTime(s, 0)
        else NtpTime(U32(s - 1), f)
    ensures later.fractional == earlier.fractional ==> U32(later.fractional - earlier.fractional) == 0
  {
    hide U32;
    var s: int := later.seconds - earlier.seconds;
    WrapOnce(s);
    WrapOnce(later.fractional - earlier.fractional);
    if later.fractional < earlier.fractional {
      WrapOnce(s - 1);
    }
  }

  /** Whatever the two times: the whole seconds between them by a thousand and the rest by
      4294967 ticks, in 32 bits; negated in 32 bits when the second is later. */
  lemma {:induction false} DifferenceIsExact(lhs: NtpTime, rhs: NtpTime)
    ensures var ticks := (lhs.seconds - rhs.seconds) * 0x1_0000_0000 + (lhs.fractional - rhs.fractional);
      && (ticks >= 0 ==>
            Difference(lhs, rhs) == (ticks / 0x1_0000_0000 * 1000 + ticks % 0x1_0000_0000 / 4294967) % 0x1_0000_0000)
      && (ticks < 0 ==>
            (Difference(lhs, rhs) + (-ticks / 0x1_0000_0000 * 1000 + -ticks % 0x1_0000_0000 / 4294967)) % 0x1_0000_0000
            == 0)
  {
    var ticks := (lhs.seconds - rhs.seconds) * 0x1_0000_0000 + (lhs.fractional - rhs.fractional);
    AfterMeansMoreTicks(rhs, lhs);
    if ticks >= 0 {
      MillisOfTicks(Elapsed(lhs, rhs), ticks);
    } else {
      var span := Elapsed(rhs, lhs);
      MillisOfTicks(span, -ticks);
      NegationWraps(span.seconds * 1000 + span.fractional / 4294967);
    }
    hide MillisOf, Elapsed;
  }

  lemma {:induction false} NegationWraps(m: int)
    ensures (Negate32(m % 0x1_0000_0000) + m) % 0x1_0000_0000 == 0
  {}

  lemma {:induction false} MillisOfTicks(span: NtpTime, ticks: int)
    requires ticks == span.Ticks()
    ensures span.seconds == ticks / 0x1_0000_0000 && span.fractional == ticks % 0x1_0000_0000
    ensures MillisOf(span) == (span.seconds * 1000 + span.fractional / 4294967) % 0x1_0000_0000
  {
    U32OfSum(span.seconds * 1000, span.fractional / 4294967);
  }

  /** operator- of two times.  The negation of the second branch happens in 32 bits
      before the result is widened to a signed number. */
  method Subtract(lhs: NtpTime, rhs: NtpTime) returns (msResult: int)
    ensures msResult == Difference(lhs, rhs)
  {
    hide MillisOf, U32, Elapsed;
    if rhs.After(lhs) {
      ElapsedWraps(rhs, lhs);
    } else {
      ElapsedWraps(lhs, rhs);
    }
    var result := NtpTime(0, 0);
    if lhs == rhs {
      NoMillisInNoTime(Elapsed(lhs, rhs));
      return 0;
    }
    if lhs.After(rhs) {
      result := result.(seconds := U32(lhs.seconds - rhs.seconds));
      if lhs.fractional > rhs.fractional {
        result := result.(fractional := U32(lhs.fractional - rhs.fractional));
      } else if lhs.fractional < rhs.fractional {
        result := NtpTime(U32(result.seconds - 1), U32(lhs.fractional - rhs.fractional));
      } else {
        result := result.(fractional := 0);
      }
      assert result == Elapsed(lhs, rhs);
      msResult := MillisOf(result);
    } else {
      result := result.(seconds := U32(rhs.seconds - lhs.seconds));
      if rhs.fractional >= lhs.fractional {
        result := result.(fractional := U32(rhs.fractional - lhs.fractional));
      } else {
        result := NtpTime(U32(result.seconds - 1), U32(rhs.fractional - lhs.fractional));
      }
      assert result == Elapsed(rhs, lhs);
      var ms: int := MillisOf(result);
      WrapOnce(0 - ms);
      msResult := U32(0 - ms);
    }
  }

  /** The span that a number of milliseconds is taken for. */
  function SpanOf(msec: Word): NtpTime { NtpTime(msec / 1000, msec % 1000 * 4294967) }

  /** Addition with a carry; the seconds wrap. */
  function Plus(t: NtpTime, span: NtpTime): NtpTime {
    if t.fractional + span.fractional < 0x1_0000_0000 then
      NtpTime(U32(t.seconds + span.seconds), t.fractional + span.fractional)
    else
      NtpTime(U32(t.seconds + span.seconds + 1), t.fractional + span.fractional - 0x1_0000_0000)
  }

  /** Addition with a carry is addition of ticks, up to the wrap of the clock. */
  lemma {:induction false} PlusAddsTicks(t: NtpTime, span: NtpTime)
    ensures var sum := t.Ticks() + span.Ticks();
      Plus(t, span).Ticks() == if sum < 0x1_0000_0000_0000_0000 then sum else sum - 0x1_0000_0000_0000_0000
  {
    hide U32;
    WrapOnce(t.seconds + span.seconds);
    WrapOnce(t.seconds + span.seconds + 1);
  }

  /** operator+ with a number of milliseconds: the two-sided test finds every carry. */
  method AddMs(lhs: NtpTime, msec: Word) returns (result: NtpTime)
    ensures result == Plus(lhs, SpanOf(msec))
  {
    var delayFrac := U32(msec % 1000 * 4294967);
    assert delayFrac == SpanOf(msec).fractional;
    WrapOnce(lhs.fractional + delayFrac);
    U32OfSum(lhs.seconds + msec / 1000, 1);
    hide U32;
    result := NtpTime(U32(lhs.seconds + msec / 1000), U32(lhs.fractional + delayFrac));
    if lhs.fractional > result.fractional && delayFrac > result.fractional {
      result := result.(seconds := U32(result.seconds + 1));
    }
  }

  lemma {:induction false} U32OfSum(a: int, b: int)
    ensures U32(U32(a) + b) == U32(a + b)
  {}

  // ----- What a difference is worth -----

  /** The span's milliseconds fit in 32 bits: about 49 days. */
  predicate InRange(span: NtpTime) { (span.seconds + 1) * 1000 < 0x1_0000_0000 }

  /** Within the range the result is the true number of whole milliseconds, or one more. */
  lemma {:induction false} MillisIsFloorOrOneMore(span: NtpTime)
    requires InRange(span)
    ensures span.Ticks() * 1000 / 0x1_0000_0000 <= MillisOf(span) <= span.Ticks() * 1000 / 0x1_0000_0000 + 1
  {
    var s: int, f: int := span.seconds, span.fractional;
    assert span.Ticks() * 1000 == s * 1000 * 0x1_0000_0000 + f * 1000;
    WholePlus(s * 1000, f * 1000);
    FractionMillis(f);
    InRangeIsSum(span);
    hide MillisOf, NtpTime.Ticks;
  }

  lemma {:induction false} WholePlus(q: int, r: int)
    ensures (q * 0x1_0000_0000 + r) / 0x1_0000_0000 == q + r / 0x1_0000_0000
  {}

  lemma {:induction false} FractionMillis(f: int)
    requires 0 <= f < 0x1_0000_0000
    ensures f / 4294967 - 1 <= f * 1000 / 0x1_0000_0000 <= f / 4294967 <= 1000
  {
    var m := f / 4294967;
    assert m * 4294967 <= f < m * 4294967 + 4294967;
  }

  lemma {:induction false} InRangeIsSum(span: NtpTime)
    requires InRange(span)
    ensures MillisOf(span) == span.seconds * 1000 + span.fractional / 4294967
    ensures span.fractional / 4294967 <= 1000
  {
    FractionMillis(span.fractional);
    WrapOnce(span.seconds * 1000);
    WrapOnce(span.seconds * 1000 + span.fractional / 4294967);
  }

  /** A longer span never gives fewer milliseconds. */
  lemma {:induction false} MillisIsMonotone(a: NtpTime, b: NtpTime)
    requires !a.After(b) && InRange(b)
    ensures MillisOf(a) <= MillisOf(b)
  {
    hide MillisOf;
    InRangeIsSum(a);
    InRangeIsSum(b);
    assert a.seconds == b.seconds ==> a.fractional / 4294967 <= b.fractional / 4294967;
  }

  /** Swapping the operands negates the result in 32 bits; as a signed number it does so
      only when the result is zero. */
  lemma {:induction false} SwappingNegates(a: NtpTime, b: NtpTime)
    ensures Difference(a, b) == Negate32(Difference(b, a))
    ensures Difference(a, b) == -(Difference(b, a) as int) <==> Difference(a, b) == 0
  {
    hide MillisOf;
    assert a != b ==> (a.After(b) <==> !b.After(a));
    Negate32IsNegation(Difference(b, a));
    if a == b {
      NoMillisInNoTime(Elapsed(a, b));
    }
  }

  /** That is when the milliseconds of the span are a multiple of 2^32; for times no
      further apart than 49 days, when they are less than a millisecond apart. */
  lemma {:induction false} SwappingIsExact(a: NtpTime, b: NtpTime)
    requires a.After(b)
    ensures var span := Elapsed(a, b);
      Difference(b, a) == -(Difference(a, b) as int) <==>
        (span.seconds * 1000 + span.fractional / 4294967) % 0x1_0000_0000 == 0
    ensures InRange(Elapsed(a, b)) ==>
      (Difference(b, a) == -(Difference(a, b) as int) <==> a.Ticks() - b.Ticks() < 4294967)
  {
    SwappingNegates(b, a);
    var span := Elapsed(a, b);
    U32OfSum(span.seconds * 1000, span.fractional / 4294967);
    if InRange(span) {
      InRangeIsSum(span);
      ShortSpan(span);
    }
    hide Elapsed, Negate32, InRange;
  }

  lemma {:induction false} ShortSpan(span: NtpTime)
    ensures span.Ticks() < 4294967 <==> span.seconds * 1000 + span.fractional / 4294967 == 0
  {}

  lemma {:induction false} Negate32IsNegation(m: Word)
    ensures Negate32(Negate32(m)) == m
    ensures Negate32(m) == -(m as int) <==> m == 0
  {}

  /** One second apart: 1000 one way, 2^32 - 1000 the other. */
  lemma {:induction false} SwappingOneSecond()
    ensures Difference(NtpTime(1, 0), NtpTime(0, 0)) == 1000
    ensures Difference(NtpTime(0, 0), NtpTime(1, 0)) == 4294966296
  {
    assert MillisOf(NtpTime(1, 0)) == 1000;
  }

  // ----- Adding milliseconds and taking them off -----

  lemma {:induction false} MillisOfSpanOf(msec: Word)
    ensures MillisOf(SpanOf(msec)) == msec
  {
    assert msec % 1000 * 4294967 / 4294967 == msec % 1000;
  }

  /** The complement of a span, seen through 32-bit milliseconds, is its negation: the
      296 ticks that a second has left over do not add up to a millisecond. */
  lemma {:induction false} ComplementNegates(msec: Word, span: NtpTime)
    requires msec > 0 && span.Ticks() + SpanOf(msec).Ticks() == 0x1_0000_0000_0000_0000
    ensures MillisOf(span) == 0x1_0000_0000 - msec
  {
    var q, r := msec / 1000, msec % 1000;
    if r == 0 {
      assert span == NtpTime(0x1_0000_0000 - q, 0);
      assert span.seconds * 1000 == 999 * 0x1_0000_0000 + (0x1_0000_0000 - msec);
    } else {
      assert span == NtpTime(0xFFFF_FFFF - q, 0x1_0000_0000 - r * 4294967);
      assert span.fractional == (1000 - r) * 4294967 + 296;
      assert span.fractional / 4294967 == 1000 - r;
      assert span.seconds * 1000 + (1000 - r) == 999 * 0x1_0000_0000 + (0x1_0000_0000 - msec);
    }
  }

  /** (t + msec) - t is msec for every time and every number of milliseconds, also when
      the seconds overflow. */
  lemma {:induction false} AddThenSubtract(t: NtpTime, msec: Word)
    ensures Difference(Plus(t, SpanOf(msec)), t) == msec
  {
    var span := SpanOf(msec);
    var u := Plus(t, span);
    PlusAddsTicks(t, span);
    MillisOfSpanOf(msec);
    AfterMeansMoreTicks(t, u);
    if t.Ticks() + span.Ticks() < 0x1_0000_0000_0000_0000 {
      AfterMeansMoreTicks(Elapsed(u, t), span);
    } else if msec > 0 {
      ComplementNegates(msec, Elapsed(t, u));
    }
  }
}
