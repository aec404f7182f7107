/** Wrap-around comparison of RTP sequence numbers and timestamps (rtp/rtpTools.cxx).
    An unwrapped index is an unbounded `int`; what travels in a packet is the index
    reduced to 16 bits, or the media time reduced to 32 bits. */
module SerialArithmetic {

  // The constants that the code compares against.  The time constant is the
  // largest 32-bit value, one less than the number of timestamps.
  const RTP_SEQ_MOD := 0x1_0000
  const RTP_TIME_MOD := 0xFFFF_FFFF

  type SeqNumber = x: int | 0 <= x < 0x1_0000
  type Timestamp = x: int | 0 <= x < 0x1_0000_0000

  function Seq16(u: int): SeqNumber { u % 0x1_0000 }
  function Time32(t: int): Timestamp { t % 0x1_0000_0000 }

  /** a - b with wrapping taken into account. */
  function SeqDifference(a: nat, b: nat): int
    requires a <= RTP_SEQ_MOD && b <= RTP_SEQ_MOD
  {
    if a == b then
      0
    else if a > b then
      if a - b > RTP_SEQ_MOD / 2 then -((RTP_SEQ_MOD - a) + b) else a - b
    else
      if b - a > RTP_SEQ_MOD / 2 then a + (RTP_SEQ_MOD - b) else -(b - a)
  }

  predicate SeqGreater(a: nat, b: nat)
    requires a <= RTP_SEQ_MOD && b <= RTP_SEQ_MOD
  {
    SeqDifference(a, b) > 0
  }

  predicate TimeGreater(a: nat, b: nat)
    requires a <= RTP_TIME_MOD && b <= RTP_TIME_MOD
  {
    if a == b then
      false
    else if a > b then
      !(a - b > RTP_TIME_MOD / 2)
    else
      b - a > RTP_TIME_MOD / 2
  }

  /** The result is the representative of a - b nearest to zero, and swapping the
      arguments negates it. */
  lemma {:induction false} SeqDifferenceIsNearest(a: SeqNumber, b: SeqNumber)
    ensures -(0x8000) <= SeqDifference(a, b) <= 0x8000
    ensures Seq16(SeqDifference(a, b)) == Seq16(a - b)
    ensures SeqDifference(b, a) == -SeqDifference(a, b)
  {}

  /** The signed distance between two indices is recovered from what the packets
      carry when it is below half the sequence space; at exactly half it is recovered
      just when the residues are ordered as the indices are. */
  lemma {:induction false} SeqDifferenceRecovers(u: int, v: int)
    requires -(0x8000) <= u - v <= 0x8000
    ensures SeqDifference(Seq16(u), Seq16(v)) == u - v
       <==> (-(0x8000) < u - v < 0x8000 || (u > v <==> Seq16(u) > Seq16(v)))
  {}

  /** Moving the older number one step towards the newer one shrinks the distance
      by exactly one, also across the wrap. */
  lemma {:induction false} SeqDifferenceSteps(a: SeqNumber, b: SeqNumber)
    requires SeqDifference(a, b) > 0
    ensures SeqDifference(a, Seq16(b + 1)) == SeqDifference(a, b) - 1
  {}

  /** Of two different timestamps exactly one is the greater; of two half the space apart,
      the smaller number. */
  lemma {:induction false} TimeGreaterIsTotal(a: Timestamp, b: Timestamp)
    ensures a != b ==> (TimeGreater(a, b) <==> !TimeGreater(b, a))
    ensures !TimeGreater(a, a)
    ensures a - b == 0x8000_0000 ==> TimeGreater(b, a)
  {}

  /** Media times less than half the timestamp space apart compare as their
      timestamps do. */
  lemma {:induction false} TimeGreaterRecovers(s: int, t: int)
    requires -(0x8000_0000) < s - t < 0x8000_0000
    ensures TimeGreater(Time32(s), Time32(t)) <==> s > t
  {}

  lemma {:induction false} TimeShifts(t: int, d: int)
    ensures Time32(Time32(t) + d) == Time32(t + d)
  {}

  lemma {:induction false} SeqShifts(u: int, d: int)
    ensures Seq16(Seq16(u) + d) == Seq16(u + d)
  {}
}
