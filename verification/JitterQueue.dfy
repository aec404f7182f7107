/** What the jitter buffer of rtp/RtpReceiver.cxx computes, stated on a queue of frames
    instead of a ring of slots.  The oldest frame is first. */
module JitterQueue {
  import opened Options
  import opened SerialArithmetic

  datatype Packet = Packet(seqNo: SeqNumber, time: Timestamp, payload: seq<bv8>)

  datatype Frame =
    | Silence(seqNo: SeqNumber, time: Timestamp)
    | Voice(seqNo: SeqNumber, time: Timestamp, payload: seq<bv8>)

  /** Packets with no payload, or with too much, are refused. */
  predicate ValidSize(p: Packet) { 0 < |p.payload| <= 1012 }

  function VoiceOf(p: Packet): Frame { Voice(p.seqNo, p.time, p.payload) }

  /** The most slots that a ring can have. */
  const JITTER_BUFFER_MAX := 1024

  /** cur_max_jbs, and the RTP time that one packet covers. */
  datatype Config = Config(size: nat, sampleSize: int)

  /** Where the slots appended since the last clear have gone. */
  datatype Ledger = Ledger(appended: nat, played: nat, discarded: nat, overrun: nat)

  const NoEntries := Ledger(0, 0, 0, 0)

  datatype JbState = JbState(queue: seq<Frame>, ledger: Ledger) {
    predicate Fits(c: Config) { |queue| <= c.size }

    /** Appends one frame; a full queue loses its oldest. */
    function Push(f: Frame, c: Config): (s: JbState)
      requires Fits(c) && 0 < c.size
      ensures s.Fits(c) && s.queue != [] && s.Last() == f
    {
      if |queue| == c.size then
        JbState(queue[1..] + [f], ledger.(appended := ledger.appended + 1, overrun := ledger.overrun + 1))
      else
        JbState(queue + [f], ledger.(appended := ledger.appended + 1))
    }

    function Last(): Frame
      requires queue != []
    {
      queue[|queue| - 1]
    }

    /** How far p is ahead of the newest frame. */
    function Ahead(p: Packet): int
      requires queue != []
    {
      SeqDifference(p.seqNo, Last().seqNo)
    }

    /** How many frames back from the end p belongs, 1 being the newest frame. */
    function SlotsBack(p: Packet): int
      requires queue != []
    {
      SeqDifference(Last().seqNo, p.seqNo) + 1
    }
  }

  const Empty := JbState([], NoEntries)

  /** Half the buffer less one is filled with silence before a first packet. */
  function PrimeCount(c: Config): nat {
    if c.size / 2 > 1 then c.size / 2 - 1 else 0
  }

  function PrimeFrame(p: Packet, c: Config, back: nat): Frame {
    Silence(Seq16(p.seqNo - back), Time32(p.time - c.sampleSize * back))
  }

  function Prime(s: JbState, p: Packet, c: Config, n: nat): (r: JbState)
    requires s.Fits(c) && 0 < c.size
    ensures r.Fits(c) && |r.queue| <= |s.queue| + n
    decreases n
  {
    if n == 0 then s else Prime(s.Push(PrimeFrame(p, c, n), c), p, c, n - 1)
  }

  /** One packet's worth of media time after the newest frame and still before p. */
  predicate NeedsPatch(s: JbState, p: Packet, c: Config)
    requires s.queue != []
  {
    TimeGreater(Time32(p.time - c.sampleSize), s.Last().time) && s.Ahead(p) > 1
  }

  function PatchFrame(s: JbState, c: Config): Frame
    requires s.queue != []
  {
    Silence(Seq16(s.Last().seqNo + 1), Time32(s.Last().time + c.sampleSize))
  }

  /** Fills the gap before p with silence while both the sequence number and the
      timestamp of p show one. */
  function Patch(s: JbState, p: Packet, c: Config): (r: JbState)
    requires s.Fits(c) && s.queue != []
    ensures r.Fits(c) && r.queue != []
    decreases if s.Ahead(p) > 0 then s.Ahead(p) else 0
  {
    if NeedsPatch(s, p, c) then
      SeqDifferenceSteps(p.seqNo, s.Last().seqNo);
      Patch(s.Push(PatchFrame(s, c), c), p, c)
    else
      s
  }

  lemma {:induction false} PatchStep(s: JbState, p: Packet, c: Config)
    requires s.Fits(c) && s.queue != [] && NeedsPatch(s, p, c)
    ensures Patch(s, p, c) == Patch(s.Push(PatchFrame(s, c), c), p, c)
    ensures s.Push(PatchFrame(s, c), c).Ahead(p) == s.Ahead(p) - 1
  {
    SeqDifferenceSteps(p.seqNo, s.Last().seqNo);
  }

  /** p is so far ahead that the buffer starts afresh. */
  predicate IsEarly(s: JbState, p: Packet, c: Config) {
    s.queue != [] && s.Ahead(p) > c.size
  }

  function Cleared(s: JbState, p: Packet, c: Config): JbState {
    if IsEarly(s, p, c) then Empty else s
  }

  /** Everything that happens before p itself is written. */
  function Prepared(s: JbState, p: Packet, c: Config): (r: JbState)
    requires s.Fits(c) && 0 < c.size
    ensures r.Fits(c)
  {
    var s0 := Cleared(s, p, c);
    if s0.queue == [] then Prime(s0, p, c, PrimeCount(c))
    else if SeqGreater(p.seqNo, s0.Last().seqNo) then Patch(s0, p, c)
    else s0
  }

  /** p is appended, rather than written over a frame already queued or dropped. */
  predicate IsAppended(s: JbState, p: Packet, c: Config) {
    var s0 := Cleared(s, p, c);
    s0.queue == [] || SeqGreater(p.seqNo, s0.Last().seqNo)
  }

  function WriteLate(s: JbState, p: Packet): JbState
    requires s.queue != [] && !SeqGreater(p.seqNo, s.Last().seqNo)
  {
    var back := s.SlotsBack(p);
    if back > |s.queue| then s else s.(queue := s.queue[|s.queue| - back := VoiceOf(p)])
  }

  /** The arrival of one packet. */
  function Receive(s: JbState, p: Packet, c: Config): (r: JbState)
    requires s.Fits(c) && 0 < c.size
    ensures r.Fits(c)
  {
    if ValidSize(p) then Store(s, p, c) else s
  }

  function Store(s: JbState, p: Packet, c: Config): (r: JbState)
    requires s.Fits(c) && 0 < c.size
    ensures r.Fits(c)
  {
    var s1 := Prepared(s, p, c);
    if IsAppended(s, p, c) then s1.Push(VoiceOf(p), c) else WriteLate(s1, p)
  }

  /** The arrivals that the ring cannot follow: in a full ring the packet is written
      over the oldest slot, and whether the play position must then move is decided
      by comparing that slot's sequence number with the packet's.  The comparison
      misleads when an appended packet repeats the oldest number, and when a late
      packet does not. */
  predicate Misleads(s: JbState, p: Packet, c: Config)
    requires s.Fits(c) && 0 < c.size
  {
    var q := Prepared(s, p, c).queue;
    ValidSize(p) && |q| == c.size &&
    if IsAppended(s, p, c) then
      q[0].seqNo == p.seqNo
    else
      JbState(q, s.ledger).SlotsBack(p) == c.size && q[0].seqNo != p.seqNo
  }

  /** The three ways to store a packet, and when each misleads the ring: a first packet
      never does, nor does any when the ring has one slot. */
  lemma {:induction false} WaysToStore(s: JbState, p: Packet, c: Config)
    requires s.Fits(c) && 0 < c.size && ValidSize(p)
    ensures var s0 := Cleared(s, p, c);
      if s0.queue == [] then
        !Misleads(s, p, c) && Store(s, p, c) == Prime(s0, p, c, PrimeCount(c)).Push(VoiceOf(p), c)
      else if SeqGreater(p.seqNo, s0.Last().seqNo) then
        var s1 := Patch(s0, p, c);
        && Store(s, p, c) == s1.Push(VoiceOf(p), c)
        && (Misleads(s, p, c) <==> |s1.queue| == c.size && s1.queue[0].seqNo == p.seqNo)
      else
        && Store(s, p, c) == WriteLate(s0, p)
        && (Misleads(s, p, c) <==>
              s0.SlotsBack(p) == c.size == |s0.queue| && s0.queue[0].seqNo != p.seqNo)
    ensures Misleads(s, p, c) ==> c.size >= 2
  {
    assert c.size == 1 ==> !Misleads(s, p, c);
  }

  /** The oldest frame is a silence that is skipped to bound the delay. */
  predicate SkipsSilence(q: seq<Frame>, c: Config)
    requires q != []
  {
    q[0].Silence? && c.size >= 2 && |q| > c.size / 2 + 1
  }

  /** One playout: the frame handed out, if any. */
  function Play(s: JbState, c: Config): (r: (JbState, Option<Frame>))
    requires s.Fits(c)
    ensures r.0.Fits(c)
  {
    if s.queue == [] then
      (s, None)
    else
      var l := s.ledger.(played := s.ledger.played + 1);
      if SkipsSilence(s.queue, c) then
        (JbState(s.queue[2..], l.(discarded := l.discarded + 1)), Some(s.queue[1]))
      else
        (JbState(s.queue[1..], l), Some(s.queue[0]))
  }
}
