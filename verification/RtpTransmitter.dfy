/** The sending half of an RTP session (rtp/RtpTransmitter.cxx): the numbering of packets,
    and the uniform stream that transmitRaw puts on the wire. */
module Transmitter {
  import opened Options
  import opened SerialArithmetic
  import opened JitterQueue
  import opened UniformStream

  /** A packet as the application hands it over: a field already set is kept. */
  datatype Outgoing = Outgoing(seqNo: Option<SeqNumber>, time: Option<Timestamp>, payload: seq<bv8>)

  lemma {:induction false} NextTimestamp(time0: int, sampleSize: int, u: int)
    ensures Time32(Time32(MediaTimeAt(time0, sampleSize, u)) + sampleSize)
      == Time32(MediaTimeAt(time0, sampleSize, u + 1))
  {
    assert sampleSize * (u + 1) == sampleSize * u + sampleSize;
    TimeShifts(MediaTimeAt(time0, sampleSize, u), sampleSize);
  }

  lemma {:induction false} NextNumber(prev: int, last: int)
    requires Seq16(prev) == Seq16(last)
    ensures Seq16(prev + 1) == Seq16(last + 1)
    ensures Seq16(Seq16(last + 1)) == Seq16(last + 1)
  {
    SeqShifts(prev, 1);
    SeqShifts(last, 1);
  }

  lemma {:induction false} NumberIsStored(n: int)
    ensures Seq16(n % 0x1_0000_0000) == Seq16(n)
  {
    var q, r := n / 0x1_0000_0000, n % 0x1_0000_0000;
    assert n == r + 0x1_0000 * (0x1_0000 * q);
    WholeTurns(r, 0x1_0000 * q);
  }

  lemma {:induction false} WholeTurns(r: int, k: int)
    ensures Seq16(r + 0x1_0000 * k) == Seq16(r)
  {
    var q := r / 0x1_0000;
    assert r + 0x1_0000 * k == 0x1_0000 * (q + k) + r % 0x1_0000;
  }

  class RtpTransmitter {
    var sampleSize: int
    var prevSequence: int
    var prevRtpTime: Timestamp
    var packetSent: nat
    var payloadSent: nat

    /** The index of the last packet sent, and the media time of index 0. */
    ghost var lastIndex: int
    ghost var time0: int
    /** The payloads sent by transmitRaw, and the index before the first of them. */
    ghost var sent: seq<seq<bv8>>
    ghost const firstIndex: int

    /** The stream sent so far; an index not sent yet has an arbitrary payload. */
    ghost function Sent(filler: seq<bv8>): Stream
      reads this
    {
      var (base, s) := (firstIndex, sent);
      Stream(time0, sampleSize, u => if base < u <= base + |s| then s[u - base - 1] else filler)
    }

    /** Only transmitRaw has been used: the fields are those of the stream's last packet. */
    ghost predicate OnStream()
      reads this
    {
      && lastIndex == firstIndex + |sent|
      && Seq16(prevSequence) == Seq16(lastIndex)
      && prevRtpTime == Time32(MediaTimeAt(time0, sampleSize, lastIndex))
    }

    constructor (samplesize: int, seedSequence: nat, seedRtpTime: Timestamp)
      requires seedSequence < 0x1_0000_0000
      ensures OnStream() && sent == [] && sampleSize == samplesize
      ensures prevSequence == seedSequence && prevRtpTime == seedRtpTime
    {
      sampleSize := samplesize;
      prevRtpTime := seedRtpTime;
      prevSequence := seedSequence;
      packetSent, payloadSent := 0, 0;
      lastIndex, firstIndex, sent := seedSequence, seedSequence, [];
      time0 := seedRtpTime - samplesize * seedSequence;
    }

    /** Numbers a packet and sends it.  An event packet does not move the media clock. */
    method Transmit(pkt: Outgoing, eventFlag: bool) returns (wire: Packet)
      modifies this`prevSequence, this`prevRtpTime, this`packetSent, this`payloadSent
      ensures wire.payload == pkt.payload
      ensures wire.seqNo == match pkt.seqNo case Some(n) => n case None => Seq16(old(prevSequence) + 1)
      ensures wire.time == match pkt.time case Some(t) => t case None => Time32(old(prevRtpTime) + sampleSize)
      ensures prevSequence == wire.seqNo && packetSent == old(packetSent) + 1
      ensures prevRtpTime == if eventFlag then old(prevRtpTime) else wire.time
      ensures payloadSent == old(payloadSent) + if eventFlag then 0 else |pkt.payload|
    {
      hide Seq16, Time32;
      wire := Packet(0, 0, pkt.payload);
      if pkt.time == None {
        wire := wire.(time := Time32(prevRtpTime + sampleSize));
      } else {
        wire := wire.(time := pkt.time.value);
      }
      if pkt.seqNo == None {
        // The number is 32 bits wide until it is stored in the 16 bits of the header.
        NumberIsStored(prevSequence + 1);
        wire := wire.(seqNo := Seq16((prevSequence + 1) % 0x1_0000_0000));
      } else {
        wire := wire.(seqNo := pkt.seqNo.value);
      }
      packetSent := packetSent + 1;
      prevSequence := wire.seqNo;
      if !eventFlag {
        payloadSent := payloadSent + |pkt.payload|;
        prevRtpTime := wire.time;
      }
    }

    /** Sends one payload as the next packet of the stream. */
    method TransmitRaw(data: seq<bv8>) returns (wire: Packet)
      requires OnStream()
      modifies this`prevSequence, this`prevRtpTime, this`packetSent, this`payloadSent, this`sent, this`lastIndex
      ensures OnStream() && sent == old(sent) + [data] && lastIndex == old(lastIndex) + 1
      ensures wire == Packet(Seq16(lastIndex), Time32(MediaTimeAt(time0, sampleSize, lastIndex)), data)
    {
      hide MediaTimeAt, Seq16, Time32;
      NextNumber(prevSequence, lastIndex);
      NextTimestamp(time0, sampleSize, lastIndex);
      wire := Transmit(Outgoing(None, None, data), false);
      sent := sent + [data];
      lastIndex := lastIndex + 1;
    }

    /** The i-th packet that transmitRaw sent is the one its index has in the stream that
        the receiving end assumes. */
    lemma {:induction false} SentPacketIsOnStream(filler: seq<bv8>, i: nat)
      requires i < |sent|
      ensures var u := firstIndex + 1 + i;
        Sent(filler).PacketAt(u) == Packet(Seq16(u), Time32(MediaTimeAt(time0, sampleSize, u)), sent[i])
    {}

    /** With payloads of acceptable size that stream is one the receiver can follow. */
    lemma {:induction false} SentIsUniform(filler: seq<bv8>, c: Config)
      requires 0 < sampleSize == c.sampleSize < SAMPLE_SIZE_LIMIT && 0 < c.size <= JITTER_BUFFER_MAX
      requires 0 < |filler| <= 1012 && forall s :: s in sent ==> 0 < |s| <= 1012
      ensures Sent(filler).Uniform(c)
    {}
  }
}
