/** The receiving half of an RTP session: the ring of slots that rtp/RtpReceiver.cxx
    updates in place, proved to behave as the queue of module JitterQueue. */
module JitterBuffer {
  import opened SerialArithmetic
  import opened JitterQueue

  /** One slot: a null pointer, or the record it points to.  A slot filled with
      silence keeps whatever payload it held before. */
  datatype Slot =
    | Null
    | RtpData(inUse: bool, silenceFill: bool, seqNo: SeqNumber, time: Timestamp, payload: seq<bv8>)
  {
    predicate InUse() { RtpData? && inUse }
  }

  const NewRtpData := RtpData(false, false, 0, 0, [])

  function FrameOf(s: Slot): Frame
    requires s.RtpData?
  {
    if s.silenceFill then Silence(s.seqNo, s.time) else Voice(s.seqNo, s.time, s.payload)
  }

  /** The record of a packet received. */
  function VoiceSlot(pkt: Packet): (s: Slot)
    ensures s.InUse() && FrameOf(s) == VoiceOf(pkt)
  {
    RtpData(true, false, pkt.seqNo, pkt.time, pkt.payload)
  }

  lemma {:induction false} SilentFrame(s: Slot)
    requires s.RtpData? && s.silenceFill
    ensures FrameOf(s) == Silence(s.seqNo, s.time)
  {}

  // ----- The slots in use, as values -----

  function Wrap(i: nat, size: nat): (j: nat)
    requires i < 2 * size
    ensures j < size
  {
    if i >= size then i - size else i
  }

  /** How many slots after p the slot i comes, going round. */
  function Offset(i: nat, p: nat, size: nat): (k: nat)
    requires i < size && p < size
    ensures k < size && Wrap(p + k, size) == i
  {
    if i >= p then i - p else i + size - p
  }

  /** Exactly the count slots from p on are in use. */
  ghost predicate SaneRing(slots: seq<Slot>, p: nat, count: nat)
    requires p < |slots| && count <= |slots|
  {
    forall i :: 0 <= i < |slots| ==> (slots[i].InUse() <==> Offset(i, p, |slots|) < count)
  }

  /** The k-th slot from p on. */
  function SlotAt(slots: seq<Slot>, p: nat, k: nat): Slot
    requires p < |slots| && k < |slots|
  {
    slots[Wrap(p + k, |slots|)]
  }

  /** The slots in use from p on hold the queue q, and no others are in use. */
  ghost predicate HoldsQueue(slots: seq<Slot>, p: nat, q: seq<Frame>)
    requires p < |slots| && |q| <= |slots|
  {
    && SaneRing(slots, p, |q|)
    && forall k :: 0 <= k < |q| ==> SlotAt(slots, p, k).RtpData? && FrameOf(SlotAt(slots, p, k)) == q[k]
  }

  /** How many slots are in use: full and empty differ only in whether the slot at
      inPos is in use. */
  function CountOf(slots: seq<Slot>, inPos: nat, playPos: nat): (n: nat)
    requires inPos < |slots| && playPos < |slots|
    ensures n <= |slots| && Wrap(playPos + n, |slots|) == inPos
  {
    if inPos == playPos then
      if slots[inPos].InUse() then |slots| else 0
    else if inPos < playPos then
      (|slots| - playPos) + inPos
    else
      inPos - playPos
  }

  /** Writing over a slot in use changes that frame alone. */
  lemma {:induction false} WriteWithin(slots: seq<Slot>, inPos: nat, p: nat, q: seq<Frame>, k: nat, s: Slot)
    requires inPos < |slots| && p < |slots| && s.InUse() && k < |q|
    requires |q| == CountOf(slots, inPos, p) && HoldsQueue(slots, p, q)
    ensures var slots' := slots[Wrap(p + k, |slots|) := s];
      && CountOf(slots', inPos, p) == |q|
      && HoldsQueue(slots', p, q[k := FrameOf(s)])
  {}

  /** Releasing the oldest slot removes the first frame. */
  lemma {:induction false} ReleaseOldest(slots: seq<Slot>, inPos: nat, p: nat, q: seq<Frame>, s: Slot)
    requires inPos < |slots| && p < |slots| && !s.InUse() && 0 < |q|
    requires |q| == CountOf(slots, inPos, p) && HoldsQueue(slots, p, q)
    ensures CountOf(slots[p := s], inPos, Wrap(p + 1, |slots|)) == |q| - 1
    ensures HoldsQueue(slots[p := s], Wrap(p + 1, |slots|), q[1..])
  {
    var n := |slots|;
    var p', slots' := Wrap(p + 1, n), slots[p := s];
    forall k | 0 <= k < |q| - 1
      ensures SlotAt(slots', p', k) == SlotAt(slots, p, k + 1)
    {}
  }

  lemma {:induction false} FillFree(slots: seq<Slot>, inPos: nat, p: nat, q: seq<Frame>, s: Slot)
    requires inPos < |slots| && p < |slots| && s.InUse()
    requires |q| == CountOf(slots, inPos, p) < |slots| && HoldsQueue(slots, p, q)
    ensures CountOf(slots[inPos := s], Wrap(inPos + 1, |slots|), p) == |q| + 1
    ensures HoldsQueue(slots[inPos := s], p, q + [FrameOf(s)])
  {
    var slots' := slots[inPos := s];
    forall k | 0 <= k <= |q|
      ensures SlotAt(slots', p, k) == if k == |q| then s else SlotAt(slots, p, k)
    {}
  }

  lemma {:induction false} FillOldest(slots: seq<Slot>, inPos: nat, p: nat, q: seq<Frame>, s: Slot)
    requires inPos < |slots| && p < |slots| && s.InUse()
    requires |q| == CountOf(slots, inPos, p) == |slots| && HoldsQueue(slots, p, q)
    ensures CountOf(slots[inPos := s], Wrap(inPos + 1, |slots|), Wrap(p + 1, |slots|)) == |q|
    ensures HoldsQueue(slots[inPos := s], Wrap(p + 1, |slots|), q[1..] + [FrameOf(s)])
  {
    var n, p', slots' := |slots|, Wrap(p + 1, |slots|), slots[inPos := s];
    assert inPos == p;
    forall k | 0 <= k < n
      ensures SlotAt(slots', p', k) == if k == n - 1 then s else SlotAt(slots, p, k + 1)
    {}
  }

  /** Filling the slot at inPos and stepping on appends to the queue, at the price of
      the oldest frame when there is no room. */
  lemma {:induction false} FillNext(slots: seq<Slot>, inPos: nat, p: nat, q: seq<Frame>, s: Slot)
    requires inPos < |slots| && p < |slots| && s.InUse()
    requires |q| == CountOf(slots, inPos, p) && HoldsQueue(slots, p, q)
    ensures var full := |q| == |slots|;
      var p' := if full then Wrap(p + 1, |slots|) else p;
      var q' := (if full then q[1..] else q) + [FrameOf(s)];
      && CountOf(slots[inPos := s], Wrap(inPos + 1, |slots|), p') == |q'|
      && HoldsQueue(slots[inPos := s], p', q')
  {
    if |q| == |slots| {
      FillOldest(slots, inPos, p, q, s);
    } else {
      FillFree(slots, inPos, p, q, s);
    }
  }

  lemma {:induction false} OnceAround(p: nat, back: nat, n: nat)
    requires p < n && 1 <= back <= n
    ensures Wrap(p + (n - back), n) == p <==> back == n
  {}

  lemma {:induction false} FullIsInUse(slots: seq<Slot>, inPos: nat, p: nat)
    requires inPos < |slots| && p < |slots| && CountOf(slots, inPos, p) == |slots|
    ensures inPos == p && slots[inPos].InUse()
  {}

  /** A full ring whose oldest slot is filled again, once with the play position left
      behind and once with the play position moved on alone: its count is wrong. */
  lemma {:induction false} WrongPlayPosition(slots: seq<Slot>, p: nat, q: seq<Frame>, s: Slot)
    requires p < |slots| && 2 <= |slots| && s.InUse() && |q| == |slots| && HoldsQueue(slots, p, q)
    ensures var slots', next := slots[p := s], Wrap(p + 1, |slots|);
      && !SaneRing(slots', p, CountOf(slots', next, p))
      && !SaneRing(slots', next, CountOf(slots', p, next))
  {
    var slots', next := slots[p := s], Wrap(p + 1, |slots|);
    assert slots'[p].InUse() && Offset(p, next, |slots|) == |slots| - 1 == CountOf(slots', p, next);
    assert Offset(next, p, |slots|) == 1 == CountOf(slots', next, p);
    assert slots[next].InUse() && slots'[next].InUse();
  }

  lemma {:induction false} RemainderOfSmall(k: nat, n: nat)
    requires 0 < n && k <= n
    ensures k % n == if k == n then 0 else k
  {}

  datatype Retrieved =
    | Underrun
    | Retrieved(isSilence: bool, seqNo: SeqNumber, time: Timestamp, payload: seq<bv8>)
  {
    function Frame(): Frame
      requires Retrieved?
    {
      if isSilence then Silence(seqNo, time) else Voice(seqNo, time, payload)
    }
  }

  class RtpReceiver {
    const curMaxJbs: nat
    const jitterBuffer: array<Slot>
    const sampleSize: int
    var inPos: nat
    var playPos: nat
    var invalidPldSize: nat
    /** The queue that the ring stands for. */
    ghost var state: JbState

    ghost predicate Valid()
      reads this
    {
      && 1 <= curMaxJbs <= JITTER_BUFFER_MAX == jitterBuffer.Length
      && inPos < curMaxJbs && playPos < curMaxJbs
    }

    function Slots(): (s: seq<Slot>)
      requires Valid()
      reads this, jitterBuffer
      ensures |s| == curMaxJbs
    {
      jitterBuffer[..curMaxJbs]
    }

    /** getJitterPktsInQueueCount */
    function Count(): (n: nat)
      requires Valid()
      reads this, jitterBuffer
      ensures n <= curMaxJbs
    {
      CountOf(Slots(), inPos, playPos)
    }

    function CalculatePreviousInPos(packetsAgo: nat): (i: nat)
      requires Valid()
      reads this
      ensures i < curMaxJbs
    {
      var tmp := packetsAgo % curMaxJbs;
      if tmp > inPos then curMaxJbs - (tmp - inPos) else inPos - tmp
    }

    ghost predicate Sane()
      requires Valid()
      reads this, jitterBuffer
    {
      SaneRing(Slots(), playPos, Count())
    }

    /** The ring is sane and stands for `state`. */
    ghost predicate Represents()
      reads this, jitterBuffer
    {
      Valid() && |state.queue| == Count() && HoldsQueue(Slots(), playPos, state.queue)
    }

    ghost function Cfg(): Config
    {
      Config(curMaxJbs, sampleSize)
    }

    constructor (samplesize: int, jitterBufferSz: nat)
      requires 1 <= jitterBufferSz <= JITTER_BUFFER_MAX
      ensures Represents() && state == Empty
      ensures curMaxJbs == jitterBufferSz && sampleSize == samplesize
      ensures fresh(jitterBuffer)
    {
      inPos, playPos, invalidPldSize := 0, 0, 0;
      curMaxJbs := jitterBufferSz;
      sampleSize := samplesize;
      jitterBuffer := new Slot[JITTER_BUFFER_MAX](_ => Null);
      state := Empty;
    }

    /** The slot calculatePreviousInPos(k) holds the k-th newest frame. */
    lemma {:induction false} PreviousSlotHolds(k: nat)
      requires Represents() && 1 <= k <= |state.queue|
      ensures CalculatePreviousInPos(k) == Wrap(playPos + (Count() - k), curMaxJbs)
      ensures jitterBuffer[CalculatePreviousInPos(k)].InUse()
      ensures FrameOf(jitterBuffer[CalculatePreviousInPos(k)]) == state.queue[|state.queue| - k]
    {
      RemainderOfSmall(k, curMaxJbs);
      assert SlotAt(Slots(), playPos, Count() - k) == jitterBuffer[CalculatePreviousInPos(k)];
    }

    method IncrementInPos()
      requires Valid()
      modifies this`inPos
      ensures Valid() && inPos == Wrap(old(inPos) + 1, curMaxJbs)
    {
      inPos := inPos + 1;
      if inPos >= curMaxJbs {
        inPos := 0;
      }
    }

    method IncrementPlayPos()
      requires Valid()
      modifies this`playPos
      ensures Valid() && playPos == Wrap(old(playPos) + 1, curMaxJbs)
    {
      playPos := playPos + 1;
      if playPos >= curMaxJbs {
        playPos := 0;
      }
    }

    method PutSlot(idx: nat, slot: Slot)
      requires Valid() && idx < curMaxJbs
      modifies jitterBuffer
      ensures Slots() == old(Slots())[idx := slot]
    {
      jitterBuffer[idx] := slot;
    }

    method ClearJitterBuffer()
      requires Valid()
      modifies this`inPos, this`playPos, this`state, jitterBuffer
      ensures Represents() && state == Empty
    {
      for i := 0 to JITTER_BUFFER_MAX
        invariant Valid()
        invariant forall k :: 0 <= k < i ==> jitterBuffer[k] == Null
      {
        if jitterBuffer[i] != Null {
          jitterBuffer[i] := Null;
        }
      }
      inPos, playPos := 0, 0;
      state := Empty;
    }

    method InsertSilenceRtpData(rtpTime: Timestamp, rtpSeq: SeqNumber)
      requires Represents()
      modifies this`inPos, this`playPos, this`state, jitterBuffer
      ensures Represents() && state == old(state).Push(Silence(rtpSeq, rtpTime), Cfg())
    {
      hide HoldsQueue, SaneRing, CountOf, FrameOf, Wrap, Represents, JbState.Push;
      RepresentsShows();
      var slot := jitterBuffer[inPos];
      if slot == Null {
        slot := NewRtpData;
      }
      ghost var filled := slot.(inUse := true, silenceFill := true, seqNo := rtpSeq, time := rtpTime);
      PushIsHeld(filled);
      SilentFrame(filled);
      ghost var slots, s := Slots()[inPos := filled], state.Push(Silence(rtpSeq, rtpTime), Cfg());
      if slot.inUse {
        if Count() == curMaxJbs {
          IncrementPlayPos();
        }
      }
      slot := slot.(inUse := true, silenceFill := true, seqNo := rtpSeq, time := rtpTime);
      PutSlot(inPos, slot);
      IncrementInPos();
      state := s;
      NowRepresents(slots);
    }

    lemma {:induction false} RepresentsShows()
      requires Represents()
      ensures Valid() && Sane() && |state.queue| == Count() && state.Fits(Cfg())
      ensures Count() == curMaxJbs ==> inPos == playPos && jitterBuffer[inPos].InUse()
    {
      if Count() == curMaxJbs {
        FullIsInUse(Slots(), inPos, playPos);
      }
    }

    lemma {:induction false} NowRepresents(slots: seq<Slot>)
      requires Valid() && slots == Slots() && |state.queue| <= |slots|
      requires |state.queue| == CountOf(slots, inPos, playPos) && HoldsQueue(slots, playPos, state.queue)
      ensures Represents()
    {}

    /** A push, seen on the slots. */
    lemma {:induction false} PushIsHeld(slot: Slot)
      requires Represents() && slot.InUse()
      ensures var s := state.Push(FrameOf(slot), Cfg());
        var p := if Count() == curMaxJbs then Wrap(playPos + 1, curMaxJbs) else playPos;
        && |s.queue| <= curMaxJbs
        && |s.queue| == CountOf(Slots()[inPos := slot], Wrap(inPos + 1, curMaxJbs), p)
        && HoldsQueue(Slots()[inPos := slot], p, s.queue)
    {
      hide HoldsQueue, CountOf, Wrap, FrameOf;
      FillNext(Slots(), inPos, playPos, state.queue, slot);
    }

    /** Writing the packet into the slot moves the play position. */
    ghost predicate StepsOver(pkt: Packet, idx: nat)
      requires Valid() && idx < curMaxJbs
      reads this, jitterBuffer
    {
      && jitterBuffer[idx].InUse() && Count() == curMaxJbs && playPos == idx
      && jitterBuffer[idx].seqNo != pkt.seqNo
    }

    /** A late packet, seen on the slots. */
    lemma {:induction false} LateIsHeld(pkt: Packet, back: nat)
      requires Represents() && 1 <= back <= Count()
      ensures var idx, slot := CalculatePreviousInPos(back), VoiceSlot(pkt);
        var slots, q := Slots()[idx := slot], state.queue[|state.queue| - back := VoiceOf(pkt)];
        && |q| == CountOf(slots, inPos, playPos) && HoldsQueue(slots, playPos, q)
        && (StepsOver(pkt, idx) <==> back == curMaxJbs && !RepeatsOldest(pkt))
        && (curMaxJbs >= 2 && StepsOver(pkt, idx) ==>
              var next := Wrap(idx + 1, curMaxJbs);
              !SaneRing(slots, next, CountOf(slots, inPos, next)))
    {
      hide HoldsQueue, SaneRing, CountOf, FrameOf, Wrap, CalculatePreviousInPos;
      var slot := VoiceSlot(pkt);
      PreviousSlotHolds(back);
      OldestSlotIsFirst();
      WriteWithin(Slots(), inPos, playPos, state.queue, Count() - back, slot);
      if Count() == curMaxJbs {
        FullIsInUse(Slots(), inPos, playPos);
        OnceAround(playPos, back, curMaxJbs);
        if curMaxJbs >= 2 {
          WrongPlayPosition(Slots(), playPos, state.queue, slot);
        }
      }
    }

    /** What appending a packet does to the play position. */
    lemma {:induction false} AppendSteps(pkt: Packet)
      requires Represents()
      ensures StepsOver(pkt, inPos) <==> Count() == curMaxJbs && !RepeatsOldest(pkt)
      ensures RepeatsOldest(pkt) ==> Count() == curMaxJbs
      ensures curMaxJbs >= 2 && RepeatsOldest(pkt) ==>
        var slots, next := Slots()[inPos := VoiceSlot(pkt)], Wrap(inPos + 1, curMaxJbs);
        !SaneRing(slots, playPos, CountOf(slots, next, playPos))
    {
      hide HoldsQueue, SaneRing, CountOf, FrameOf, Wrap;
      if Count() == curMaxJbs {
        FullIsInUse(Slots(), inPos, playPos);
        OldestSlotIsFirst();
        if curMaxJbs >= 2 {
          WrongPlayPosition(Slots(), playPos, state.queue, VoiceSlot(pkt));
        }
      }
    }

    /** Writes a packet into a slot.  In a full ring, writing over the oldest slot makes
        the next one the oldest, unless the packet repeats the number found there. */
    method SetRtpData(pkt: Packet, idx: nat)
      requires Valid() && idx < curMaxJbs
      modifies this`playPos, jitterBuffer
      ensures Valid()
      ensures Slots() == old(Slots())[idx := VoiceSlot(pkt)]
      ensures playPos == if old(StepsOver(pkt, idx)) then Wrap(idx + 1, curMaxJbs) else old(playPos)
    {
      var slot := jitterBuffer[idx];
      if slot == Null {
        slot := NewRtpData;
      }
      if slot.inUse {
        if Count() == curMaxJbs && playPos == idx {
          if slot.seqNo == pkt.seqNo {
            // A duplicate: the play position stays.
          } else {
            IncrementPlayPos();
          }
        }
      }
      slot := slot.(payload := pkt.payload);
      slot := slot.(silenceFill := false, inUse := true, time := pkt.time, seqNo := pkt.seqNo);
      PutSlot(idx, slot);
    }

    /** Appending is a push, except when a full ring's oldest number is repeated. */
    method AppendRtpData(pkt: Packet)
      requires Represents()
      modifies this`inPos, this`playPos, this`state, jitterBuffer
      ensures Valid()
      ensures !old(RepeatsOldest(pkt)) ==> Represents() && state == old(state).Push(VoiceOf(pkt), Cfg())
      ensures curMaxJbs >= 2 && old(RepeatsOldest(pkt)) ==> !Sane()
    {
      hide HoldsQueue, SaneRing, CountOf, FrameOf, Wrap, Represents, JbState.Push, StepsOver, RepeatsOldest;
      RepresentsShows();
      PushIsHeld(VoiceSlot(pkt));
      AppendSteps(pkt);
      ghost var slots, s := Slots()[inPos := VoiceSlot(pkt)], state.Push(VoiceOf(pkt), Cfg());
      SetRtpData(pkt, inPos);
      IncrementInPos();
      state := s;
      if !old(RepeatsOldest(pkt)) {
        NowRepresents(slots);
      }
    }

    ghost predicate RepeatsOldest(pkt: Packet)
      reads this
    {
      0 < |state.queue| == curMaxJbs && state.queue[0].seqNo == pkt.seqNo
    }

    /** Writing a late packet over a queued frame replaces it, except when the frame is
        the oldest of a full ring and has another number. */
    method WriteLateRtpData(pkt: Packet, back: nat)
      requires Represents() && 1 <= back <= Count()
      modifies this`playPos, this`state, jitterBuffer
      ensures Valid()
      ensures !(back == curMaxJbs && !old(RepeatsOldest(pkt))) ==>
        && Represents()
        && state == old(state).(queue := old(state.queue)[|old(state.queue)| - back := VoiceOf(pkt)])
      ensures curMaxJbs >= 2 && back == curMaxJbs && !old(RepeatsOldest(pkt)) ==> !Sane()
    {
      hide HoldsQueue, SaneRing, CountOf, Represents, CalculatePreviousInPos, Wrap, StepsOver, RepeatsOldest;
      RepresentsShows();
      LateIsHeld(pkt, back);
      var idx := CalculatePreviousInPos(back);
      ghost var slots := Slots()[idx := VoiceSlot(pkt)];
      ghost var q := state.queue[|state.queue| - back := VoiceOf(pkt)];
      SetRtpData(pkt, idx);
      if !old(StepsOver(pkt, idx)) {
        state := state.(queue := q);
        NowRepresents(slots);
      }
    }

    /** The self-check that the code runs after every step: it passes exactly when the
        slots in use are the Count() slots from playPos on. */
    method VerifyJbSanity() returns (ok: bool)
      requires Valid()
      ensures ok <==> Sane()
    {
      var cnt := Count();
      if cnt > 0 && !jitterBuffer[playPos].InUse() {
        assert Offset(playPos, playPos, curMaxJbs) == 0;
        assert !Slots()[playPos].InUse();
        return false;
      }
      if cnt == curMaxJbs {
        for q := 0 to cnt
          invariant forall i :: 0 <= i < q ==> jitterBuffer[i].InUse()
        {
          if !jitterBuffer[q].InUse() {
            assert !Slots()[q].InUse();
            return false;
          }
        }
        ok := true;
      } else {
        ok := VerifyPartlyFull(cnt);
      }
    }

    /** The check of a ring that is not full: the slots before inPos are in use, the
        others are not. */
    method VerifyPartlyFull(cnt: nat) returns (ok: bool)
      requires Valid() && cnt == Count() < curMaxJbs
      ensures ok <==> Sane()
    {
      for q := 0 to cnt
        invariant forall i :: 0 <= i < curMaxJbs && cnt - q <= Offset(i, playPos, curMaxJbs) < cnt ==>
          jitterBuffer[i].InUse()
      {
        var i := inPos - q - 1;
        if i < 0 {
          i := i + curMaxJbs;
        }
        assert Offset(i, playPos, curMaxJbs) == cnt - q - 1;
        if !jitterBuffer[i].InUse() {
          assert !Slots()[i].InUse();
          return false;
        }
      }
      for q := 0 to curMaxJbs - cnt
        invariant forall i :: 0 <= i < curMaxJbs && cnt <= Offset(i, playPos, curMaxJbs) < cnt + q ==>
          !jitterBuffer[i].InUse()
      {
        var i := inPos + q;
        if i >= curMaxJbs {
          i := i - curMaxJbs;
        }
        assert Offset(i, playPos, curMaxJbs) == cnt + q;
        if jitterBuffer[i].InUse() {
          assert Slots()[i].InUse();
          return false;
        }
      }
      return true;
    }

    /** Half fills an empty buffer with silence that leads up to the packet. */
    method PrimeWithSilence(pkt: Packet)
      requires Represents() && state.queue == []
      modifies this`inPos, this`playPos, this`state, jitterBuffer
      ensures Represents() && state == Prime(old(state), pkt, Cfg(), PrimeCount(Cfg()))
    {
      hide HoldsQueue, CountOf, SaneRing, JbState.Push, Seq16, Time32;
      var p := curMaxJbs / 2 - 1;
      if p > 0 {
        var numprev := p;
        for i := 0 to p
          invariant Represents() && numprev == p - i
          invariant Prime(state, pkt, Cfg(), numprev) == Prime(old(state), pkt, Cfg(), p)
        {
          var rtpTime, rtpSeq := Time32(pkt.time - sampleSize * numprev), Seq16(pkt.seqNo - numprev);
          assert PrimeFrame(pkt, Cfg(), numprev) == Silence(rtpSeq, rtpTime);
          InsertSilenceRtpData(rtpTime, rtpSeq);
          numprev := numprev - 1;
        }
      }
    }

    /** The newest record queued, or null. */
    method GetLastRtpData() returns (last: Slot)
      requires Represents()
      ensures state.queue == [] <==> last == Null
      ensures state.queue != [] ==> FrameOf(last) == state.Last()
    {
      if Count() > 0 {
        PreviousSlotHolds(1);
        var idx := CalculatePreviousInPos(1);
        return jitterBuffer[idx];
      }
      return Null;
    }

    method InsertPatch(prevPacketRtpTime: int, prevSeqRecv: int)
      requires Represents() && state.queue != []
      requires prevSeqRecv == state.Last().seqNo && prevPacketRtpTime == state.Last().time
      modifies this`inPos, this`playPos, this`state, jitterBuffer
      ensures Represents() && state == old(state).Push(PatchFrame(old(state), Cfg()), Cfg())
    {
      InsertSilenceRtpData(Time32(prevPacketRtpTime + sampleSize), Seq16(prevSeqRecv + 1));
    }

    /** Fills the gap between the newest frame and the packet with silence. */
    method PatchWithSilence(pkt: Packet)
      requires Represents() && state.queue != []
      modifies this`inPos, this`playPos, this`state, jitterBuffer
      ensures Represents() && state == Patch(old(state), pkt, Cfg())
    {
      hide HoldsQueue, CountOf, JbState.Push;
      ghost var c, s := Cfg(), state;
      ghost var goal := Patch(s, pkt, c);
      var lastPkt := GetLastRtpData();
      var prevSeqRecv: int := lastPkt.seqNo;
      var prevPacketRtpTime: int := lastPkt.time;
      while TimeGreater(Time32(pkt.time - sampleSize), prevPacketRtpTime)
        invariant Represents() && s == state && s.queue != [] && s.Fits(c)
        invariant prevSeqRecv == s.Last().seqNo && prevPacketRtpTime == s.Last().time
        invariant Patch(s, pkt, c) == goal
        decreases s.Ahead(pkt)
      {
        var tmp := SeqDifference(pkt.seqNo, prevSeqRecv);
        if tmp <= 1 {
          // The timestamps show a gap that the sequence numbers do not.
          break;
        }
        PatchStep(s, pkt, c);
        s := s.Push(PatchFrame(s, c), c);
        InsertPatch(prevPacketRtpTime, prevSeqRecv);
        lastPkt := GetLastRtpData();
        prevSeqRecv := lastPkt.seqNo;
        prevPacketRtpTime := lastPkt.time;
      }
    }

    /** Takes one packet off the network.  The answer is that of the self-check, and it
        is negative exactly for the arrivals that mislead the ring. */
    method ReadNetwork(pkt: Packet) returns (sane: bool)
      requires Represents()
      modifies this`inPos, this`playPos, this`invalidPldSize, this`state, jitterBuffer
      ensures Valid()
      ensures invalidPldSize == old(invalidPldSize) + if 1 <= |pkt.payload| <= 1012 then 0 else 1
      ensures !ValidSize(pkt) ==> inPos == old(inPos) && playPos == old(playPos) && unchanged(jitterBuffer)
      ensures sane <==> !Misleads(old(state), pkt, Cfg())
      ensures sane <==> Sane()
      ensures sane ==> Represents() && state == Receive(old(state), pkt, Cfg())
    {
      var len := |pkt.payload|;
      if len <= 0 || len > 1012 {
        invalidPldSize := invalidPldSize + 1;
        return true;
      }
      sane := StorePacket(pkt);
    }

    /** The first packet of a busy period. */
    method StoreFirst(pkt: Packet)
      requires Represents() && state.queue == []
      modifies this`inPos, this`playPos, this`state, jitterBuffer
      ensures Represents()
      ensures state == Prime(old(state), pkt, Cfg(), PrimeCount(Cfg())).Push(VoiceOf(pkt), Cfg())
    {
      hide HoldsQueue, CountOf, Prime, JbState.Push;
      PrimeWithSilence(pkt);
      AppendRtpData(pkt);
    }

    /** A packet newer than the newest frame. */
    method StoreAhead(pkt: Packet)
      requires Represents() && state.queue != []
      modifies this`inPos, this`playPos, this`state, jitterBuffer
      ensures Valid()
      ensures var s := Patch(old(state), pkt, Cfg());
        if |s.queue| == curMaxJbs && s.queue[0].seqNo == pkt.seqNo then
          curMaxJbs >= 2 ==> !Sane()
        else
          Represents() && state == s.Push(VoiceOf(pkt), Cfg())
    {
      hide HoldsQueue, CountOf, Patch, JbState.Push;
      PatchWithSilence(pkt);
      AppendRtpData(pkt);
    }

    /** A packet no newer than the newest frame. */
    method StoreLate(pkt: Packet, back: nat)
      requires Represents() && state.queue != [] && back == state.SlotsBack(pkt)
      requires !SeqGreater(pkt.seqNo, state.Last().seqNo)
      modifies this`playPos, this`state, jitterBuffer
      ensures Valid()
      ensures if back == curMaxJbs == |old(state).queue| && old(state).queue[0].seqNo != pkt.seqNo then
          curMaxJbs >= 2 ==> !Sane()
        else
          Represents() && state == WriteLate(old(state), pkt)
    {
      if back > Count() {
        // Too old: dropped.
      } else {
        WriteLateRtpData(pkt, back);
      }
    }

    /** The part of readNetwork that places a packet in the ring. */
    method StorePacket(pkt: Packet) returns (sane: bool)
      requires Represents() && ValidSize(pkt)
      modifies this`inPos, this`playPos, this`state, jitterBuffer
      ensures Valid()
      ensures sane <==> !Misleads(old(state), pkt, Cfg())
      ensures sane <==> Sane()
      ensures sane ==> Represents() && state == Store(old(state), pkt, Cfg())
    {
      ghost var s, c := state, Cfg();
      assert Valid() && s.Fits(c);
      WaysToStore(s, pkt, c);
      hide Represents, Sane, Misleads, Store, Prime, Patch, WriteLate, JbState.Push;
      var lastPkt := GetLastRtpData();
      if lastPkt != Null && SeqDifference(pkt.seqNo, lastPkt.seqNo) > curMaxJbs {
        ClearJitterBuffer();
        lastPkt := Null;
      }
      assert state == Cleared(s, pkt, c);

      if lastPkt == Null {
        StoreFirst(pkt);
      } else {
        if SeqGreater(pkt.seqNo, lastPkt.seqNo) {
          StoreAhead(pkt);
        } else {
          var sd := SeqDifference(lastPkt.seqNo, pkt.seqNo);
          sd := sd + 1;
          StoreLate(pkt, sd);
        }
      }
      if Represents() {
        RepresentsShows();
      }
      sane := VerifyJbSanity();
    }

    /** Marks the oldest slot unused and steps past it. */
    method ReleaseSlot()
      requires Represents() && state.queue != []
      modifies this`playPos, this`state, jitterBuffer
      ensures Represents() && state == old(state).(queue := old(state.queue)[1..])
    {
      hide HoldsQueue, CountOf, FrameOf;
      OldestSlotIsFirst();
      var slot := jitterBuffer[playPos].(inUse := false);
      ReleaseOldest(Slots(), inPos, playPos, state.queue, slot);
      ghost var slots, q := Slots()[playPos := slot], state.queue[1..];
      hide Represents, Wrap;
      PutSlot(playPos, slot);
      IncrementPlayPos();
      state := state.(queue := q);
      NowRepresents(slots);
    }

    /** Hands the next packet to the player.  A silence may carry an old payload, which
        the player ignores. */
    method Retrieve() returns (r: Retrieved)
      requires Represents()
      modifies this`playPos, this`state, jitterBuffer
      ensures Represents() && state == Play(old(state), Cfg()).0
      ensures match Play(old(state), Cfg()).1
        case None => r == Underrun
        case Some(f) => r.Retrieved? && f == r.Frame()
      ensures old(state).queue == [] ==> r == Underrun && state.queue == []
      ensures old(state).queue != [] ==>
        var q := old(state).queue;
        var d := if q[0].Silence? && curMaxJbs >= 2 && |q| > curMaxJbs / 2 + 1 then 1 else 0;
        r.Retrieved? && r.Frame() == q[d] && state.queue == q[d + 1..]
    {
      hide HoldsQueue, CountOf, SaneRing;
      if Count() == 0 {
        return Underrun;
      }
      ghost var s := state;
      OldestSlotIsFirst();
      var jbp := jitterBuffer[playPos];
      if jbp.silenceFill {
        if curMaxJbs >= 2 && Count() > curMaxJbs / 2 + 1 {
          ReleaseSlot();
          state := state.(ledger := state.ledger.(discarded := state.ledger.discarded + 1));
          OldestSlotIsFirst();
          jbp := jitterBuffer[playPos];
        }
      }
      r := Retrieved(jbp.silenceFill, jbp.seqNo, jbp.time, jbp.payload);
      ReleaseSlot();
      state := state.(ledger := state.ledger.(played := state.ledger.played + 1));
      RepresentsShows();
      var sane := VerifyJbSanity();
      assert sane;
    }

    lemma {:induction false} OldestSlotIsFirst()
      requires Represents() && state.queue != []
      ensures jitterBuffer[playPos].InUse() && FrameOf(jitterBuffer[playPos]) == state.queue[0]
      ensures jitterBuffer[playPos].seqNo == state.queue[0].seqNo
      ensures jitterBuffer[playPos].silenceFill == state.queue[0].Silence?
    {
      assert SlotAt(Slots(), playPos, 0) == jitterBuffer[playPos];
    }
  }
}
