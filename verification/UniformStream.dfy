/** Runs of the jitter buffer on the stream that a transmitter produces: packet u carries
    u reduced to 16 bits and its media time reduced to 32 bits.  The queue is then
    determined by a window of indices and the set of those that arrived in time. */
module UniformStream {
  import opened Options
  import opened SerialArithmetic
  import opened JitterQueue

  const SAMPLE_SIZE_LIMIT := 1472

  function MediaTimeAt(time0: int, sampleSize: int, u: int): int { time0 + sampleSize * u }

  datatype Stream = Stream(time0: int, sampleSize: int, payload: int -> seq<bv8>) {
    function MediaTime(u: int): int { MediaTimeAt(time0, sampleSize, u) }

    function PacketAt(u: int): Packet { Packet(Seq16(u), Time32(MediaTime(u)), payload(u)) }

    function SilenceAt(u: int): Frame { Silence(Seq16(u), Time32(MediaTime(u))) }

    /** What the receiver assumes: its sample size is the sender's, and every payload
        has an acceptable size. */
    ghost predicate Uniform(c: Config) {
      && 0 < sampleSize == c.sampleSize < SAMPLE_SIZE_LIMIT
      && 0 < c.size <= JITTER_BUFFER_MAX
      && forall u :: ValidSize(PacketAt(u))
    }
  }

  /** The indices queued are the count from head on; those in stored are voice. */
  datatype Window = Window(head: int, count: nat, stored: set<int>) {
    function Last(): int { head + count - 1 }

    function FrameAt(st: Stream, u: int): Frame {
      if u in stored then VoiceOf(st.PacketAt(u)) else st.SilenceAt(u)
    }

    function Render(st: Stream): (q: seq<Frame>)
      ensures |q| == count
      ensures forall i :: 0 <= i < count ==> q[i] == FrameAt(st, head + i)
    {
      seq(count, i requires 0 <= i < count => FrameAt(st, head + i))
    }

    predicate WellFormed(c: Config) {
      count <= c.size && forall u :: u in stored ==> u <= Last()
    }

    /** The window that ends at last and loses its oldest indices when it is too long. */
    function ExtendTo(last: int, c: Config): Window
      requires last >= Last()
    {
      var n := last - head + 1;
      if n <= c.size then this.(count := n) else Window(last - c.size + 1, c.size, stored)
    }

    /** Arrivals whose index is close enough to the newest for 16 bits to tell. */
    predicate InReach(u: int) {
      count == 0 || -0x8000 < u - Last() < 0x8000
    }

    function Arrive(u: int, c: Config): Window {
      if count == 0 || u - Last() > c.size then
        Window(u - PrimeCount(c), PrimeCount(c) + 1, {u})
      else if u > Last() then
        var w := ExtendTo(u, c);
        w.(stored := stored + {u})
      else if u >= head then
        this.(stored := stored + {u})
      else
        this
    }

    predicate Skips(c: Config) {
      head !in stored && c.size >= 2 && count > c.size / 2 + 1
    }

    /** The index played next. */
    function Next(c: Config): int {
      if Skips(c) then head + 1 else head
    }

    function Play(c: Config): Window {
      if count == 0 then this
      else if Skips(c) then Window(head + 2, count - 2, stored)
      else Window(head + 1, count - 1, stored)
    }
  }

  // ----- Media time -----

  lemma {:induction false} MediaTimeShifts(st: Stream, u: int, k: int)
    ensures st.MediaTime(u + k) == st.MediaTime(u) + st.sampleSize * k
  {
    assert st.sampleSize * (u + k) == st.sampleSize * u + st.sampleSize * k;
  }

  lemma {:induction false} SpanIsShort(sampleSize: int, k: int)
    requires 0 < sampleSize < SAMPLE_SIZE_LIMIT && 0 <= k <= JITTER_BUFFER_MAX
    ensures k <= sampleSize * k <= SAMPLE_SIZE_LIMIT * k
    ensures sampleSize * k < 0x8000_0000
    decreases k
  {
    if k > 0 {
      assert sampleSize * k == sampleSize * (k - 1) + sampleSize;
      SpanIsShort(sampleSize, k - 1);
    }
  }

  /** A gap that does not clear the buffer is too short for its media time to wrap. */
  lemma {:induction false} GapIsShort(st: Stream, c: Config, last: int, u: int)
    requires 0 < st.sampleSize < SAMPLE_SIZE_LIMIT && last < u <= last + JITTER_BUFFER_MAX
    ensures 0 <= st.MediaTime(u) - st.sampleSize - st.MediaTime(last) < 0x8000_0000
    ensures u > last + 1 <==> st.MediaTime(u) - st.sampleSize > st.MediaTime(last)
  {
    var k := u - last - 1;
    MediaTimeShifts(st, last, k + 1);
    assert st.sampleSize * (k + 1) == st.sampleSize * k + st.sampleSize;
    SpanIsShort(st.sampleSize, k);
  }

  // ----- One step -----

  lemma {:induction false} PushSilence(st: Stream, c: Config, w: Window, s: JbState)
    requires 0 < c.size && w.WellFormed(c) && s.queue == w.Render(st)
    ensures var w' := w.ExtendTo(w.Last() + 1, c);
      w'.WellFormed(c) && s.Push(st.SilenceAt(w.Last() + 1), c).queue == w'.Render(st)
  {
    hide Stream.PacketAt, Stream.SilenceAt, VoiceOf;
    var u := w.Last() + 1;
    var w', s' := w.ExtendTo(u, c), s.Push(st.SilenceAt(u), c);
    assert w'.FrameAt(st, u) == st.SilenceAt(u);
    assert forall i :: 0 <= i < w'.count ==> s'.queue[i] == w'.FrameAt(st, w'.head + i);
  }

  lemma {:induction false} LastFrame(st: Stream, w: Window, s: JbState)
    requires w.count > 0 && s.queue == w.Render(st)
    ensures s.Last() == w.FrameAt(st, w.Last())
  {}

  /** A gap shows in the packets exactly when an index is missing. */
  lemma {:induction false} GapShows(st: Stream, c: Config, w: Window, s: JbState, u: int)
    requires st.Uniform(c) && w.WellFormed(c) && w.count > 0 && s.queue == w.Render(st)
    requires w.Last() < u <= w.Last() + c.size
    ensures NeedsPatch(s, st.PacketAt(u), c) <==> u > w.Last() + 1
    ensures s.Ahead(st.PacketAt(u)) == u - w.Last()
    ensures PatchFrame(s, c) == st.SilenceAt(w.Last() + 1)
  {
    hide Seq16, Time32, TimeGreater, SeqDifference, MediaTimeAt, Window.Render;
    var last := w.Last();
    LastFrame(st, w, s);
    GapIsShort(st, c, last, u);
    TimeShifts(st.MediaTime(u), -st.sampleSize);
    TimeGreaterRecovers(st.MediaTime(u) - st.sampleSize, st.MediaTime(last));
    SeqDifferenceRecovers(u, last);
    SeqShifts(last, 1);
    TimeShifts(st.MediaTime(last), st.sampleSize);
    MediaTimeShifts(st, last, 1);
  }

  /** Patching appends one silence for each missing index, and no more. */
  lemma {:induction false} PatchCommutes(st: Stream, c: Config, w: Window, s: JbState, u: int)
    requires st.Uniform(c) && w.WellFormed(c) && w.count > 0 && s.queue == w.Render(st)
    requires w.Last() < u <= w.Last() + c.size
    ensures var w' := w.ExtendTo(u - 1, c);
      && w'.WellFormed(c)
      && Patch(s, st.PacketAt(u), c).queue == w'.Render(st)
    decreases u - w.Last()
  {
    hide Stream.PacketAt, Stream.SilenceAt, VoiceOf, NeedsPatch, PatchFrame, JbState.Push;
    var p, last := st.PacketAt(u), w.Last();
    GapShows(st, c, w, s, u);
    if u == last + 1 {
      assert w.ExtendTo(last, c) == w;
    } else {
      PushSilence(st, c, w, s);
      PatchCommutes(st, c, w.ExtendTo(last + 1, c), s.Push(PatchFrame(s, c), c), u);
      assert w.ExtendTo(last + 1, c).ExtendTo(u - 1, c) == w.ExtendTo(u - 1, c);
    }
  }

  lemma {:induction false} PrimeFrameIsSilence(st: Stream, c: Config, u: int, back: int)
    requires c.sampleSize == st.sampleSize && 0 <= back
    ensures PrimeFrame(st.PacketAt(u), c, back) == st.SilenceAt(u - back)
  {
    MediaTimeShifts(st, u, -back);
    assert st.sampleSize * -back == -(st.sampleSize * back);
    TimeShifts(st.MediaTime(u), -(st.sampleSize * back));
    SeqShifts(u, -back);
  }

  /** Priming queues the indices just before the packet's, all silent. */
  lemma {:induction false} PrimeCommutes(st: Stream, c: Config, w: Window, s: JbState, u: int, n: nat)
    requires st.Uniform(c) && w.count + n <= c.size && w.stored == {} && w.head + w.count == u - n
    requires s.queue == w.Render(st)
    ensures Prime(s, st.PacketAt(u), c, n).queue == Window(w.head, w.count + n, {}).Render(st)
    decreases n
  {
    if n == 0 {
      assert Window(w.head, w.count + n, {}) == w;
    } else {
      PrimeFrameIsSilence(st, c, u, n);
      PushSilence(st, c, w, s);
      PrimeCommutes(st, c, Window(w.head, w.count + 1, {}), s.Push(st.SilenceAt(u - n), c), u, n - 1);
    }
  }

  /** Pushing the packet of the next index appends it to the window as voice. */
  lemma {:induction false} PushVoice(st: Stream, c: Config, w: Window, s: JbState)
    requires 0 < c.size && w.WellFormed(c) && s.queue == w.Render(st)
    ensures var u := w.Last() + 1;
      var w' := w.ExtendTo(u, c).(stored := w.stored + {u});
      w'.WellFormed(c) && s.Push(VoiceOf(st.PacketAt(u)), c).queue == w'.Render(st)
  {
    hide Stream.PacketAt, Stream.SilenceAt, VoiceOf;
    var u := w.Last() + 1;
    var w' := w.ExtendTo(u, c).(stored := w.stored + {u});
    var s' := s.Push(VoiceOf(st.PacketAt(u)), c);
    assert forall i :: 0 <= i < w'.count ==> s'.queue[i] == w'.FrameAt(st, w'.head + i);
  }

  /** The arrival of packet u moves the window as its index alone says, and never
      misleads the ring. */
  lemma {:induction false} ReceiveCommutes(st: Stream, c: Config, w: Window, s: JbState, u: int)
    requires st.Uniform(c) && w.WellFormed(c) && s.queue == w.Render(st) && w.InReach(u)
    ensures w.Arrive(u, c).WellFormed(c)
    ensures Receive(s, st.PacketAt(u), c).queue == w.Arrive(u, c).Render(st)
    ensures !Misleads(s, st.PacketAt(u), c)
  {
    var p := st.PacketAt(u);
    assert ValidSize(p);
    if w.count == 0 {
      assert s.queue == [];
      ReceiveFirst(st, c, s, u);
    } else {
      LastFrame(st, w, s);
      SeqDifferenceRecovers(u, w.Last());
      SeqDifferenceRecovers(w.Last(), u);
      if u - w.Last() > c.size {
        ReceiveFirst(st, c, s, u);
      } else if u > w.Last() {
        ReceiveAhead(st, c, w, s, u);
      } else {
        ReceiveLate(st, c, w, s, u);
      }
    }
  }

  lemma {:induction false} FirstWindow(c: Config, u: int, n: nat)
    requires n + 1 <= c.size
    ensures var w := Window(u - n, n, {});
      && w.Last() + 1 == u && w.WellFormed(c)
      && w.ExtendTo(u, c).(stored := w.stored + {u}) == Window(u - n, n + 1, {u})
  {}

  lemma {:induction false} ReceiveFirst(st: Stream, c: Config, s: JbState, u: int)
    requires st.Uniform(c) && s.Fits(c) && Cleared(s, st.PacketAt(u), c).queue == []
    ensures var w := Window(u - PrimeCount(c), PrimeCount(c) + 1, {u});
      w.WellFormed(c) && Store(s, st.PacketAt(u), c).queue == w.Render(st)
    ensures !Misleads(s, st.PacketAt(u), c)
  {
    hide Store, Misleads, Prime, JbState.Push, Cleared, Seq16, Time32, Stream.PacketAt, Stream.SilenceAt, VoiceOf;
    WaysToStore(s, st.PacketAt(u), c);
    var n := PrimeCount(c);
    assert n + 1 <= c.size;
    var s0 := Cleared(s, st.PacketAt(u), c);
    var w0, w1 := Window(u - n, 0, {}), Window(u - n, n, {});
    assert s0.queue == w0.Render(st);
    FirstWindow(c, u, n);
    hide PrimeCount, Window.Render, Window.FrameAt, Window.ExtendTo;
    PrimeCommutes(st, c, w0, s0, u, n);
    PushVoice(st, c, w1, Prime(s0, st.PacketAt(u), c, n));
  }

  /** A packet ahead extends the window in two steps: over the gap, then by its own index. */
  lemma {:induction false} AheadWindow(c: Config, w: Window, u: int)
    requires 0 < c.size && w.WellFormed(c) && w.count > 0 && w.Last() < u <= w.Last() + c.size
    ensures var w1 := w.ExtendTo(u - 1, c);
      && w1.Last() == u - 1 && w1.WellFormed(c)
      && w.Arrive(u, c) == w1.ExtendTo(u, c).(stored := w1.stored + {u})
  {}

  lemma {:induction false} ReceiveAhead(st: Stream, c: Config, w: Window, s: JbState, u: int)
    requires st.Uniform(c) && w.WellFormed(c) && w.count > 0 && s.queue == w.Render(st)
    requires w.Last() < u <= w.Last() + c.size
    ensures w.Arrive(u, c).WellFormed(c)
    ensures Store(s, st.PacketAt(u), c).queue == w.Arrive(u, c).Render(st)
    ensures !Misleads(s, st.PacketAt(u), c)
  {
    hide Store, Misleads, Patch, JbState.Push, NeedsPatch, SeqDifference, Seq16, Time32,
         Stream.PacketAt, Stream.SilenceAt, VoiceOf;
    var p := st.PacketAt(u);
    GapShows(st, c, w, s, u);
    WaysToStore(s, p, c);
    assert Cleared(s, p, c) == s && SeqGreater(p.seqNo, s.Last().seqNo);
    AheadWindow(c, w, u);
    PatchCommutes(st, c, w, s, u);
    hide Window.ExtendTo, Window.FrameAt, Window.Render, Window.Arrive, Window.WellFormed;
    var w1, s1 := w.ExtendTo(u - 1, c), Patch(s, p, c);
    PushVoice(st, c, w1, s1);
    FullQueueDiffers(st, c, w1, s1, u);
  }

  lemma {:induction false} SeqDiffers(u: int, n: int)
    requires 0 < n < 0x1_0000
    ensures Seq16(u - n) != Seq16(u)
  {}

  /** The oldest frame of a full queue does not have the number that comes next. */
  lemma {:induction false} FullQueueDiffers(st: Stream, c: Config, w: Window, s: JbState, u: int)
    requires s.queue == w.Render(st) && 0 < c.size <= JITTER_BUFFER_MAX && u == w.Last() + 1
    ensures w.count == c.size ==> s.queue[0].seqNo != st.PacketAt(u).seqNo
  {
    hide Seq16, Time32;
    if w.count == c.size {
      SeqDiffers(u, c.size);
      assert s.queue[0] == w.FrameAt(st, u - c.size);
    }
  }

  lemma {:induction false} ReceiveLate(st: Stream, c: Config, w: Window, s: JbState, u: int)
    requires st.Uniform(c) && w.WellFormed(c) && w.count > 0 && s.queue == w.Render(st)
    requires w.InReach(u) && u <= w.Last()
    ensures w.Arrive(u, c).WellFormed(c)
    ensures Store(s, st.PacketAt(u), c).queue == w.Arrive(u, c).Render(st)
    ensures !Misleads(s, st.PacketAt(u), c)
  {
    hide Store, Misleads, WriteLate;
    var p := st.PacketAt(u);
    LastFrame(st, w, s);
    SeqDifferenceRecovers(u, w.Last());
    SeqDifferenceRecovers(w.Last(), u);
    assert s.Ahead(p) == u - w.Last() && s.SlotsBack(p) == w.Last() - u + 1;
    WaysToStore(s, p, c);
    assert Cleared(s, p, c) == s && !SeqGreater(p.seqNo, s.Last().seqNo);
    assert s.queue[0] == w.FrameAt(st, w.head);
    WriteLateCommutes(st, c, w, s, u);
  }

  lemma {:induction false} LateQueue(s: JbState, p: Packet)
    requires s.queue != [] && !SeqGreater(p.seqNo, s.Last().seqNo)
    ensures var back := s.SlotsBack(p);
      WriteLate(s, p).queue == if back > |s.queue| then s.queue else s.queue[|s.queue| - back := VoiceOf(p)]
  {
    hide Seq16;
  }

  lemma {:induction false} WriteLateCommutes(st: Stream, c: Config, w: Window, s: JbState, u: int)
    requires w.WellFormed(c) && w.count > 0 && s.queue == w.Render(st) && u <= w.Last()
    requires !SeqGreater(st.PacketAt(u).seqNo, s.Last().seqNo)
    requires s.SlotsBack(st.PacketAt(u)) == w.Last() - u + 1
    ensures w.Arrive(u, c).WellFormed(c)
    ensures WriteLate(s, st.PacketAt(u)).queue == w.Arrive(u, c).Render(st)
  {
    hide WriteLate, SeqGreater, SeqDifference, JbState.SlotsBack, Seq16, Time32, Stream.PacketAt, Stream.SilenceAt,
         Window.Arrive;
    var p, w' := st.PacketAt(u), w.Arrive(u, c);
    LateWindow(c, w, u);
    LateQueue(s, p);
    var q' := WriteLate(s, p).queue;
    forall i | 0 <= i < w.count ensures q'[i] == w'.FrameAt(st, w'.head + i) {
      assert w.head + i == u <==> i == u - w.head;
    }
  }

  lemma {:induction false} LateWindow(c: Config, w: Window, u: int)
    requires w.WellFormed(c) && w.count > 0 && u <= w.Last()
    ensures w.Arrive(u, c) == if u >= w.head then w.(stored := w.stored + {u}) else w
    ensures w.Arrive(u, c).WellFormed(c)
  {}

  lemma {:induction false} StoredIsVoice(st: Stream, w: Window)
    ensures w.FrameAt(st, w.head).Silence? <==> w.head !in w.stored
  {}

  /** Playout hands out the frame of the window's next index. */
  lemma {:induction false} PlayCommutes(st: Stream, c: Config, w: Window, s: JbState)
    requires w.WellFormed(c) && s.queue == w.Render(st)
    ensures w.Play(c).WellFormed(c)
    ensures Play(s, c).0.queue == w.Play(c).Render(st)
    ensures Play(s, c).1 == if w.count == 0 then None else Some(w.FrameAt(st, w.Next(c)))
  {
    hide Stream.PacketAt, Stream.SilenceAt, VoiceOf;
    if w.count > 0 {
      StoredIsVoice(st, w);
      assert s.queue[0] == w.FrameAt(st, w.head);
      var w', q' := w.Play(c), Play(s, c).0.queue;
      assert forall i :: 0 <= i < w'.count ==> q'[i] == w'.FrameAt(st, w'.head + i);
    }
  }
}
