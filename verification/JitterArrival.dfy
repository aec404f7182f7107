/** What an arrival makes of the queue, whatever numbers and times the packets carry, frame
    by frame. */
module JitterArrival {
  import opened SerialArithmetic
  import opened JitterQueue

  /** The newest frames, as many as a ring can hold. */
  function Newest(q: seq<Frame>, size: nat): (r: seq<Frame>)
    ensures |r| == if |q| > size then size else |q|
    ensures forall i :: 0 <= i < |r| ==> r[i] == q[|q| - |r| + i]
  {
    if |q| > size then q[|q| - size..] else q
  }

  lemma {:induction false} PushIsNewest(s: JbState, f: Frame, c: Config)
    requires s.Fits(c) && 0 < c.size
    ensures s.Push(f, c).queue == Newest(s.queue + [f], c.size)
  {}

  lemma {:induction false} NewestAgain(q: seq<Frame>, f: Frame, size: nat)
    requires 0 < size
    ensures Newest(Newest(q, size) + [f], size) == Newest(q + [f], size)
    ensures q != [] ==> Newest(q, size) != [] && Newest(q, size)[|Newest(q, size)| - 1] == q[|q| - 1]
  {}

  // ----- Priming -----

  /** The silences just before packet p. */
  function Before(p: Packet, c: Config, n: nat): (q: seq<Frame>)
    ensures |q| == n
  {
    seq(n, i requires 0 <= i < n => Silence(Seq16(p.seqNo - (n - i)), Time32(p.time - c.sampleSize * (n - i))))
  }

  lemma {:induction false} PrimeIsExact(s: JbState, p: Packet, c: Config, n: nat)
    requires s.Fits(c) && 0 < c.size
    ensures Prime(s, p, c, n).queue == Newest(s.queue + Before(p, c, n), c.size)
    decreases n
  {
    hide JbState.Push, Newest, Seq16, Time32;
    if n == 0 {
      assert s.queue + Before(p, c, 0) == s.queue;
      FitsIsNewest(s.queue, c.size);
    } else {
      var f := PrimeFrame(p, c, n);
      var next := s.Push(f, c);
      PushIsNewest(s, f, c);
      PrimeIsExact(next, p, c, n - 1);
      FirstBefore(p, c, n);
      NewestOfMore(s.queue + [f], Before(p, c, n - 1), c.size);
      assert s.queue + [f] + Before(p, c, n - 1) == s.queue + Before(p, c, n);
    }
  }

  lemma {:induction false} FirstBefore(p: Packet, c: Config, n: nat)
    requires n > 0
    ensures Before(p, c, n) == [PrimeFrame(p, c, n)] + Before(p, c, n - 1)
  {
    hide Seq16, Time32;
  }

  lemma {:induction false} FitsIsNewest(q: seq<Frame>, size: nat)
    requires |q| <= size
    ensures Newest(q, size) == q
  {}

  lemma {:induction false} NewestOfMore(q: seq<Frame>, more: seq<Frame>, size: nat)
    ensures Newest(Newest(q, size) + more, size) == Newest(q + more, size)
  {
    hide Newest;
    var (r, s) := (Newest(Newest(q, size) + more, size), Newest(q + more, size));
    assert |r| == |s| && forall i :: 0 <= i < |r| ==> r[i] == s[i];
  }

  // ----- Patching -----

  /** The n frames after a frame: silences, one number and one packet's time apart. */
  function After(f: Frame, c: Config, n: nat): (q: seq<Frame>)
    ensures |q| == n
  {
    seq(n, i requires 0 <= i < n => Silence(Seq16(f.seqNo + i + 1), Time32(f.time + c.sampleSize * (i + 1))))
  }

  /** After n silences both the number and the time of p still show a gap: p is more than
      one ahead, and its time is more than one packet's time after. */
  predicate ShowsGap(f: Frame, p: Packet, c: Config, n: nat) {
    && SeqDifference(p.seqNo, Seq16(f.seqNo + n)) > 1
    && TimeGreater(Time32(p.time - c.sampleSize), Time32(f.time + c.sampleSize * n))
  }

  lemma {:induction false} PatchIsExact(s: JbState, p: Packet, c: Config) returns (n: nat)
    requires s.Fits(c) && s.queue != []
    ensures forall i :: 0 <= i < n ==> ShowsGap(s.Last(), p, c, i)
    ensures !ShowsGap(s.Last(), p, c, n)
    ensures Patch(s, p, c).queue == Newest(s.queue + After(s.Last(), c, n), c.size)
    decreases if s.Ahead(p) > 0 then s.Ahead(p) else 0
  {
    hide JbState.Push, Newest, Seq16, Time32, TimeGreater, SeqDifference, ShowsGap;
    GapIsShown(s, p, c);
    if NeedsPatch(s, p, c) {
      var f := PatchFrame(s, c);
      var next := s.Push(f, c);
      PatchStep(s, p, c);
      PushIsNewest(s, f, c);
      var m := PatchIsExact(next, p, c);
      n := m + 1;
      forall i | 0 <= i < n ensures ShowsGap(s.Last(), p, c, i) {
        if i > 0 {
          GapShifts(s, p, c, i - 1);
        }
      }
      GapShifts(s, p, c, m);
      AfterShifts(s, c, m);
      NewestOfMore(s.queue + [f], After(f, c, m), c.size);
      assert s.queue + [f] + After(f, c, m) == s.queue + After(s.Last(), c, n);
    } else {
      n := 0;
      assert s.queue + After(s.Last(), c, 0) == s.queue;
      FitsIsNewest(s.queue, c.size);
      NoPatch(s, p, c);
    }
  }

  lemma {:induction false} NoPatch(s: JbState, p: Packet, c: Config)
    requires s.Fits(c) && s.queue != [] && !NeedsPatch(s, p, c)
    ensures Patch(s, p, c) == s
  {}

  lemma {:induction false} GapIsShown(s: JbState, p: Packet, c: Config)
    requires s.queue != []
    ensures NeedsPatch(s, p, c) <==> ShowsGap(s.Last(), p, c, 0)
  {
    hide TimeGreater, SeqDifference;
    Unshifted(s.Last());
    assert c.sampleSize * 0 == 0;
  }

  lemma {:induction false} Unshifted(f: Frame)
    ensures Seq16(f.seqNo + 0) == f.seqNo && Time32(f.time + 0) == f.time
  {}

  lemma {:induction false} FramesShift(s: JbState, c: Config, i: nat)
    requires s.queue != []
    ensures var (f, l) := (PatchFrame(s, c), s.Last());
      && Seq16(f.seqNo + i) == Seq16(l.seqNo + (i + 1))
      && Time32(f.time + c.sampleSize * i) == Time32(l.time + c.sampleSize * (i + 1))
  {
    hide Seq16, Time32;
    var l := s.Last();
    SeqShifts(l.seqNo + 1, i);
    TimeShifts(l.time + c.sampleSize, c.sampleSize * i);
    assert c.sampleSize * (i + 1) == c.sampleSize + c.sampleSize * i;
  }

  lemma {:induction false} GapShifts(s: JbState, p: Packet, c: Config, i: nat)
    requires s.queue != []
    ensures ShowsGap(PatchFrame(s, c), p, c, i) <==> ShowsGap(s.Last(), p, c, i + 1)
  {
    hide Seq16, Time32, TimeGreater, SeqDifference;
    FramesShift(s, c, i);
  }

  lemma {:induction false} AfterShifts(s: JbState, c: Config, m: nat)
    requires s.queue != []
    ensures [PatchFrame(s, c)] + After(PatchFrame(s, c), c, m) == After(s.Last(), c, m + 1)
  {
    hide Seq16, Time32;
    var f, l := PatchFrame(s, c), s.Last();
    forall i | 0 <= i < m ensures After(f, c, m)[i] == After(l, c, m + 1)[i + 1] {
      FramesShift(s, c, i + 1);
      assert f.seqNo + i + 1 == f.seqNo + (i + 1) && l.seqNo + (i + 1) + 1 == l.seqNo + (i + 2);
    }
    assert c.sampleSize * 1 == c.sampleSize;
  }

  // ----- An arrival -----

  /** Whatever a packet carries: the first packet, and one more than a ring ahead, start the
      queue afresh, behind silences for half a ring less one; one that is ahead is appended
      behind silences for as long as numbers and times show a gap, and a ring keeps the
      newest frames; any other replaces the frame that many back, or is dropped. */
  lemma {:induction false} StoreIsExact(s: JbState, p: Packet, c: Config)
    requires s.Fits(c) && 0 < c.size && ValidSize(p)
    ensures var (q, q', voice) := (s.queue, Store(s, p, c).queue, Voice(p.seqNo, p.time, p.payload));
      if q == [] || SeqDifference(p.seqNo, q[|q| - 1].seqNo) > c.size then
        q' == Before(p, c, if c.size / 2 > 1 then c.size / 2 - 1 else 0) + [voice]
      else
        var last := q[|q| - 1];
        if SeqDifference(p.seqNo, last.seqNo) > 0 then
          exists n: nat :: !ShowsGap(last, p, c, n) && (forall i :: 0 <= i < n ==> ShowsGap(last, p, c, i))
            && q' == Newest(q + After(last, c, n) + [voice], c.size)
        else
          var back := SeqDifference(last.seqNo, p.seqNo) + 1;
          q' == if back > |q| then q else q[|q| - back := voice]
  {
    hide Store, SeqDifference, Newest, ShowsGap, Before, After;
    if s.queue == [] || s.Ahead(p) > c.size {
      FirstIsExact(s, p, c);
    } else if s.Ahead(p) > 0 {
      AheadIsExact(s, p, c);
    } else {
      LateIsExact(s, p, c);
    }
  }

  lemma {:induction false} FirstIsExact(s: JbState, p: Packet, c: Config)
    requires s.Fits(c) && 0 < c.size && ValidSize(p) && (s.queue == [] || s.Ahead(p) > c.size)
    ensures Store(s, p, c).queue
         == Before(p, c, if c.size / 2 > 1 then c.size / 2 - 1 else 0) + [Voice(p.seqNo, p.time, p.payload)]
  {
    hide Store, Misleads, Prime, JbState.Push, SeqDifference, Before, Newest;
    WaysToStore(s, p, c);
    var s0, n, voice := Cleared(s, p, c), PrimeCount(c), VoiceOf(p);
    PrimeIsExact(s0, p, c, n);
    assert [] + Before(p, c, n) == Before(p, c, n);
    FitsIsNewest(Before(p, c, n), c.size);
    PushIsNewest(Prime(s0, p, c, n), voice, c);
    FitsIsNewest(Before(p, c, n) + [voice], c.size);
  }

  lemma {:induction false} AheadIsExact(s: JbState, p: Packet, c: Config)
    requires s.Fits(c) && 0 < c.size && ValidSize(p) && s.queue != [] && 0 < s.Ahead(p) <= c.size
    ensures var (q, last) := (s.queue, s.queue[|s.queue| - 1]);
      exists n: nat :: !ShowsGap(last, p, c, n) && (forall i :: 0 <= i < n ==> ShowsGap(last, p, c, i))
        && Store(s, p, c).queue == Newest(q + After(last, c, n) + [Voice(p.seqNo, p.time, p.payload)], c.size)
  {
    hide Store, Misleads, Patch, JbState.Push, SeqDifference, After, Newest, ShowsGap;
    WaysToStore(s, p, c);
    var voice := VoiceOf(p);
    var m := PatchIsExact(s, p, c);
    PushIsNewest(Patch(s, p, c), voice, c);
    NewestAgain(s.queue + After(s.Last(), c, m), voice, c.size);
    var (q, last) := (s.queue, s.queue[|s.queue| - 1]);
    assert last == s.Last() && Cleared(s, p, c) == s;
    assert Store(s, p, c) == Patch(s, p, c).Push(voice, c);
    assert Store(s, p, c).queue == Newest(q + After(last, c, m) + [voice], c.size);
  }

  lemma {:induction false} LateIsExact(s: JbState, p: Packet, c: Config)
    requires s.Fits(c) && 0 < c.size && ValidSize(p) && s.queue != [] && s.Ahead(p) <= 0
    ensures var back := SeqDifference(s.Last().seqNo, p.seqNo) + 1;
      Store(s, p, c).queue
        == if back > |s.queue| then s.queue else s.queue[|s.queue| - back := Voice(p.seqNo, p.time, p.payload)]
  {
    hide Store, Misleads, SeqDifference;
    WaysToStore(s, p, c);
  }
}
