/** Runs that end with an arrival that misleads the ring, so that its self-check fails. */
module JitterMisled {
  import opened SerialArithmetic
  import opened JitterQueue
  import opened JitterRuns

  /** Packets that differ in their number only. */
  function Numbered(n: int): Packet { Packet(Seq16(n), 1600, [0]) }

  function FrameOf(n: int): Frame { VoiceOf(Numbered(n)) }

  /** A packet that is less than a ring ahead of the newest frame, of the same media time,
      is appended with nothing in between. */
  lemma {:induction false} AppendedAtOnce(s: JbState, n: int, ahead: int, c: Config)
    requires s.Fits(c) && s.queue != [] && s.Last() == FrameOf(n) && c.sampleSize == 160
    requires 0 < ahead <= c.size && ahead < 0x8000
    ensures var p := Numbered(n + ahead);
      && Receive(s, p, c) == s.Push(FrameOf(n + ahead), c)
      && (Misleads(s, p, c) <==> |s.queue| == c.size && s.queue[0].seqNo == p.seqNo)
  {
    hide Store, Misleads, JbState.Push, Seq16;
    var p := Numbered(n + ahead);
    WaysToStore(s, p, c);
    SeqDifferenceRecovers(n + ahead, n);
    assert s.Ahead(p) == ahead && Cleared(s, p, c) == s;
    assert !TimeGreater(Time32(1600 - 160), 1600);
    assert Patch(s, p, c) == s;
  }

  lemma {:induction false} LastStep(es: seq<WireEvent>, p: Packet, c: Config)
    requires 0 < c.size
    ensures StateAt(Empty, es + [Arrives(p)], |es| + 1, c) == Receive(StateAt(Empty, es, |es|, c), p, c)
    ensures StateAt(Empty, [], 0, c) == Empty
  {
    hide Receive;
    Prefix(es, Arrives(p), |es|, c);
  }

  lemma {:induction false} Prefix(es: seq<WireEvent>, e: WireEvent, k: nat, c: Config)
    requires 0 < c.size && k <= |es|
    ensures StateAt(Empty, es + [e], k, c) == StateAt(Empty, es, k, c)
  {
    hide Step;
    if k > 0 {
      Prefix(es, e, k - 1, c);
    }
  }

  // ----- A late packet -----

  lemma {:induction false} FirstOfTwo()
    ensures Receive(Empty, Numbered(10), Config(2, 160)).queue == [FrameOf(10)]
  {
    var c := Config(2, 160);
    WaysToStore(Empty, Numbered(10), c);
    assert Prime(Empty, Numbered(10), c, PrimeCount(c)) == Empty;
  }

  lemma {:induction false} BetweenMisleads(s: JbState)
    requires s.queue == [FrameOf(10), FrameOf(12)]
    ensures Misleads(s, Numbered(11), Config(2, 160))
  {
    hide Misleads, Store, Patch;
    WaysToStore(s, Numbered(11), Config(2, 160));
  }

  /** In a ring of two slots that holds numbers 10 and 12, number 11 is written over 10, and
      the play position moves. */
  lemma {:induction false} LatePacketMisleads()
    ensures var c, es := Config(2, 160), [Arrives(Numbered(10)), Arrives(Numbered(12))];
      Misleads(StateAt(Empty, es, 2, c), Numbered(11), c)
  {
    hide Receive, Misleads, StateAt;
    var c := Config(2, 160);
    var one := [Arrives(Numbered(10))];
    LastStep([], Numbered(10), c);
    LastStep(one, Numbered(12), c);
    assert [] + one == one && one + [Arrives(Numbered(12))] == [Arrives(Numbered(10)), Arrives(Numbered(12))];
    FirstOfTwo();
    var s := Receive(Empty, Numbered(10), c);
    AppendedAtOnce(s, 10, 2, c);
    BetweenMisleads(s.Push(FrameOf(12), c));
  }

  // ----- An appended packet -----

  /** Arrivals whose numbers are 256 apart. */
  function Leaps(n: nat): (es: seq<WireEvent>)
    ensures |es| == n
  {
    if n == 0 then [] else Leaps(n - 1) + [Arrives(Numbered(256 * (n - 1)))]
  }

  /** The newest frames of a queue are the first k leaps. */
  predicate EndsInLeaps(q: seq<Frame>, k: nat) {
    k <= |q| && forall i :: |q| - k <= i < |q| ==> q[i] == FrameOf(256 * (i - |q| + k))
  }

  lemma {:induction false} PushLeap(s: JbState, k: nat, c: Config)
    requires s.Fits(c) && 0 < c.size && EndsInLeaps(s.queue, k) && k < c.size
    ensures var q := s.Push(FrameOf(256 * k), c).queue;
      EndsInLeaps(q, k + 1) && |q| == (if |s.queue| == c.size then c.size else |s.queue| + 1)
  {
    hide FrameOf;
  }

  lemma {:induction false} PrimeFills(s: JbState, p: Packet, c: Config, n: nat)
    requires s.Fits(c) && |s.queue| + n < c.size
    ensures |Prime(s, p, c, n).queue| == |s.queue| + n
    decreases n
  {
    if n > 0 {
      PrimeFills(s.Push(PrimeFrame(p, c, n), c), p, c, n - 1);
    }
  }

  lemma {:induction false} FirstLeap()
    ensures var q := Receive(Empty, Numbered(0), Config(256, 160)).queue;
      |q| == 128 && q[127] == FrameOf(0)
  {
    hide Store, Misleads, Prime;
    var c := Config(256, 160);
    WaysToStore(Empty, Numbered(0), c);
    assert Cleared(Empty, Numbered(0), c) == Empty && PrimeCount(c) == 127;
    PrimeFills(Empty, Numbered(0), c, 127);
  }

  function AfterLeaps(k: nat): (s: JbState)
    ensures s.Fits(Config(256, 160))
  {
    StateAt(Empty, Leaps(k), k, Config(256, 160))
  }

  lemma {:induction false} NextLeap(k: nat)
    requires k > 0
    ensures AfterLeaps(k) == Receive(AfterLeaps(k - 1), Numbered(256 * (k - 1)), Config(256, 160))
    ensures AfterLeaps(0) == Empty
  {
    hide Receive, Numbered;
    LastStep(Leaps(k - 1), Numbered(256 * (k - 1)), Config(256, 160));
  }

  lemma {:induction false} LastOfLeaps(q: seq<Frame>, k: nat)
    requires EndsInLeaps(q, k) && k > 0
    ensures q != [] && q[|q| - 1] == FrameOf(256 * (k - 1))
  {
    hide FrameOf;
  }

  lemma {:induction false} LeapsFillRing(k: nat)
    requires 0 < k <= 256
    ensures var q := AfterLeaps(k).queue; EndsInLeaps(q, k) && |q| == if k <= 129 then 127 + k else 256
  {
    hide Receive, AfterLeaps, FrameOf, Numbered, JbState.Push;
    NextLeap(k);
    if k == 1 {
      FirstLeap();
    } else {
      LeapsFillRing(k - 1);
      var s := AfterLeaps(k - 1);
      LastOfLeaps(s.queue, k - 1);
      hide EndsInLeaps;
      AppendedAtOnce(s, 256 * (k - 2), 256, Config(256, 160));
      PushLeap(s, k - 1, Config(256, 160));
    }
  }

  /** 256 leaps come back to the number of the oldest slot, and the play position stays. */
  lemma {:induction false} RepeatedNumberMisleads()
    ensures Misleads(StateAt(Empty, Leaps(256), 256, Config(256, 160)), Numbered(65536), Config(256, 160))
  {
    hide Misleads, StateAt, Leaps, Receive;
    var s := AfterLeaps(256);
    LeapsFillRing(256);
    LastOfLeaps(s.queue, 256);
    assert s.queue[0] == FrameOf(256 * 0);
    AppendedAtOnce(s, 256 * 255, 256, Config(256, 160));
  }
}
