/** The running figures that rtp/RtpReceiver.cxx keeps about its source: the smoothed
    jitter, and the count of sequence-number cycles. */
module ReceiverStatistics {
  import opened SerialArithmetic

  const MAX_DELAY := 500000

  // ----- Jitter -----

  /** A value stored in a 32-bit int. */
  function AsInt32(x: int): int {
    (x + 0x8000_0000) % 0x1_0000_0000 - 0x8000_0000
  }

  lemma {:induction false} AsInt32IsStored(x: int)
    ensures -0x8000_0000 <= AsInt32(x) < 0x8000_0000 && (x - AsInt32(x)) % 0x1_0000_0000 == 0
  {}

  /** The estimator of section 6.3.1 of RFC 1889 on values scaled by 16. */
  function NextJitter(jitter: int, delay: nat): int {
    jitter + delay - (jitter + 8) / 16
  }

  function JitterAfter(jitter: int, delays: seq<nat>): int
    decreases |delays|
  {
    if delays == [] then jitter else JitterAfter(NextJitter(jitter, delays[0]), delays[1..])
  }

  /** The estimate, to the nearest unit, lies between lo and hi. */
  predicate InBand(jitter: int, lo: int, hi: int) {
    lo <= (jitter + 8) / 16 <= hi
  }

  /** An estimate between the least and the greatest delay stays between them, and the
      figure reported never exceeds the greatest. */
  lemma {:induction false} JitterStaysInBand(jitter: int, delays: seq<nat>, lo: nat, hi: nat)
    requires InBand(jitter, lo, hi)
    requires forall d :: d in delays ==> lo <= d <= hi
    ensures InBand(JitterAfter(jitter, delays), lo, hi)
    ensures JitterAfter(jitter, delays) / 16 <= hi
    decreases |delays|
  {
    if delays != [] {
      assert delays[0] in delays && forall d :: d in delays[1..] ==> d in delays;
      JitterStaysInBand(NextJitter(jitter, delays[0]), delays[1..], lo, hi);
    }
  }

  /** An estimate outside the band of the delays moves towards it. */
  lemma {:induction false} JitterApproachesBand(jitter: int, delay: nat, lo: nat, hi: nat)
    requires lo <= delay <= hi
    ensures (jitter + 8) / 16 < lo ==> jitter < NextJitter(jitter, delay)
    ensures (jitter + 8) / 16 > hi ==> jitter > NextJitter(jitter, delay)
  {}

  /** From a fresh source, whatever the delays: 0 <= jitter <= 16 * D + 7, so the figure
      reported never exceeds D. */
  lemma {:induction false} JitterIsBounded(jitter: int, delays: seq<nat>, d: nat)
    requires 0 <= jitter <= 16 * d + 7
    requires forall x :: x in delays ==> x <= d
    ensures 0 <= JitterAfter(jitter, delays) <= 16 * d + 7
    ensures 0 <= JitterAfter(jitter, delays) / 16 <= d
    decreases |delays|
  {
    if delays != [] {
      assert delays[0] in delays && forall x :: x in delays[1..] ==> x in delays;
      JitterIsBounded(NextJitter(jitter, delays[0]), delays[1..], d);
    }
  }

  /** Section 6.3.1 of RFC 1889, J := J + (D - J) / 16: sixteen times the step is sixteen
      times the delay less the estimate, to the nearest multiple of 16. */
  lemma {:induction false} JitterStep(jitter: int, delay: nat)
    ensures var step := NextJitter(jitter, delay) - jitter;
      -8 <= 16 * step - (16 * delay - jitter) < 8
    ensures NextJitter(jitter, delay) - jitter - delay == -((jitter + 8) / 16)
  {}

  /** Larger delays never give a smaller estimate. */
  lemma {:induction false} JitterIsMonotone(j0: int, j1: int, d0: seq<nat>, d1: seq<nat>)
    requires j0 <= j1 && |d0| == |d1| && forall i :: 0 <= i < |d0| ==> d0[i] <= d1[i]
    ensures JitterAfter(j0, d0) <= JitterAfter(j1, d1)
    decreases |d0|
  {
    if d0 != [] {
      JitterIsMonotone(NextJitter(j0, d0[0]), NextJitter(j1, d1[0]), d0[1..], d1[1..]);
    }
  }

  // ----- Sequence cycles -----

  const CYCLE_GAP := 10000
  const CYCLES_SPAN := 0x1_0000_0000

  /** Whether going from prev to next is taken for a wrap of the sequence space. */
  predicate CountsCycle(prev: SeqNumber, next: SeqNumber) {
    prev > next && prev > next + CYCLE_GAP
  }

  /** The index that a cycle count and a sequence number stand for. */
  function Extended(cycles: nat, seqNo: SeqNumber): nat { cycles * 0x1_0000 + seqNo }

  /** An in-order step is counted right unless it wraps and is too long to tell from
      a reordering. */
  lemma {:induction false} CycleIsCounted(u: nat, step: nat)
    requires step < 0x1_0000
    ensures var wraps := Seq16(u + step) < Seq16(u);
      (u + step) / 0x1_0000 == u / 0x1_0000 + (if CountsCycle(Seq16(u), Seq16(u + step)) then 1 else 0)
      <==> (!wraps || step < 55536)
  {}

  /** Indices of one source in the order received, none of them too far apart. */
  predicate InOrder(us: seq<nat>) {
    && |us| > 0 && us[0] < 0x1_0000
    && forall i :: 0 < i < |us| ==> 0 <= us[i] - us[i - 1] < 55536
  }

  /** The number received last and the cycles counted, over a run. */
  function CyclesAfter(us: seq<nat>): (nat, SeqNumber)
  {
    if us == [] then (0, 0) else
      var (cycles, prev) := CyclesAfter(us[..|us| - 1]);
      var next := Seq16(us[|us| - 1]);
      (if CountsCycle(prev, next) then (cycles + 1) % CYCLES_SPAN else cycles, next)
  }

  lemma {:induction false} ExtendedSplits(u: nat)
    ensures Extended(u / 0x1_0000 % CYCLES_SPAN, Seq16(u)) == u % (CYCLES_SPAN * 0x1_0000)
  {
    var q, r := u / 0x1_0000, u % 0x1_0000;
    var k, m := q / 0x1_0000_0000, q % 0x1_0000_0000;
    assert u == k * 0x1_0000_0000_0000 + (m * 0x1_0000 + r);
  }

  lemma {:induction false} CountStepsOn(cycles: nat)
    ensures (cycles % CYCLES_SPAN + 1) % CYCLES_SPAN == (cycles + 1) % CYCLES_SPAN
  {}

  lemma {:induction false} CountIsQuotient(us: seq<nat>)
    requires InOrder(us)
    ensures var u := us[|us| - 1];
      CyclesAfter(us) == (u / 0x1_0000 % CYCLES_SPAN, Seq16(u))
  {
    var n := |us|;
    var u := us[n - 1];
    if n == 1 {
      assert us[..0] == [];
    } else {
      var v := us[n - 2];
      assert us[..n - 1][n - 2] == v;
      CountIsQuotient(us[..n - 1]);
      CycleIsCounted(v, u - v);
      CountStepsOn(v / 0x1_0000);
      hide CountsCycle, Seq16;
    }
  }

  /** Over every in-order run the count and the last number give back the last index,
      as far as 32 bits of cycles reach. */
  lemma {:induction false} CyclesGiveIndex(us: seq<nat>)
    requires InOrder(us)
    ensures var (cycles, prev) := CyclesAfter(us);
      Extended(cycles, prev) == us[|us| - 1] % (CYCLES_SPAN * 0x1_0000)
  {
    CountIsQuotient(us);
    ExtendedSplits(us[|us| - 1]);
  }

  /** The figures kept about one source. */
  class SourceFigures {
    var jitter: int
    var lastTransitMs: int
    var realPrevSeqRecv: SeqNumber
    var recvCycles: nat
    /** What has been received since the source was added. */
    ghost var delays: seq<nat>
    ghost var indices: seq<nat>

    ghost predicate Valid()
      reads this
    {
      && jitter == JitterAfter(0, delays) && (forall d :: d in delays ==> d <= MAX_DELAY)
      && (recvCycles, realPrevSeqRecv) == CyclesAfter(indices)
    }

    constructor ()
      ensures Valid() && delays == [] && indices == []
    {
      jitter, lastTransitMs, realPrevSeqRecv, recvCycles := 0, 0, 0, 0;
      delays, indices := [], [];
    }

    method UpdateJitter(transitMs: int)
      requires Valid()
      modifies this`jitter, this`lastTransitMs, this`delays
      ensures Valid() && 0 <= jitter / 16 <= MAX_DELAY
      ensures 0 <= jitter / 16 <= 500000
      ensures |delays| > 0 && jitter == old(jitter) + delays[|delays| - 1] - (old(jitter) + 8) / 16
      ensures var delay := AsInt32(transitMs - old(lastTransitMs));
        var wrapped := delay > 500000 || delay < -500000;
        && delays == old(delays) + [if wrapped then 0 else if delay < 0 then -delay else delay]
        && lastTransitMs == (if wrapped then 0 else transitMs) % 0x1_0000_0000_0000_0000
    {
      hide AsInt32, NextJitter, JitterAfter, CyclesAfter;
      var transit := transitMs;
      var delay := AsInt32(transit - lastTransitMs);
      if delay > 500000 || delay < -500000 {
        transit := 0;
        delay := 0;
      }
      lastTransitMs := transit % 0x1_0000_0000_0000_0000;
      if delay < 0 {
        delay := -delay;
      }
      JitterAfterOneMore(0, delays, delay);
      NextJitterIs(jitter, delay);
      jitter := jitter + (delay - (jitter + 8) / 16);
      delays := delays + [delay];
      JitterIsBounded(0, delays, MAX_DELAY);
    }

    method UpdateCycles(ts: SeqNumber, ghost index: nat)
      requires Valid() && ts == Seq16(index)
      modifies this`realPrevSeqRecv, this`recvCycles, this`indices
      ensures Valid() && indices == old(indices) + [index] && realPrevSeqRecv == ts
      ensures recvCycles ==
        if old(realPrevSeqRecv) > ts + 10000 then (old(recvCycles) + 1) % 0x1_0000_0000 else old(recvCycles)
      ensures InOrder(indices) ==> recvCycles * 0x1_0000 + realPrevSeqRecv == index % 0x1_0000_0000_0000
    {
      if realPrevSeqRecv > ts {
        if realPrevSeqRecv > ts + 10000 {
          recvCycles := (recvCycles + 1) % CYCLES_SPAN;
        }
      }
      realPrevSeqRecv := ts;
      assert (indices + [index])[..|indices|] == indices;
      assert (recvCycles, ts) == CyclesAfter(indices + [index]);
      hide CyclesAfter, InOrder;
      indices := indices + [index];
      if InOrder(indices) {
        CyclesGiveIndex(indices);
      }
    }
  }

  lemma {:induction false} NextJitterIs(jitter: int, d: nat)
    ensures NextJitter(jitter, d) == jitter + (d - (jitter + 8) / 16)
  {}

  lemma {:induction false} JitterAfterOneMore(jitter: int, delays: seq<nat>, d: nat)
    ensures JitterAfter(jitter, delays + [d]) == NextJitter(JitterAfter(jitter, delays), d)
    decreases |delays|
  {
    if delays == [] {
      assert [d][1..] == [];
    } else {
      JitterAfterOneMore(NextJitter(jitter, delays[0]), delays[1..], d);
      assert (delays + [d])[1..] == delays[1..] + [d];
    }
  }
}
