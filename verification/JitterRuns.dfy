/** Whole runs of the jitter buffer: what holds after every sequence of arrivals and
    playouts, in whatever order the network delivers. */
module JitterRuns {
  import opened Options
  import opened JitterQueue
  import opened UniformStream

  // ----- Any packets -----

  datatype WireEvent = Arrives(packet: Packet) | Plays

  function Step(s: JbState, e: WireEvent, c: Config): (r: JbState)
    requires s.Fits(c) && 0 < c.size
    ensures r.Fits(c)
  {
    match e
    case Arrives(p) => Receive(s, p, c)
    case Plays => Play(s, c).0
  }

  function StateAt(s: JbState, es: seq<WireEvent>, k: nat, c: Config): (r: JbState)
    requires s.Fits(c) && 0 < c.size && k <= |es|
    ensures r.Fits(c)
  {
    if k == 0 then s else Step(StateAt(s, es, k - 1, c), es[k - 1], c)
  }

  /** Every slot appended since the last clear was played, discarded as a silence,
      overrun in a full ring, or is still queued. */
  predicate Conserved(s: JbState) {
    s.ledger.appended == s.ledger.played + s.ledger.discarded + s.ledger.overrun + |s.queue|
  }

  lemma {:induction false} PrimeConserves(s: JbState, p: Packet, c: Config, n: nat)
    requires s.Fits(c) && 0 < c.size && Conserved(s)
    ensures Conserved(Prime(s, p, c, n))
    decreases n
  {
    if n > 0 {
      PrimeConserves(s.Push(PrimeFrame(p, c, n), c), p, c, n - 1);
    }
  }

  /** Patching fills fewer slots than the sequence gap, and so fewer than the ring has,
      whatever the timestamps say. */
  lemma {:induction false} PatchConserves(s: JbState, p: Packet, c: Config)
    requires s.Fits(c) && s.queue != [] && Conserved(s)
    ensures Conserved(Patch(s, p, c))
    ensures var n := Patch(s, p, c).ledger.appended - s.ledger.appended;
      0 <= n && (n > 0 ==> n < s.Ahead(p))
    decreases if s.Ahead(p) > 0 then s.Ahead(p) else 0
  {
    if NeedsPatch(s, p, c) {
      PatchStep(s, p, c);
      PatchConserves(s.Push(PatchFrame(s, c), c), p, c);
    }
  }

  lemma {:induction false} PatchIsShorterThanRing(s: JbState, p: Packet, c: Config)
    requires s.Fits(c) && 0 < c.size && Conserved(s) && Cleared(s, p, c).queue != []
    ensures Patch(Cleared(s, p, c), p, c).ledger.appended - Cleared(s, p, c).ledger.appended <= c.size - 1
  {
    PatchConserves(Cleared(s, p, c), p, c);
  }

  /** The j-th event is the arrival of a packet that is written over a queued frame, or
      dropped. */
  predicate IsLate(es: seq<WireEvent>, j: nat, c: Config)
    requires 0 < c.size && j < |es|
  {
    es[j].Arrives? && !IsAppended(StateAt(Empty, es, j, c), es[j].packet, c)
  }

  lemma {:induction false} RunConserves(es: seq<WireEvent>, k: nat, c: Config)
    requires 0 < c.size && k <= |es|
    ensures Conserved(StateAt(Empty, es, k, c))
    ensures k > 0 && IsLate(es, k - 1, c) ==>
      var before, after := StateAt(Empty, es, k - 1, c), StateAt(Empty, es, k, c);
      after.ledger == before.ledger && |after.queue| == |before.queue|
    decreases k
  {
    hide Receive, IsAppended;
    if k > 0 {
      RunConserves(es, k - 1, c);
      var s := StateAt(Empty, es, k - 1, c);
      match es[k - 1]
      case Plays =>
      case Arrives(p) =>
        ReceiveConserves(s, p, c);
        LateCountsNothing(s, p, c);
    }
  }

  /** A push counts one slot appended, and one overrun when the ring is full; a playout
      counts one played, and one discarded when two frames leave the queue. */
  lemma {:induction false} WhatIsCounted(s: JbState, f: Frame, c: Config)
    requires s.Fits(c) && 0 < c.size
    ensures var (a, b) := (s.ledger, s.Push(f, c).ledger);
      && b.appended == a.appended + 1 && b.overrun == a.overrun + (if |s.queue| == c.size then 1 else 0)
      && b.played == a.played && b.discarded == a.discarded
    ensures var (a, b, left) := (s.ledger, Play(s, c).0.ledger, |s.queue| - |Play(s, c).0.queue|);
      && b.appended == a.appended && b.overrun == a.overrun
      && b.played == a.played + (if left > 0 then 1 else 0) && b.discarded == a.discarded + (if left > 1 then 1 else 0)
  {}

  lemma {:induction false} LateCountsNothing(s: JbState, p: Packet, c: Config)
    requires s.Fits(c) && 0 < c.size
    ensures !IsAppended(s, p, c) ==> Receive(s, p, c).ledger == s.ledger && |Receive(s, p, c).queue| == |s.queue|
  {
    hide Patch, Prime, JbState.Push;
  }

  lemma {:induction false} ReceiveConserves(s: JbState, p: Packet, c: Config)
    requires s.Fits(c) && 0 < c.size && Conserved(s)
    ensures Conserved(Receive(s, p, c))
  {
    hide Store, Misleads, Prime, Patch;
    if ValidSize(p) {
      WaysToStore(s, p, c);
      var s0 := Cleared(s, p, c);
      PrimeConserves(if s0.queue == [] then s0 else Empty, p, c, PrimeCount(c));
      if s0.queue != [] {
        PatchConserves(s0, p, c);
      }
    }
  }

  // ----- A uniform stream -----

  /** What the network does to the packets of a stream, and what the player does. */
  datatype Event = Arrival(index: int) | Playout

  function WireOf(st: Stream, e: Event): WireEvent {
    match e
    case Arrival(u) => Arrives(st.PacketAt(u))
    case Playout => Plays
  }

  function OnWire(st: Stream, es: seq<Event>): (ws: seq<WireEvent>)
    ensures |ws| == |es|
  {
    seq(|es|, i requires 0 <= i < |es| => WireOf(st, es[i]))
  }

  function StepWindow(w: Window, e: Event, c: Config): Window {
    match e
    case Arrival(u) => w.Arrive(u, c)
    case Playout => w.Play(c)
  }

  function WindowAt(w: Window, es: seq<Event>, k: nat, c: Config): Window
    requires k <= |es|
  {
    if k == 0 then w else StepWindow(WindowAt(w, es, k - 1, c), es[k - 1], c)
  }

  /** Event k, if an arrival, is within half the sequence space of the newest frame. */
  predicate InReachAt(w: Window, es: seq<Event>, k: nat, c: Config)
    requires k < |es|
  {
    es[k].Arrival? ==> WindowAt(w, es, k, c).InReach(es[k].index)
  }

  ghost predicate InReach(w: Window, es: seq<Event>, c: Config) {
    forall k :: 0 <= k < |es| ==> InReachAt(w, es, k, c)
  }

  /** Event k finds the ring not empty and does not clear it. */
  predicate BusyAt(w: Window, es: seq<Event>, k: nat, c: Config)
    requires k < |es|
  {
    var v := WindowAt(w, es, k, c);
    v.count > 0 && (es[k].Arrival? ==> es[k].index <= v.Last() + c.size)
  }

  ghost predicate Busy(w: Window, es: seq<Event>, c: Config) {
    forall k :: 0 <= k < |es| ==> BusyAt(w, es, k, c)
  }

  /** The queue is the one that the window describes. */
  predicate Tracks(st: Stream, c: Config, w: Window, s: JbState) {
    w.WellFormed(c) && s.queue == w.Render(st)
  }

  lemma {:induction false} StepCommutes(st: Stream, c: Config, w: Window, s: JbState, e: Event)
    requires st.Uniform(c) && Tracks(st, c, w, s) && (e.Arrival? ==> w.InReach(e.index))
    ensures Tracks(st, c, StepWindow(w, e, c), Step(s, WireOf(st, e), c))
    ensures e.Arrival? ==> !Misleads(s, st.PacketAt(e.index), c)
  {
    match e
    case Arrival(u) => ReceiveCommutes(st, c, w, s, u);
    case Playout => PlayCommutes(st, c, w, s);
  }

  /** Over every run the queue is the one that the window of indices describes, and no
      arrival misleads the ring. */
  lemma {:induction false} RunCommutes(st: Stream, c: Config, w: Window, s: JbState, es: seq<Event>, k: nat)
    requires st.Uniform(c) && Tracks(st, c, w, s) && InReach(w, es, c) && k <= |es|
    ensures Tracks(st, c, WindowAt(w, es, k, c), StateAt(s, OnWire(st, es), k, c))
    ensures k < |es| && es[k].Arrival? ==>
      !Misleads(StateAt(s, OnWire(st, es), k, c), st.PacketAt(es[k].index), c)
    decreases k
  {
    hide Step, StepWindow;
    if k > 0 {
      RunCommutes(st, c, w, s, es, k - 1);
      var v, t, e := WindowAt(w, es, k - 1, c), StateAt(s, OnWire(st, es), k - 1, c), es[k - 1];
      assert e.Arrival? ==> v.InReach(e.index) by { assert InReachAt(w, es, k - 1, c); }
      StepCommutes(st, c, v, t, e);
      assert WindowAt(w, es, k, c) == StepWindow(v, e, c);
      assert StateAt(s, OnWire(st, es), k, c) == Step(t, WireOf(st, e), c);
    }
    if k < |es| {
      var v, t, e := WindowAt(w, es, k, c), StateAt(s, OnWire(st, es), k, c), es[k];
      assert e.Arrival? ==> v.InReach(e.index) by { assert InReachAt(w, es, k, c); }
      StepCommutes(st, c, v, t, e);
    }
  }

  /** The oldest index only moves forward in a busy period. */
  lemma {:induction false} HeadAdvances(w: Window, es: seq<Event>, c: Config, j: nat, k: nat)
    requires Busy(w, es, c) && j <= k <= |es|
    ensures WindowAt(w, es, j, c).head <= WindowAt(w, es, k, c).head
    decreases k - j
  {
    if j < k {
      HeadAdvances(w, es, c, j, k - 1);
      assert BusyAt(w, es, k - 1, c);
    }
  }

  /** The indices handed out in a busy period strictly increase. */
  lemma {:induction false} PlayoutsIncrease(w: Window, es: seq<Event>, c: Config, j: nat, k: nat)
    requires Busy(w, es, c) && j < k < |es| && es[j] == Playout
    ensures WindowAt(w, es, j, c).Next(c) < WindowAt(w, es, k, c).Next(c)
  {
    assert BusyAt(w, es, j, c);
    assert WindowAt(w, es, j + 1, c) == WindowAt(w, es, j, c).Play(c);
    HeadAdvances(w, es, c, j + 1, k);
  }

  /** Event j is the arrival of packet v while its slot is still to be played. */
  predicate ArrivesInTimeAt(w: Window, es: seq<Event>, c: Config, v: int, j: nat)
    requires j < |es|
  {
    es[j] == Arrival(v) && v >= WindowAt(w, es, j, c).head
  }

  ghost predicate ArrivedInTime(w: Window, es: seq<Event>, c: Config, v: int, k: nat)
    requires k <= |es|
  {
    exists j :: 0 <= j < k && ArrivesInTimeAt(w, es, c, v, j)
  }

  lemma {:induction false} StoredMeansArrivedInTime(w: Window, es: seq<Event>, c: Config, v: int, k: nat)
    requires Busy(w, es, c) && k <= |es|
    ensures v in WindowAt(w, es, k, c).stored <==> v in w.stored || ArrivedInTime(w, es, c, v, k)
    decreases k
  {
    if k > 0 {
      StoredMeansArrivedInTime(w, es, c, v, k - 1);
      assert BusyAt(w, es, k - 1, c);
      assert ArrivedInTime(w, es, c, v, k) <==>
        ArrivedInTime(w, es, c, v, k - 1) || ArrivesInTimeAt(w, es, c, v, k - 1);
    }
  }

  /** What playout k of a run hands out. */
  function HandedOut(st: Stream, s: JbState, es: seq<Event>, k: nat, c: Config): Option<Frame>
    requires s.Fits(c) && 0 < c.size && k < |es|
  {
    Play(StateAt(s, OnWire(st, es), k, c), c).1
  }

  /** End to end: in a busy period that packet u0 opens, through a network that drops,
      duplicates and reorders, each playout hands out the frame of one index; it is that
      index's own packet if the packet arrived while its slot was still to be played,
      and silence if it did not; and the indices handed out strictly increase. */
  lemma {:induction false} EndToEnd(st: Stream, c: Config, s: JbState, u0: int, es: seq<Event>, k: nat)
    requires st.Uniform(c) && s.queue == []
    requires var w := Window(0, 0, {}).Arrive(u0, c); InReach(w, es, c) && Busy(w, es, c)
    requires k < |es| && es[k] == Playout
    ensures var w, s0 := Window(0, 0, {}).Arrive(u0, c), Receive(s, st.PacketAt(u0), c);
      var v := WindowAt(w, es, k, c).Next(c);
      && HandedOut(st, s0, es, k, c)
         == Some(if v == u0 || ArrivedInTime(w, es, c, v, k) then VoiceOf(st.PacketAt(v)) else st.SilenceAt(v))
      && forall j :: 0 <= j < k && es[j] == Playout ==> WindowAt(w, es, j, c).Next(c) < v
  {
    var w, s0 := Window(0, 0, {}).Arrive(u0, c), Receive(s, st.PacketAt(u0), c);
    ReceiveCommutes(st, c, Window(0, 0, {}), s, u0);
    RunCommutes(st, c, w, s0, es, k);
    var wk := WindowAt(w, es, k, c);
    assert BusyAt(w, es, k, c);
    PlayCommutes(st, c, wk, StateAt(s0, OnWire(st, es), k, c));
    StoredMeansArrivedInTime(w, es, c, wk.Next(c), k);
    forall j | 0 <= j < k && es[j] == Playout
      ensures WindowAt(w, es, j, c).Next(c) < wk.Next(c)
    {
      PlayoutsIncrease(w, es, c, j, k);
    }
  }
}
