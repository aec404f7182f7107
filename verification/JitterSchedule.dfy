/** The schedule of the jitter buffer, said of what arrives and of what is handed out alone:
    which index each playout hands out, and what becomes of the indices in between. */
module JitterSchedule {
  import opened Options
  import opened JitterQueue
  import opened UniformStream
  import opened JitterRuns

  /** Packet v has arrived before event k; packet u0 opens the period. */
  ghost predicate Arrived(u0: int, es: seq<Event>, k: nat, v: int)
    requires k <= |es|
  {
    v == u0 || exists i :: 0 <= i < k && es[i] == Arrival(v)
  }

  /** The newest index that has arrived. */
  function Newest(u0: int, es: seq<Event>, k: nat): (n: int)
    requires k <= |es|
    ensures n >= u0 && forall i :: 0 <= i < k && es[i].Arrival? ==> es[i].index <= n
    ensures n == u0 || exists i :: 0 <= i < k && es[i] == Arrival(n)
  {
    if k == 0 then u0
    else
      var n := Newest(u0, es, k - 1);
      if es[k - 1].Arrival? && es[k - 1].index > n then es[k - 1].index else n
  }

  /** The window that packet u0 opens in an empty ring. */
  function Opened(u0: int, c: Config): Window { Window(0, 0, {}).Arrive(u0, c) }

  /** The index that playout k hands out. */
  function Played(u0: int, es: seq<Event>, k: nat, c: Config): int
    requires k <= |es|
  {
    WindowAt(Opened(u0, c), es, k, c).Next(c)
  }

  /** Playout j is the last before event k; -1 if there is none. */
  predicate IsPrevious(es: seq<Event>, j: int, k: nat)
    requires k <= |es|
  {
    -1 <= j < k && (j >= 0 ==> es[j] == Playout) && forall i :: j < i < k ==> es[i] != Playout
  }

  predicate Serves(c: Config) { 0 < c.size <= JITTER_BUFFER_MAX }

  // ----- The window is what has arrived and is still to be played -----

  lemma {:induction false} WindowFits(u0: int, es: seq<Event>, k: nat, c: Config)
    requires Serves(c) && Busy(Opened(u0, c), es, c) && k <= |es|
    ensures WindowAt(Opened(u0, c), es, k, c).WellFormed(c)
    ensures WindowAt(Opened(u0, c), es, k, c).Last() == Newest(u0, es, k)
  {
    hide Newest, Window.WellFormed;
    if k == 0 {
      OpenedFits(u0, es, c);
    } else {
      WindowFits(u0, es, k - 1, c);
      assert BusyAt(Opened(u0, c), es, k - 1, c);
      StepFits(WindowAt(Opened(u0, c), es, k - 1, c), es[k - 1], c);
      NewestNext(u0, es, k);
    }
  }

  lemma {:induction false} OpenedFits(u0: int, es: seq<Event>, c: Config)
    requires Serves(c)
    ensures Opened(u0, c).WellFormed(c) && Opened(u0, c).Last() == u0 == Newest(u0, es, 0)
    ensures Opened(u0, c).head == u0 - (if c.size / 2 > 1 then c.size / 2 - 1 else 0) && Opened(u0, c).stored == {u0}
  {}

  lemma {:induction false} NewestNext(u0: int, es: seq<Event>, k: nat)
    requires 0 < k <= |es|
    ensures Newest(u0, es, k) ==
      var n := Newest(u0, es, k - 1);
      if es[k - 1].Arrival? && es[k - 1].index > n then es[k - 1].index else n
  {}

  lemma {:induction false} StepFits(w: Window, e: Event, c: Config)
    requires Serves(c) && w.WellFormed(c) && w.count > 0 && (e.Arrival? ==> e.index <= w.Last() + c.size)
    ensures var w' := StepWindow(w, e, c);
      && w'.WellFormed(c)
      && w'.Last() == (if e.Arrival? && e.index > w.Last() then e.index else w.Last())
      && w'.head == (if e.Playout? then w.Next(c) + 1
                     else if w'.Last() - c.size + 1 > w.head then w'.Last() - c.size + 1 else w.head)
  {}

  /** The oldest index queued is the one after the last that was handed out, unless newer
      arrivals have pushed it out. */
  lemma {:induction false} HeadIsDue(u0: int, es: seq<Event>, j: int, k: nat, c: Config)
    requires Serves(c) && Busy(Opened(u0, c), es, c) && k <= |es| && IsPrevious(es, j, k)
    ensures WindowAt(Opened(u0, c), es, k, c).head == Due(u0, es, j, k, c)
    decreases k
  {
    hide Newest, Opened, Window.WellFormed, Window.Last, Window.Next, StepWindow;
    var w := Opened(u0, c);
    OpenedFits(u0, es, c);
    WindowFits(u0, es, k, c);
    HeadInReach(WindowAt(w, es, k, c), c);
    if k > 0 {
      var before := WindowAt(w, es, k - 1, c);
      assert BusyAt(w, es, k - 1, c);
      WindowFits(u0, es, k - 1, c);
      StepFits(before, es[k - 1], c);
      if j < k - 1 {
        HeadIsDue(u0, es, j, k - 1, c);
      }
      NewestNext(u0, es, k);
    }
  }

  lemma {:induction false} HeadInReach(w: Window, c: Config)
    requires w.WellFormed(c)
    ensures w.head >= w.Last() - c.size + 1
  {}

  /** The index due at event k: the one after the last handed out, or at the start the
      first of the silences that go before the first packet; or the oldest that a ring of
      c.size slots can hold when the newest arrival is in it. */
  function Due(u0: int, es: seq<Event>, j: int, k: nat, c: Config): int
    requires k <= |es| && IsPrevious(es, j, k)
  {
    var next := if j >= 0 then Played(u0, es, j, c) + 1 else u0 - (if c.size / 2 > 1 then c.size / 2 - 1 else 0);
    var oldest := Newest(u0, es, k) - c.size + 1;
    if oldest > next then oldest else next
  }

  /** What is queued as voice is what has arrived. */
  lemma {:induction false} ArrivedIsStored(u0: int, es: seq<Event>, k: nat, c: Config, v: int)
    requires Serves(c) && Busy(Opened(u0, c), es, c) && k <= |es| && v >= WindowAt(Opened(u0, c), es, k, c).head
    ensures v in WindowAt(Opened(u0, c), es, k, c).stored <==> Arrived(u0, es, k, v)
  {
    hide WindowAt;
    var w := Opened(u0, c);
    OpenedFits(u0, es, c);
    StoredMeansArrivedInTime(w, es, c, v, k);
    if ArrivedInTime(w, es, c, v, k) {
      var i :| 0 <= i < k && ArrivesInTimeAt(w, es, c, v, i);
    }
    if i :| 0 <= i < k && es[i] == Arrival(v) {
      HeadAdvances(w, es, c, i, k);
      assert ArrivesInTimeAt(w, es, c, v, i);
    }
  }

  // ----- The schedule -----

  /** Which index each playout of a busy period hands out: the one due; or, when that has
      not arrived and more than half the ring and one are queued, the one after it.  It is
      handed out as its packet if that has arrived, and as silence if not. */
  lemma {:induction false} PlayoutIsExact(st: Stream, c: Config, s: JbState, u0: int, es: seq<Event>, j: int, k: nat)
    requires st.Uniform(c) && s.queue == []
    requires InReach(Opened(u0, c), es, c) && Busy(Opened(u0, c), es, c)
    requires k < |es| && es[k] == Playout && IsPrevious(es, j, k)
    ensures var n, v := Newest(u0, es, k), Played(u0, es, k, c);
      var next := if j >= 0 then Played(u0, es, j, c) + 1 else u0 - (if c.size / 2 > 1 then c.size / 2 - 1 else 0);
      var due := if n - c.size + 1 > next then n - c.size + 1 else next;
      && v == (if !Arrived(u0, es, k, due) && c.size >= 2 && n - due + 1 > c.size / 2 + 1 then due + 1 else due)
      && v <= n
      && HandedOut(st, Receive(s, st.PacketAt(u0), c), es, k, c)
         == Some(if Arrived(u0, es, k, v) then VoiceOf(st.PacketAt(v)) else st.SilenceAt(v))
  {
    hide WindowAt, Arrived, Newest, HandedOut, Stream.PacketAt, Stream.SilenceAt, VoiceOf, Receive, Window.WellFormed;
    var w := WindowAt(Opened(u0, c), es, k, c);
    UniformServes(st, c);
    HeadIsDue(u0, es, j, k, c);
    WindowFits(u0, es, k, c);
    ArrivedIsStored(u0, es, k, c, w.head);
    ArrivedIsStored(u0, es, k, c, w.Next(c));
    assert BusyAt(Opened(u0, c), es, k, c);
    OutputAt(st, c, s, u0, es, k);
  }

  lemma {:induction false} UniformServes(st: Stream, c: Config)
    requires st.Uniform(c)
    ensures Serves(c)
  {}

  lemma {:induction false} OutputAt(st: Stream, c: Config, s: JbState, u0: int, es: seq<Event>, k: nat)
    requires st.Uniform(c) && s.queue == []
    requires InReach(Opened(u0, c), es, c) && Busy(Opened(u0, c), es, c)
    requires k < |es| && es[k] == Playout
    ensures var w := WindowAt(Opened(u0, c), es, k, c);
      && w.count > 0
      && HandedOut(st, Receive(s, st.PacketAt(u0), c), es, k, c) == Some(w.FrameAt(st, w.Next(c)))
  {
    hide WindowAt, Stream.Uniform, InReach, Receive, Step, Play;
    var w := Opened(u0, c);
    assert BusyAt(w, es, k, c);
    FirstIsTracked(st, c, s, u0);
    var s0 := Receive(s, st.PacketAt(u0), c);
    RunCommutes(st, c, w, s0, es, k);
    PlayCommutes(st, c, WindowAt(w, es, k, c), StateAt(s0, OnWire(st, es), k, c));
  }

  lemma {:induction false} FirstIsTracked(st: Stream, c: Config, s: JbState, u0: int)
    requires st.Uniform(c) && s.queue == []
    ensures s.Fits(c) && 0 < c.size && Tracks(st, c, Opened(u0, c), Receive(s, st.PacketAt(u0), c))
  {
    hide Receive;
    ReceiveCommutes(st, c, Window(0, 0, {}), s, u0);
  }

  /** Of the indices between two that are handed out one after the other, and of those
      before the first, each was overrun by a packet a whole ring ahead of it, or had not
      arrived: voice that arrived is never thrown away to catch up. */
  lemma {:induction false} PassedOver(st: Stream, c: Config, s: JbState, u0: int, es: seq<Event>, j: int, k: nat,
                                      v: int)
    requires st.Uniform(c) && s.queue == []
    requires InReach(Opened(u0, c), es, c) && Busy(Opened(u0, c), es, c)
    requires k < |es| && es[k] == Playout && IsPrevious(es, j, k)
    requires v < Played(u0, es, k, c)
    requires if j >= 0 then v > Played(u0, es, j, c) else v >= u0 - (if c.size / 2 > 1 then c.size / 2 - 1 else 0)
    ensures !(v == u0 || exists i :: 0 <= i < k && es[i] == Arrival(v))
      || exists i :: 0 <= i < k && es[i].Arrival? && es[i].index >= v + c.size
  {
    hide WindowAt, HandedOut, Receive, Played;
    PlayoutIsExact(st, c, s, u0, es, j, k);
    FirstIsEarliest(u0, es, j, k, c, st);
    var n := Newest(u0, es, k);
    if n >= v + c.size {
      assert n != u0;
      var i :| 0 <= i < k && es[i] == Arrival(n);
    }
  }

  /** Nothing is handed out from before the first silence. */
  lemma {:induction false} FirstIsEarliest(u0: int, es: seq<Event>, j: int, k: nat, c: Config, st: Stream)
    requires st.Uniform(c) && Busy(Opened(u0, c), es, c) && k <= |es| && IsPrevious(es, j, k)
    ensures j >= 0 ==> Played(u0, es, j, c) > u0 - c.size
    ensures u0 - (if c.size / 2 > 1 then c.size / 2 - 1 else 0) > u0 - c.size
  {
    if j >= 0 {
      HeadAdvances(Opened(u0, c), es, c, 0, j);
      OpenedFits(u0, es, c);
    }
  }

  // ----- Arrivals -----

  /** What the arrival of packet u makes of a queue that holds the indices from h to l: an
      empty queue, or one that is more than a ring behind, starts afresh with silences
      before u; otherwise the queue grows to u with silences in between and loses what a
      ring cannot hold; an index still queued becomes voice; and an older one is dropped. */
  lemma {:induction false} ArrivalIsExact(st: Stream, c: Config, w: Window, s: JbState, u: int)
    requires st.Uniform(c) && Tracks(st, c, w, s) && w.InReach(u)
    ensures var (h, l, q) := (w.head, w.head + |s.queue| - 1, Receive(s, st.PacketAt(u), c).queue);
      if s.queue == [] || u > l + c.size then
        var first := u - (if c.size / 2 > 1 then c.size / 2 - 1 else 0);
        && |q| == u - first + 1 && q[|q| - 1] == VoiceOf(st.PacketAt(u))
        && forall i :: 0 <= i < |q| - 1 ==> q[i] == st.SilenceAt(first + i)
      else if u > l then
        var first := if u - c.size + 1 > h then u - c.size + 1 else h;
        && |q| == u - first + 1 && q[|q| - 1] == VoiceOf(st.PacketAt(u))
        && forall i :: 0 <= i < |q| - 1 ==>
             q[i] == if first + i <= l then s.queue[first + i - h] else st.SilenceAt(first + i)
      else if u >= h then
        q == s.queue[u - h := VoiceOf(st.PacketAt(u))]
      else
        q == s.queue
  {
    hide Receive, Stream.PacketAt, Stream.SilenceAt, VoiceOf, Stream.Uniform, Misleads;
    UniformServes(st, c);
    ReceiveCommutes(st, c, w, s, u);
    var w' := w.Arrive(u, c);
    var q := Receive(s, st.PacketAt(u), c).queue;
    assert q == w'.Render(st) && s.queue == w.Render(st);
    if s.queue != [] && u <= w.Last() && u >= w.head {
      assert forall i :: 0 <= i < |q| ==> q[i] == s.queue[u - w.head := VoiceOf(st.PacketAt(u))][i];
    }
  }

  /** The sizes that the code takes: a payload of 1 to 1012 octets, a ring of at most 1024
      slots, and samples of less than 1472. */
  lemma {:induction false} SizesTaken(p: Packet, st: Stream, c: Config)
    ensures ValidSize(p) <==> 1 <= |p.payload| <= 1012
    ensures st.Uniform(c) <==>
      && 0 < st.sampleSize == c.sampleSize < 1472 && 1 <= c.size <= 1024
      && forall u :: 1 <= |st.PacketAt(u).payload| <= 1012
  {}
}
