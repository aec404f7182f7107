/** The ring itself, driven by a whole run of arrivals and playouts. */
module JitterService {
  import opened Options
  import opened SerialArithmetic
  import opened JitterQueue
  import opened JitterBuffer
  import opened UniformStream
  import opened JitterRuns
  import opened JitterSchedule
  import opened Transmitter

  /** One event: the answer of the self-check, and the frame that a playout hands out. */
  method ServeOne(r: RtpReceiver, e: WireEvent) returns (sane: bool, out: Option<Frame>)
    requires r.Represents()
    modifies r, r.jitterBuffer
    ensures e.Arrives? ==> out == None && (sane <==> !Misleads(old(r.state), e.packet, r.Cfg()))
    ensures e.Plays? ==> sane && out == Play(old(r.state), r.Cfg()).1
    ensures sane ==> r.Represents() && r.state == Step(old(r.state), e, r.Cfg())
  {
    hide RtpReceiver.Represents, Misleads, Receive, Play;
    out := None;
    match e {
      case Arrives(p) =>
        sane := r.ReadNetwork(p);
      case Plays =>
        sane := true;
        var got := r.Retrieve();
        if got.Retrieved? {
          out := Some(got.Frame());
        }
    }
  }

  /** What each event of a run hands out: a frame for a playout that finds one. */
  function OutputOf(st: Stream, s: JbState, es: seq<Event>, k: nat, c: Config): Option<Frame>
    requires s.Fits(c) && 0 < c.size && k < |es|
  {
    if es[k].Playout? then HandedOut(st, s, es, k, c) else None
  }

  /** The queue after k events. */
  function StateOf(st: Stream, s: JbState, es: seq<Event>, k: nat, c: Config): (r: JbState)
    requires s.Fits(c) && 0 < c.size && k <= |es|
    ensures r.Fits(c)
  {
    StateAt(s, OnWire(st, es), k, c)
  }

  lemma {:induction false} NextState(st: Stream, c: Config, w: Window, s: JbState, es: seq<Event>, k: nat)
    requires s.Fits(c) && 0 < c.size && k < |es|
    requires st.Uniform(c) && Tracks(st, c, w, s) && InReach(w, es, c)
    ensures var e, t := OnWire(st, es)[k], StateOf(st, s, es, k, c);
      && (e.Arrives? ==> !Misleads(t, e.packet, c))
      && StateOf(st, s, es, k + 1, c) == Step(t, e, c)
      && OutputOf(st, s, es, k, c) == if e.Plays? then Play(t, c).1 else None
  {
    hide Step, Play, Misleads, Tracks, InReach, Stream.Uniform;
    RunCommutes(st, c, w, s, es, k);
    assert OnWire(st, es)[k] == WireOf(st, es[k]);
  }

  lemma {:induction false} RunTracks(st: Stream, c: Config, w: Window, s: JbState, es: seq<Event>)
    requires st.Uniform(c) && Tracks(st, c, w, s) && InReach(w, es, c)
    ensures s.Fits(c) && 0 < c.size
    ensures StateOf(st, s, es, 0, c) == s
    ensures Tracks(st, c, WindowAt(w, es, |es|, c), StateOf(st, s, es, |es|, c))
  {
    RunCommutes(st, c, w, s, es, |es|);
  }

  /** Serves every event of a run on a uniform stream: the self-check passes each time, each
      playout hands out what the queue hands out, and the ring ends as the queue of the run. */
  method Serve(r: RtpReceiver, wire: seq<WireEvent>, ghost st: Stream, ghost es: seq<Event>, ghost w: Window)
    returns (sane: seq<bool>, out: seq<Option<Frame>>)
    requires r.Represents() && st.Uniform(r.Cfg()) && wire == OnWire(st, es)
    requires Tracks(st, r.Cfg(), w, r.state) && InReach(w, es, r.Cfg())
    modifies r, r.jitterBuffer
    ensures |sane| == |es| && forall k :: 0 <= k < |es| ==> sane[k]
    ensures |out| == |es| && forall k :: 0 <= k < |es| ==> out[k] == OutputOf(st, old(r.state), es, k, r.Cfg())
    ensures r.Represents() && r.state == StateOf(st, old(r.state), es, |es|, r.Cfg())
    ensures Tracks(st, r.Cfg(), WindowAt(w, es, |es|, r.Cfg()), r.state)
  {
    hide RtpReceiver.Represents, StateOf, OnWire, OutputOf, Tracks, InReach, WindowAt, Stream.Uniform, JbState.Fits,
         Served;
    ghost var c, s := r.Cfg(), r.state;
    RunTracks(st, c, w, s, es);
    NoneServed(st, s, es, c);
    sane, out := [], [];
    for k := 0 to |wire|
      invariant r.Represents() && r.state == StateOf(st, s, es, k, c)
      invariant Served(st, s, es, k, c, sane, out)
    {
      sane, out := ServeNext(r, wire[k], st, s, es, w, k, sane, out);
    }
    ServedAll(st, s, es, c, sane, out);
  }

  /** One round of the service. */
  method ServeNext(r: RtpReceiver, e: WireEvent, ghost st: Stream, ghost s: JbState, ghost es: seq<Event>,
                   ghost w: Window,
                   ghost k: nat, sane: seq<bool>, out: seq<Option<Frame>>)
    returns (sane': seq<bool>, out': seq<Option<Frame>>)
    requires s.Fits(r.Cfg()) && 0 < r.Cfg().size && k < |es| && e == OnWire(st, es)[k]
    requires st.Uniform(r.Cfg()) && Tracks(st, r.Cfg(), w, s) && InReach(w, es, r.Cfg())
    requires r.Represents() && r.state == StateOf(st, s, es, k, r.Cfg())
    requires Served(st, s, es, k, r.Cfg(), sane, out)
    modifies r, r.jitterBuffer
    ensures r.Represents() && r.state == StateOf(st, s, es, k + 1, r.Cfg())
    ensures Served(st, s, es, k + 1, r.Cfg(), sane', out')
  {
    hide RtpReceiver.Represents, Misleads, Step, StateOf, OnWire, OutputOf, Play, Tracks, InReach, Stream.Uniform,
         JbState.Fits, Served;
    NextState(st, r.Cfg(), w, s, es, k);
    ServedNext(st, s, es, k, r.Cfg(), sane, out);
    var ok, frame := ServeOne(r, e);
    sane', out' := sane + [ok], out + [frame];
  }

  /** k events have been served. */
  ghost predicate Served(st: Stream, s: JbState, es: seq<Event>, k: nat, c: Config, sane: seq<bool>,
                         out: seq<Option<Frame>>)
    requires s.Fits(c) && 0 < c.size && k <= |es|
  {
    && |sane| == k && (forall i :: 0 <= i < k ==> sane[i])
    && |out| == k && forall i :: 0 <= i < k ==> out[i] == OutputOf(st, s, es, i, c)
  }

  lemma {:induction false} NoneServed(st: Stream, s: JbState, es: seq<Event>, c: Config)
    requires s.Fits(c) && 0 < c.size
    ensures Served(st, s, es, 0, c, [], [])
    ensures |OnWire(st, es)| == |es|
  {}

  lemma {:induction false} ServedNext(st: Stream, s: JbState, es: seq<Event>, k: nat, c: Config, sane: seq<bool>,
                                      out: seq<Option<Frame>>)
    requires s.Fits(c) && 0 < c.size && k < |es| && Served(st, s, es, k, c, sane, out)
    ensures Served(st, s, es, k + 1, c, sane + [true], out + [OutputOf(st, s, es, k, c)])
  {
    hide OutputOf;
  }

  lemma {:induction false} ServedAll(st: Stream, s: JbState, es: seq<Event>, c: Config, sane: seq<bool>,
                                     out: seq<Option<Frame>>)
    requires s.Fits(c) && 0 < c.size && Served(st, s, es, |es|, c, sane, out)
    ensures |sane| == |es| && forall k :: 0 <= k < |es| ==> sane[k]
    ensures |out| == |es| && forall k :: 0 <= k < |es| ==> out[k] == OutputOf(st, s, es, k, c)
  {}

  /** The transmitter has sent the packet of this index. */
  ghost predicate IsSent(t: RtpTransmitter, u: int)
    reads t
  {
    t.firstIndex < u <= t.firstIndex + |t.sent|
  }

  ghost predicate AllSent(t: RtpTransmitter, es: seq<Event>)
    reads t
  {
    forall k :: 0 <= k < |es| && es[k].Arrival? ==> IsSent(t, es[k].index)
  }

  /** The payload sent under an index, as a frame. */
  ghost function SentFrame(t: RtpTransmitter, u: int): Frame
    reads t
  {
    Voice(Seq16(u), Time32(MediaTimeAt(t.time0, t.sampleSize, u)),
          if IsSent(t, u) then t.sent[u - t.firstIndex - 1] else [])
  }

  lemma {:induction false} SentIsVoice(t: RtpTransmitter, filler: seq<bv8>, u: int)
    requires IsSent(t, u)
    ensures VoiceOf(t.Sent(filler).PacketAt(u)) == SentFrame(t, u)
  {
    t.SentPacketIsOnStream(filler, u - t.firstIndex - 1);
  }

  /** What playout k of a busy period hands out, index[k] being the index of playout k. */
  ghost predicate OutputIsRight(t: RtpTransmitter, c: Config, u0: int, es: seq<Event>, index: seq<int>, k: nat,
                                out: Option<Frame>)
    requires k < |es| == |index|
    reads t
  {
    && (out == Some(if Arrived(u0, es, k, index[k]) then SentFrame(t, index[k])
                    else Silence(Seq16(index[k]), Time32(MediaTimeAt(t.time0, t.sampleSize, index[k])))))
    && forall j :: IsPrevious(es, j, k) ==>
         var n := Newest(u0, es, k);
         var next := if j >= 0 then index[j] + 1 else u0 - (if c.size / 2 > 1 then c.size / 2 - 1 else 0);
         var due := if n - c.size + 1 > next then n - c.size + 1 else next;
         && index[k] == (if !Arrived(u0, es, k, due) && c.size >= 2
                         && n - due + 1 > c.size / 2 + 1 then due + 1 else due)
         && forall v :: next <= v < index[k] ==>
              !Arrived(u0, es, k, v) || exists i :: 0 <= i < k && es[i].Arrival? && es[i].index >= v + c.size
  }

  function IndicesOf(u0: int, es: seq<Event>, c: Config): (index: seq<int>)
    ensures |index| == |es| && forall k :: 0 <= k < |es| ==> index[k] == Played(u0, es, k, c)
  {
    seq(|es|, k requires 0 <= k < |es| => Played(u0, es, k, c))
  }

  lemma {:induction false} ArrivedIsSent(t: RtpTransmitter, u0: int, es: seq<Event>, k: nat, v: int)
    requires IsSent(t, u0) && AllSent(t, es) && k <= |es| && Arrived(u0, es, k, v)
    ensures IsSent(t, v)
  {}

  lemma {:induction false} SilenceOfStream(t: RtpTransmitter, filler: seq<bv8>, v: int)
    ensures t.Sent(filler).SilenceAt(v) == Silence(Seq16(v), Time32(MediaTimeAt(t.time0, t.sampleSize, v)))
  {}

  lemma {:induction false} OutputMustBeRight(t: RtpTransmitter, filler: seq<bv8>, s: JbState, u0: int, es: seq<Event>,
                                             c: Config, k: nat)
    requires t.Sent(filler).Uniform(c) && s.queue == [] && IsSent(t, u0) && AllSent(t, es)
    requires InReach(Opened(u0, c), es, c) && Busy(Opened(u0, c), es, c)
    requires k < |es| && es[k] == Playout
    ensures var s0 := Receive(s, t.Sent(filler).PacketAt(u0), c);
      OutputIsRight(t, c, u0, es, IndicesOf(u0, es, c), k, HandedOut(t.Sent(filler), s0, es, k, c))
  {
    hide HandedOut, InReach, Busy, Stream.Uniform, WindowAt, Receive, RtpTransmitter.Sent, Newest, Arrived, Played,
         SentFrame, VoiceOf, Stream.PacketAt, IsPrevious;
    var st, index := t.Sent(filler), IndicesOf(u0, es, c);
    var v := index[k];
    var j := PreviousExists(es, k);
    PlayoutIsExact(st, c, s, u0, es, j, k);
    if Arrived(u0, es, k, v) {
      ArrivedIsSent(t, u0, es, k, v);
      SentIsVoice(t, filler, v);
    } else {
      SilenceOfStream(t, filler, v);
    }
    forall j' | IsPrevious(es, j', k) ensures j' == j {
      PreviousIsUnique(es, j, j', k);
    }
    PreviousInRange(es, j, k);
    forall v | (if j >= 0 then index[j] + 1 else u0 - (if c.size / 2 > 1 then c.size / 2 - 1 else 0)) <= v < index[k]
      ensures !Arrived(u0, es, k, v) || exists i :: 0 <= i < k && es[i].Arrival? && es[i].index >= v + c.size
    {
      PassedOver(st, c, s, u0, es, j, k, v);
      ArrivedMeans(u0, es, k, v);
    }
  }

  lemma {:induction false} ArrivedMeans(u0: int, es: seq<Event>, k: nat, v: int)
    requires k <= |es|
    ensures Arrived(u0, es, k, v) <==> v == u0 || exists i :: 0 <= i < k && es[i] == Arrival(v)
  {}

  lemma {:induction false} PreviousExists(es: seq<Event>, k: nat) returns (j: int)
    requires k <= |es|
    ensures IsPrevious(es, j, k)
  {
    if k == 0 {
      j := -1;
    } else if es[k - 1] == Playout {
      j := k - 1;
    } else {
      j := PreviousExists(es, k - 1);
    }
  }

  lemma {:induction false} PreviousIsUnique(es: seq<Event>, j: int, j': int, k: nat)
    requires k <= |es| && IsPrevious(es, j, k) && IsPrevious(es, j', k)
    ensures j == j'
  {}

  lemma {:induction false} PreviousInRange(es: seq<Event>, j: int, k: nat)
    requires k <= |es| && IsPrevious(es, j, k)
    ensures -1 <= j < k
  {}

  /** End to end: a busy period that a ring serves with packets of a transmitter.  Whatever
      the network drops, repeats or reorders, the playouts hand out strictly increasing
      indices, each as the payload sent if its packet has arrived and as silence if not; and
      an index is passed over only if its packet has not arrived, or was overrun. */
  method ServeBusyPeriod(r: RtpReceiver, first: Packet, wire: seq<WireEvent>,
                         ghost t: RtpTransmitter, ghost filler: seq<bv8>, ghost u0: int, ghost es: seq<Event>)
    returns (begun: bool, sane: seq<bool>, out: seq<Option<Frame>>, ghost index: seq<int>)
    requires r.Represents() && r.state.queue == []
    requires t.Sent(filler).Uniform(r.Cfg()) && first == t.Sent(filler).PacketAt(u0)
      && wire == OnWire(t.Sent(filler), es)
    requires IsSent(t, u0) && AllSent(t, es)
    requires InReach(Opened(u0, r.Cfg()), es, r.Cfg()) && Busy(Opened(u0, r.Cfg()), es, r.Cfg())
    modifies r, r.jitterBuffer
    ensures begun && |sane| == |es| && forall k :: 0 <= k < |es| ==> sane[k]
    ensures |out| == |index| == |es| && forall k :: 0 <= k < |es| && es[k] == Playout ==>
      OutputIsRight(t, r.Cfg(), u0, es, index, k, out[k])
    ensures forall j, k :: 0 <= j < k < |es| && es[j] == Playout && es[k] == Playout ==> index[j] < index[k]
  {
    hide OutputIsRight, OutputOf, Receive, Tracks, InReach, Busy, Stream.Uniform, RtpReceiver.Represents,
         RtpTransmitter.Sent, Misleads, Opened, Played;
    ghost var c, s, st, w := r.Cfg(), r.state, t.Sent(filler), Opened(u0, r.Cfg());
    index := IndicesOf(u0, es, c);
    FirstDoesNotMislead(st, c, s, u0);
    FirstIsTracked(st, c, s, u0);
    forall k | 0 <= k < |es| && es[k] == Playout
      ensures OutputIsRight(t, c, u0, es, index, k, OutputOf(st, Receive(s, st.PacketAt(u0), c), es, k, c))
    {
      OutputMustBeRight(t, filler, s, u0, es, c, k);
      OutputIsHandedOut(st, Receive(s, st.PacketAt(u0), c), es, k, c);
    }
    forall j, k | 0 <= j < k < |es| && es[j] == Playout && es[k] == Playout ensures index[j] < index[k] {
      PlayedIncreases(u0, es, j, k, c);
    }
    var none;
    begun, none := ServeOne(r, Arrives(first));
    sane, out := Serve(r, wire, st, es, w);
  }

  lemma {:induction false} OutputIsHandedOut(st: Stream, s: JbState, es: seq<Event>, k: nat, c: Config)
    requires s.Fits(c) && 0 < c.size && k < |es| && es[k] == Playout
    ensures OutputOf(st, s, es, k, c) == HandedOut(st, s, es, k, c)
  {}

  lemma {:induction false} PlayedIncreases(u0: int, es: seq<Event>, j: nat, k: nat, c: Config)
    requires Busy(Opened(u0, c), es, c) && j < k < |es| && es[j] == Playout
    ensures Played(u0, es, j, c) < Played(u0, es, k, c)
  {
    PlayoutsIncrease(Opened(u0, c), es, c, j, k);
  }

  lemma {:induction false} FirstDoesNotMislead(st: Stream, c: Config, s: JbState, u0: int)
    requires st.Uniform(c) && s.queue == []
    ensures s.Fits(c) && 0 < c.size && !Misleads(s, st.PacketAt(u0), c)
  {
    hide Misleads, Receive;
    ReceiveCommutes(st, c, Window(0, 0, {}), s, u0);
  }
}
