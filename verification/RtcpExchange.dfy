/** A compound packet from the session that sends it to the receiver that reads it. */
module RtcpExchange {
  import opened Options
  import opened Bytes
  import opened RtcpBlocks
  import opened RtcpArena
  import opened RtcpBuilder
  import opened RtcpRoom
  import opened RtcpWalker

  /** What a datagram leaves in the packet array: its octets, and behind them whatever was
      there before. */
  function Arrived(sent: seq<byte>, buffer: seq<byte>): (packet: seq<byte>)
    requires |sent| <= |buffer| == RTCP_PACKETSIZE
    ensures |packet| == RTCP_PACKETSIZE && packet[..|sent|] == sent
  {
    sent + buffer[|sent|..]
  }

  /** The transmitters known once a sender has reported, and once it has left. */
  function Known(sources: set<Word32>, sender: Option<SenderInfo>): set<Word32> {
    if sender.Some? then sources + {sender.value.ssrc} else sources
  }

  function Remaining(sources: set<Word32>, sender: Option<SenderInfo>): set<Word32> {
    if sender.Some? then sources - {sender.value.ssrc} else sources
  }

  predicate AllReported(xs: seq<Said>) { forall i :: 0 <= i < |xs| ==> xs[i].Reported? }

  lemma {:induction false} HearReported(s: Hearing, xs: seq<Said>)
    requires s.Hearing? && AllReported(xs)
    ensures s.HearAll(xs) == Hearing(s.sources, s.said + xs)
    decreases |xs|
  {
    if xs != [] {
      HearReported(s.Hear(xs[0]), xs[1..]);
      assert s.said + [xs[0]] + xs[1..] == s.said + xs;
    } else {
      assert s.said + xs == s.said;
    }
  }

  /** A session that only receives sends one report, which is about others. */
  lemma {:induction false} ReceiverMeans(infos: seq<TranInfo>, s: Hearing)
    requires s.Hearing?
    ensures var said := MeaningOf([Report(None, ReportsOf(infos))]);
      s.HearAll(said) == Hearing(s.sources, s.said + said)
  {
    hide ReportsOf, MeaningOf, Hearing.HearAll;
    var blocks := [Report(None, ReportsOf(infos))];
    ReportMeans(blocks);
    HearReported(s, MeaningOf(blocks));
  }

  lemma {:induction false} ReportMeans(blocks: seq<Block>)
    requires |blocks| == 1 && blocks[0].Report? && blocks[0].sender.None?
    ensures AllReported(MeaningOf(blocks))
  {
    assert MeaningOf([]) == [] && blocks[1..] == [];
    assert MeaningOf(blocks) == Meaning(blocks[0]);
  }

  lemma {:induction false} OneReport(sender: Option<SenderInfo>, infos: seq<TranInfo>, info: SdesInfo)
    requires sender.None?
    ensures Regular(sender, infos, info) == Farewell(sender, infos, info) == [Report(None, ReportsOf(infos))]
  {}

  /** A regular report makes its sender known. */
  lemma {:induction false} RegularSays(sender: Option<SenderInfo>, infos: seq<TranInfo>, info: SdesInfo, s: Hearing)
    requires s.Hearing?
    ensures var said := MeaningOf(Regular(sender, infos, info));
      s.HearAll(said) == Hearing(Known(s.sources, sender), s.said + said)
  {
    hide ReportsOf, MeaningOf, Hearing.HearAll, Regular;
    if sender.Some? {
      RegularMeans(sender.value, infos, info, s);
    } else {
      OneReport(sender, infos, info);
      ReceiverMeans(infos, s);
    }
  }

  /** A last report makes it unknown. */
  lemma {:induction false} FarewellSays(sender: Option<SenderInfo>, infos: seq<TranInfo>, info: SdesInfo, s: Hearing)
    requires s.Hearing?
    ensures var said := MeaningOf(Farewell(sender, infos, info));
      s.HearAll(said) == Hearing(Remaining(s.sources, sender), s.said + said)
  {
    hide ReportsOf, MeaningOf, Hearing.HearAll, Farewell;
    if sender.Some? {
      FarewellMeans(sender.value, infos, info, s);
    } else {
      OneReport(sender, infos, info);
      ReceiverMeans(infos, s);
    }
  }

  // ----- From object to object -----

  predicate HasBye(blocks: seq<Block>) { exists i :: 0 <= i < |blocks| && blocks[i].Bye? }

  /** The answer of the reader tells whether a goodbye was among the blocks. */
  lemma {:induction false} GoodbyeIsFound(blocks: seq<Block>)
    requires Compound(blocks)
    ensures Partition(Concat(Parts(blocks))).Some?
    ensures HasType(Partition(Concat(Parts(blocks))).value, TYPE_BYE) <==> HasBye(blocks)
  {
    hide Partition, Concat, Block.Bytes, Block.Fits;
    CompoundIsValid(blocks);
    var ps := Parts(blocks);
    forall i | 0 <= i < |ps| ensures IsOfType(ps[i], TYPE_BYE) <==> blocks[i].Bye? {
      BytesAreBlock(blocks[i]);
    }
    if HasBye(blocks) {
      var i :| 0 <= i < |blocks| && blocks[i].Bye?;
      assert ps[i] in ps;
    }
  }

  /** The check passes a compound packet, and the reader hears what its blocks mean, unless
      they say that a source leaves which is not known then. */
  method Deliver(r: RtcpReceiver, sent: seq<byte>, buffer: seq<byte>, ghost blocks: seq<Block>)
    returns (valid: bool, ok: bool, ret: int)
    requires Compound(blocks) && sent == Concat(Parts(blocks)) && |sent| <= |buffer| == RTCP_PACKETSIZE
    modifies r
    ensures valid
    ensures ok <==> !LeavesUnknown(old(r.sources), MeaningOf(blocks))
    ensures var after := old(r.State()).HearAll(MeaningOf(blocks));
      if ok then after == r.State() && ret == (if HasBye(blocks) then 1 else 0) else after == Lost
  {
    hide Concat, Parts, MeaningOf, Hearing.HearAll, HearAllBlocks, IsCompound, Partition, HasBye, HasType,
         Compound, LeavesUnknown;
    CompoundIsValid(blocks);
    CompoundIsHeard(blocks, buffer[|sent|..], r.State());
    GoodbyeIsFound(blocks);
    LostIsExact(r.State(), MeaningOf(blocks));
    CompoundIsNotEmpty(sent);
    var packet := Arrived(sent, buffer);
    valid := r.IsValid(packet, |sent|);
    ok, ret := r.ReadRTCP(packet, |sent|);
  }

  lemma {:induction false} CompoundIsNotEmpty(b: seq<byte>)
    requires IsCompound(b)
    ensures b != []
  {}

  /** A regular report, sent and received.  Not ok: it could not be laid out. */
  method RegularExchange(state: SessionState, sender: Option<SenderInfo>, infos: seq<TranInfo>, info: SdesInfo,
                         r: RtcpReceiver, buffer: seq<byte>)
    returns (ok: bool, valid: bool, heard: bool, ret: int)
    requires Transmits(state) && |buffer| == RTCP_PACKETSIZE
    modifies r
    ensures ok <==> RegularRoom(sender, infos, info)
    ensures ok ==> valid && heard && ret == 0
    ensures ok ==> r.sources == Known(old(r.sources), sender)
    ensures ok ==> r.said == old(r.said) + MeaningOf(Regular(sender, infos, info))
  {
    hide Concat, Parts, MeaningOf, Hearing.HearAll, Compound, Regular, RegularRoom, RegularIs, ReportsOf, NonEmpty,
         SdesInfo.Items, Known, LeavesUnknown;
    ghost var blocks := Regular(sender, infos, info);
    RegularRoomBounds(sender, infos, info);
    RegularSays(sender, infos, info, r.State());
    var sent;
    ok, sent := TransmitRTCP(state, sender, infos, info);
    if !ok {
      return false, false, false, 0;
    }
    RegularBlocks(sender, infos, info);
    ShortIsCompound(blocks);
    valid, heard, ret := Deliver(r, sent.value, buffer, blocks);
  }

  /** A last report, sent and received: the answer is 1 when there was a sender to leave. */
  method FarewellExchange(sender: Option<SenderInfo>, infos: seq<TranInfo>, info: SdesInfo, r: RtcpReceiver,
                          buffer: seq<byte>)
    returns (ok: bool, valid: bool, heard: bool, ret: int)
    requires |buffer| == RTCP_PACKETSIZE
    modifies r
    ensures ok <==> FarewellRoom(sender, infos, info)
    ensures ok ==> valid && heard && ret == (if sender.Some? then 1 else 0)
    ensures ok ==> r.sources == Remaining(old(r.sources), sender)
    ensures ok ==> r.said == old(r.said) + MeaningOf(Farewell(sender, infos, info))
  {
    hide Concat, Parts, MeaningOf, Hearing.HearAll, Compound, Farewell, FarewellRoom, PROGRAM_ENDED;
    ghost var blocks := Farewell(sender, infos, info);
    FarewellRoomBounds(sender, infos, info);
    FarewellSays(sender, infos, info, r.State());
    var sent;
    ok, sent := TransmitRTCPBYE(sender, infos, info);
    if !ok {
      return false, false, false, 0;
    }
    FarewellBlocks(sender, infos, info);
    ShortIsCompound(blocks);
    valid, heard, ret := Deliver(r, sent, buffer, blocks);
  }
}
