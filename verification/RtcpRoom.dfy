/** How much room the layout of a report needs: when a packet that fits the arena can be
    laid out in it, and when clearing what lies behind a field leaves it. */
module RtcpRoom {
  import opened Options
  import opened Bytes
  import opened RtcpBlocks
  import opened RtcpArena
  import opened RtcpBuilder

  /** The longest field that is allocated at once is a text. */
  const LONGEST := 255

  // ----- What can be laid out fits, and what fits with a text to spare can be laid out -----

  lemma {:induction false} ReportRoomBounds(at: nat, sender: Option<SenderInfo>, reports: seq<ReportBlock>)
    ensures var end := at + |Report(sender, reports).Bytes()|;
      && (ReportRoom(at, sender, reports) ==> end <= RTCP_PACKETSIZE)
      && (end + LONGEST <= RTCP_PACKETSIZE ==> ReportRoom(at, sender, reports))
  {
    hide ReportBytes, SenderInfo.Bytes, Encode32, Padding, Header;
    ReportNeedsNoPadding(sender, reports);
  }

  lemma {:induction false} ItemsRoomBounds(at: nat, items: seq<Item>)
    requires AllFit(items)
    ensures var end := at + |ItemBytes(items)|;
      && (items != [] && ItemsRoom(at, items) ==> end <= RTCP_PACKETSIZE)
      && (end + LONGEST <= RTCP_PACKETSIZE ==> ItemsRoom(at, items))
    decreases |items|
  {
    if items != [] {
      var x, tail := items[0], items[1..];
      assert x in items && forall y :: y in tail ==> y in items;
      ItemsRoomBounds(at + 2 + |x.text|, tail);
      assert |ItemBytes(items)| == 2 + |x.text| + |ItemBytes(tail)|;
      if tail == [] {
        NoItems();
      }
    }
  }

  lemma {:induction false} SdesRoomBounds(at: nat, ssrc: Word32, items: seq<Item>)
    requires AllFit(items)
    ensures var end := at + |Sdes(ssrc, items).Bytes()|;
      && (SdesRoom(at, items) ==> end <= RTCP_PACKETSIZE)
      && (end + LONGEST <= RTCP_PACKETSIZE ==> SdesRoom(at, items))
  {
    hide ItemBytes, ItemsRoom, Encode32, Block.Content, Header, Padding;
    SdesContent(ssrc, items);
    ItemsRoomBounds(at + 8, items);
    PaddingPastHeader(6 + |ItemBytes(items)|);
  }

  lemma {:induction false} ByeRoomBounds(at: nat, sources: seq<Word32>, reason: Option<seq<byte>>)
    requires sources != []
    ensures var end := at + |Goodbye(sources, reason).Bytes()|;
      && (ByeRoom(at, sources, reason) ==> end <= RTCP_PACKETSIZE)
      && (end + LONGEST <= RTCP_PACKETSIZE ==> ByeRoom(at, sources, reason))
  {
    hide SourceBytes, Block.Content, Header, Padding, Goodbye;
    ByeContent(sources, reason);
    PaddingPastHeader(|Goodbye(sources, reason).Content()|);
  }

  /** A regular report that can be laid out fits the arena; one that fits it with 255 octets
      to spare can be laid out. */
  lemma {:induction false} RegularRoomBounds(sender: Option<SenderInfo>, infos: seq<TranInfo>, info: SdesInfo)
    ensures var size := |Concat(Parts(Regular(sender, infos, info)))|;
      && (RegularRoom(sender, infos, info) ==> size <= RTCP_PACKETSIZE)
      && (size + LONGEST <= RTCP_PACKETSIZE ==> RegularRoom(sender, infos, info))
  {
    hide Block.Bytes, Concat, Parts, Regular, ReportRoom, SdesRoom, ReportsOf, NonEmpty, SdesInfo.Items;
    var blocks := Regular(sender, infos, info);
    RegularBlocks(sender, infos, info);
    ConcatParts(blocks);
    ReportRoomBounds(0, sender, ReportsOf(infos));
    if sender.Some? {
      SdesRoomBounds(|blocks[0].Bytes()|, sender.value.ssrc, info.Items(NonEmpty(info, 7)));
    }
  }

  /** And so for a last report. */
  lemma {:induction false} FarewellRoomBounds(sender: Option<SenderInfo>, infos: seq<TranInfo>, info: SdesInfo)
    ensures var size := |Concat(Parts(Farewell(sender, infos, info)))|;
      && (FarewellRoom(sender, infos, info) ==> size <= RTCP_PACKETSIZE)
      && (size + LONGEST <= RTCP_PACKETSIZE ==> FarewellRoom(sender, infos, info))
  {
    hide Block.Bytes, Concat, Parts, Farewell, Goodbye, ReportRoom, SdesRoom, ByeRoom, ReportsOf, SdesInfo.Items,
         PROGRAM_ENDED;
    var blocks := Farewell(sender, infos, info);
    FarewellBlocks(sender, infos, info);
    ConcatParts(blocks);
    ReportRoomBounds(0, sender, ReportsOf(infos));
    if sender.Some? {
      var ssrc, at := sender.value.ssrc, |blocks[0].Bytes()|;
      SdesRoomBounds(at, ssrc, info.Items([SDES_CNAME]));
      ByeRoomBounds(at + |blocks[1].Bytes()|, [ssrc], Some(PROGRAM_ENDED));
    }
  }

  // ----- What fits and cannot be laid out -----

  /** A description of seven texts of the greatest length. */
  predicate IsLong(info: SdesInfo) { forall t: SdesType :: |info.Text(t)| == LONGEST }

  lemma {:induction false} AllToSend(info: SdesInfo, upTo: nat)
    requires IsLong(info) && upTo <= 7
    ensures |NonEmpty(info, upTo)| == upTo
  {
    hide SdesInfo.Text;
    if upTo > 0 {
      AllToSend(info, upTo - 1);
    }
  }

  predicate AreLong(items: seq<Item>) {
    AllFit(items) && forall i :: 0 <= i < |items| ==> |items[i].text| == LONGEST
  }

  lemma {:induction false} LongItems(items: seq<Item>)
    requires AreLong(items)
    ensures |ItemBytes(items)| == 257 * |items|
    decreases |items|
  {
    if items != [] {
      assert items[0] in items && forall x :: x in items[1..] ==> x in items;
      LongItems(items[1..]);
    }
  }

  lemma {:induction false} SeventhHasNoRoom(at: nat, items: seq<Item>)
    requires AreLong(items) && items != [] && at + 257 * |items| + LONGEST > RTCP_PACKETSIZE
    ensures !ItemsRoom(at, items)
    decreases |items|
  {
    if |items| > 1 {
      assert forall x :: x in items[1..] ==> x in items;
      SeventhHasNoRoom(at + 257, items[1..]);
    }
  }

  /** A sender that has heard nobody and describes itself at the greatest length: its
      report has 1840 octets, and laying it out clears octets behind the arena. */
  lemma {:induction false} LongDescriptionOverruns(sender: SenderInfo, infos: seq<TranInfo>, info: SdesInfo)
    requires ReportsOf(infos) == [] && IsLong(info)
    ensures |Concat(Parts(Regular(Some(sender), infos, info)))| == 1840 < 2048 == RTCP_PACKETSIZE
    ensures !RegularRoom(Some(sender), infos, info)
  {
    hide Block.Bytes, Concat, Parts, Regular, ReportRoom, SdesInfo.Text, IsLong, NonEmpty, ItemsRoom, ItemBytes;
    var blocks := Regular(Some(sender), infos, info);
    var items := info.Items(NonEmpty(info, 7));
    RegularBlocks(Some(sender), infos, info);
    ConcatParts(blocks);
    AllToSend(info, 7);
    TextsAreLong(info, NonEmpty(info, 7));
    LongItems(items);
    LongSizes(sender, items);
    SeventhHasNoRoom(36, items);
  }

  lemma {:induction false} TextsAreLong(info: SdesInfo, list: seq<SdesType>)
    requires IsLong(info)
    ensures AreLong(info.Items(list))
  {
    hide SdesInfo.Text;
  }

  lemma {:induction false} LongSizes(sender: SenderInfo, items: seq<Item>)
    requires AllFit(items) && |ItemBytes(items)| == 1799
    ensures |Report(Some(sender), []).Bytes()| == 28 && |Sdes(sender.ssrc, items).Bytes()| == 1812
  {
    hide ItemBytes, SenderInfo.Bytes, Encode32;
    ReportNeedsNoPadding(Some(sender), []);
    SdesContent(sender.ssrc, items);
  }
}
