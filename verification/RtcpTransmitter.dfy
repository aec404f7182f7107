/** rtp/RtcpTransmitter.cxx: the blocks of a compound packet, laid out field by field;
    and their order in rtp/RtpSession.cxx. */
module RtcpBuilder {
  import opened Options
  import opened Bytes
  import opened RtcpBlocks
  import opened RtcpArena
  import opened RtcpFormat

  const SDES_END := 0
  const SDES_CNAME := 1

  /** A transmitter that the receiver keeps account of; it is reported on when packets
      of its own arrive and it is off probation. */
  datatype TranInfo = TranInfo(recv: Option<ReportBlock>, probation: int) {
    predicate Counts() { recv.Some? && probation >= 0 }
  }

  function ReportsOf(infos: seq<TranInfo>): (reports: seq<ReportBlock>)
    ensures |reports| <= |infos|
  {
    if infos == [] then [] else
      var n := |infos| - 1;
      if infos[n].Counts() then ReportsOf(infos[..n]) + [infos[n].recv.value] else ReportsOf(infos[..n])
  }

  // ----- Room: what is allocated is taken, and as much behind it is cleared -----

  predicate ReportRoom(at: nat, sender: Option<SenderInfo>, reports: seq<ReportBlock>) {
    var begun := if sender.Some? then 24 else 4;
    && RoomFor(at, 4) && RoomFor(at + 4, begun)
    && (reports != [] ==> RoomFor(at + 4 + begun + 24 * (|reports| - 1), 24))
  }

  predicate ItemsRoom(at: nat, items: seq<Item>)
    decreases |items|
  {
    items == [] ||
    (RoomFor(at, 2) && RoomFor(at + 2, |items[0].text|) && ItemsRoom(at + 2 + |items[0].text|, items[1..]))
  }

  predicate SdesRoom(at: nat, items: seq<Item>)
    requires AllFit(items)
  {
    var n := |ItemBytes(items)|;
    && RoomFor(at, 4) && RoomFor(at + 4, 4) && ItemsRoom(at + 8, items)
    && RoomFor(at + 8 + n, 2) && RoomFor(at + 10 + n, Padding(10 + n))
  }

  predicate ByeRoom(at: nat, sources: seq<Word32>, reason: Option<seq<byte>>) {
    var n, length := 4 * |sources|, if reason.Some? then |reason.value| % 0x100 else 0;
    var end := if reason.Some? then at + 5 + n + length else at + 4 + n;
    && RoomFor(at + n, 4) && (reason.Some? ==> RoomFor(at + 4 + n, 1) && RoomFor(at + 5 + n, length))
    && RoomFor(end, Padding(end - at))
  }

  type SdesText = s: seq<byte> | |s| <= 255

  /** The description of the sender, each text NUL-terminated in 256 octets. */
  datatype SdesInfo = SdesInfo(cname: SdesText, name: SdesText, email: SdesText, phone: SdesText,
                               loc: SdesText, tool: SdesText, note: SdesText)
  {
    function Text(t: SdesType): SdesText {
      match t
      case 1 => cname
      case 2 => name
      case 3 => email
      case 4 => phone
      case 5 => loc
      case 6 => tool
      case _ => note
    }

    function Items(list: seq<SdesType>): (items: seq<Item>)
      ensures AllFit(items) && |items| == |list|
    {
      seq(|list|, i requires 0 <= i < |list| => Item(list[i], Text(list[i])))
    }
  }

  type SdesType = x: int | 1 <= x <= 7 witness 1

  /** The types whose texts are not empty, in order. */
  function NonEmpty(info: SdesInfo, upTo: nat): (list: seq<SdesType>)
    requires upTo <= 7
    ensures |list| <= upTo
  {
    if upTo == 0 then [] else
      NonEmpty(info, upTo - 1) + if |info.Text(upTo)| > 0 then [upTo] else []
  }

  lemma {:induction false} NonEmptyLists(info: SdesInfo, upTo: nat)
    requires upTo <= 7
    ensures var list := NonEmpty(info, upTo);
      && (forall i :: 0 <= i < |list| ==> list[i] <= upTo && |info.Text(list[i])| > 0)
      && (forall t: SdesType :: t <= upTo && |info.Text(t)| > 0 ==> t in list)
      && forall i, j :: 0 <= i < j < |list| ==> list[i] < list[j]
  {
    hide SdesInfo.Text, NonEmpty;
    if upTo == 0 {
      NoneToSend(info);
    } else {
      NonEmptyLists(info, upTo - 1);
      NextToSend(info, upTo);
      var before, list := NonEmpty(info, upTo - 1), NonEmpty(info, upTo);
      forall i | 0 <= i < |list| ensures list[i] <= upTo && |info.Text(list[i])| > 0 {
        assert i < |before| ==> list[i] == before[i];
      }
      forall t: SdesType | t <= upTo && |info.Text(t)| > 0 ensures t in list {
        assert t in before || t == upTo;
      }
    }
  }

  lemma {:induction false} NoneToSend(info: SdesInfo)
    ensures NonEmpty(info, 0) == []
  {}

  lemma {:induction false} NextToSend(info: SdesInfo, upTo: SdesType)
    ensures var before := NonEmpty(info, upTo - 1);
      NonEmpty(info, upTo) == if |info.Text(upTo)| > 0 then before + [upTo] else before
  {
    hide SdesInfo.Text;
    assert NonEmpty(info, upTo - 1) + [] == NonEmpty(info, upTo - 1);
  }

  lemma {:induction false} ReportBytesAppends(rs: seq<ReportBlock>, r: ReportBlock)
    ensures ReportBytes(rs + [r]) == ReportBytes(rs) + r.Bytes()
    decreases |rs|
  {
    if rs == [] {
      assert [r][1..] == [] && ReportBytes([]) == [];
    } else {
      var head, rest := rs[0].Bytes(), rs[1..];
      assert (rs + [r])[0] == rs[0] && (rs + [r])[1..] == rest + [r];
      assert ReportBytes(rs + [r]) == head + ReportBytes(rest + [r]) && ReportBytes(rs) == head + ReportBytes(rest);
      hide ReportBytes, ReportBlock.Bytes;
      ReportBytesAppends(rest, r);
      Associates(head, ReportBytes(rest), r.Bytes());
    }
  }

  lemma {:induction false} SourceBytesAppends(ss: seq<Word32>, s: Word32)
    ensures SourceBytes(ss + [s]) == SourceBytes(ss) + Encode32(s)
    decreases |ss|
  {
    if ss == [] {
      assert [s][1..] == [] && SourceBytes([]) == [];
    } else {
      var head, rest := Encode32(ss[0]), ss[1..];
      assert (ss + [s])[0] == ss[0] && (ss + [s])[1..] == rest + [s];
      assert SourceBytes(ss + [s]) == head + SourceBytes(rest + [s]) && SourceBytes(ss) == head + SourceBytes(rest);
      hide SourceBytes, Encode32;
      SourceBytesAppends(rest, s);
      Associates(head, SourceBytes(rest), Encode32(s));
    }
  }

  lemma {:induction false} ItemBytesAppends(xs: seq<Item>, ys: seq<Item>)
    requires AllFit(xs) && AllFit(ys)
    ensures AllFit(xs + ys) && ItemBytes(xs + ys) == ItemBytes(xs) + ItemBytes(ys)
    decreases |xs|
  {
    if xs == [] {
      assert xs + ys == ys && ItemBytes([]) == [];
    } else {
      var x, rest := xs[0], xs[1..];
      assert x in xs && forall y :: y in rest ==> y in xs;
      assert (xs + ys)[0] == x && (xs + ys)[1..] == rest + ys;
      ItemBytesAppends(rest, ys);
      assert ItemBytes(xs + ys) == x.Bytes() + ItemBytes(rest + ys) && ItemBytes(xs) == x.Bytes() + ItemBytes(rest);
      hide ItemBytes, Item.Bytes;
      Associates(x.Bytes(), ItemBytes(rest), ItemBytes(ys));
    }
  }

  lemma {:induction false} ItemBytesGrows(items: seq<Item>, i: nat)
    requires AllFit(items) && i < |items|
    ensures AllFit(items[..i]) && AllFit(items[..i + 1]) && items[i].Fits()
    ensures ItemBytes(items[..i + 1]) == ItemBytes(items[..i]) + items[i].Bytes()
    ensures |ItemBytes(items[..i + 1])| <= |ItemBytes(items)|
  {
    var x := items[i];
    assert x in items && ItemBytes([x]) == x.Bytes() by { assert [x][1..] == [] && ItemBytes([]) == []; }
    assert items[..i + 1] == items[..i] + [x] && items == items[..i + 1] + items[i + 1..];
    ItemBytesAppends(items[..i], [x]);
    ItemBytesAppends(items[..i + 1], items[i + 1..]);
  }

  lemma {:induction false} ItemsRoomNext(at: nat, items: seq<Item>, i: nat)
    requires i < |items|
    ensures ItemsRoom(at, items[i..]) <==>
      RoomFor(at, 2) && RoomFor(at + 2, |items[i].text|) && ItemsRoom(at + 2 + |items[i].text|, items[i + 1..])
  {
    assert items[i..][0] == items[i] && items[i..][1..] == items[i + 1..];
  }

  /** The first octets of a header while its block is being laid out: the length is
      written at the end. */
  function Begun(count: nat, typ: byte): (h: seq<byte>)
    ensures |h| == 4
  {
    [RTP_VERSION * 64 + count % 32, typ, 0, 0]
  }

  lemma {:induction false} HeaderFinishes(count: nat, typ: byte, n: nat)
    requires n % 4 == 0
    ensures Header(count, typ, n) == Begun(count, typ)[..2] + Encode16(((4 + n) / 4 - 1) % 0x1_0000)
  {
    hide Encode16;
    assert (4 + n) / 4 - 1 == n / 4;
  }

  lemma {:induction false} LengthWritten(start: seq<byte>, h: seq<byte>, length: seq<byte>, payload: seq<byte>)
    requires |h| == 4 && |length| == 2
    ensures Splice(start + h + payload, |start| + 2, length) == start + (h[..2] + length) + payload
  {}

  /** The length field: the block's 32-bit words, less one. */
  method FinishHeader(p: RtcpPacket, head: nat, count: nat, typ: byte, ghost start: seq<byte>, ghost payload: seq<byte>)
    requires p.Valid() && p.contents == start + Begun(count, typ) + payload && head == |start|
    requires |payload| % 4 == 0
    modifies p`contents, p.packetData
    ensures p.Valid() && p.contents == start + Header(count, typ, |payload|) + payload
  {
    hide Header, Begun, Encode16;
    HeaderFinishes(count, typ, |payload|);
    var usage := p.TotalUsage() - head;
    ghost var length := Encode16((usage / 4 - 1) % 0x1_0000);
    LengthWritten(start, Begun(count, typ), length, payload);
    hide Splice;
    p.Write(head + 2, Encode16((usage / 4 - 1) % 0x1_0000));
  }

  lemma {:induction false} ReportedGrows(infos: seq<TranInfo>, i: nat)
    requires i <= |infos|
    ensures |ReportsOf(infos[..i])| <= |ReportsOf(infos)|
    decreases |infos|
  {
    var n := |infos|;
    if i < n {
      ReportedGrows(infos[..n - 1], i);
      assert infos[..n - 1][..i] == infos[..i];
    } else {
      assert infos[..n] == infos;
    }
  }

  lemma {:induction false} ReportedStep(infos: seq<TranInfo>, i: nat)
    requires i < |infos|
    ensures var reports := ReportsOf(infos[..i]);
      ReportsOf(infos[..i + 1]) == if infos[i].Counts() then reports + [infos[i].recv.value] else reports
    ensures |ReportsOf(infos[..i + 1])| <= |ReportsOf(infos)|
  {
    ReportedGrows(infos, i + 1);
    assert infos[..i + 1][..i] == infos[..i];
  }

  /** The packet once the first i transmitters have been looked at. */
  ghost predicate ReportsLaid(contents: seq<byte>, start: seq<byte>, typ: byte, begun: seq<byte>,
                              infos: seq<TranInfo>, i: nat, count: nat)
    requires i <= |infos|
  {
    && count == |ReportsOf(infos[..i])|
    && contents == start + Begun(count, typ) + (begun + ReportBytes(ReportsOf(infos[..i])))
  }

  lemma {:induction false} NextReportLaid(contents: seq<byte>, start: seq<byte>, typ: byte, begun: seq<byte>,
                                          infos: seq<TranInfo>, i: nat, count: nat)
    requires i < |infos| && ReportsLaid(contents, start, typ, begun, infos, i, count)
    ensures !infos[i].Counts() ==> ReportsLaid(contents, start, typ, begun, infos, i + 1, count)
    ensures infos[i].Counts() ==>
      var report, payload := infos[i].recv.value, begun + ReportBytes(ReportsOf(infos[..i]));
      && contents == start + Begun(count, typ) + payload
      && count < |ReportsOf(infos)|
      && ReportsLaid(start + Begun(count + 1, typ) + (payload + report.Bytes()), start, typ, begun, infos, i + 1,
                     count + 1)
  {
    hide ReportsOf, ReportBytes, ReportBlock.Bytes, Begun;
    ReportedStep(infos, i);
    if infos[i].Counts() {
      var reports, report := ReportsOf(infos[..i]), infos[i].recv.value;
      ReportBytesAppends(reports, report);
      Associates(begun, ReportBytes(reports), report.Bytes());
    }
  }

  /** One report block, counted in the header. */
  method AddReport(p: RtcpPacket, head: nat, report: ReportBlock, count: nat, typ: byte,
                   ghost start: seq<byte>, ghost payload: seq<byte>)
    returns (ok: bool)
    requires p.Valid() && p.contents == start + Begun(count, typ) + payload && head == |start|
    modifies p, p.packetData
    ensures ok <==> RoomFor(|old(p.contents)|, 24)
    ensures ok ==> p.Valid() && p.contents == start + Begun(count + 1, typ) + (payload + report.Bytes())
  {
    hide ReportBlock.Bytes;
    ghost var bytes := report.Bytes();
    ok := p.Append(report.Bytes());
    if ok {
      assert p.contents == start + (Begun(count, typ) + (payload + bytes));
      p.Write(head, [RTP_VERSION * 64 + (count + 1) % 32]);
      assert p.contents == start + (Begun(count + 1, typ) + (payload + report.Bytes()));
    }
  }

  /** The report blocks, each counted in the header as it is added. */
  method AddReports(p: RtcpPacket, head: nat, infos: seq<TranInfo>, ghost start: seq<byte>, typ: byte,
                    ghost begun: seq<byte>)
    returns (ok: bool, count: nat)
    requires p.Valid() && p.contents == start + Begun(0, typ) + begun && head == |start|
    modifies p, p.packetData
    ensures ok <==> ReportsOf(infos) == [] || RoomFor(|old(p.contents)| + 24 * (|ReportsOf(infos)| - 1), 24)
    ensures ok ==> p.Valid() && count == |ReportsOf(infos)|
    ensures ok ==> p.contents == start + Begun(count, typ) + (begun + ReportBytes(ReportsOf(infos)))
  {
    hide ReportsLaid, ReportsOf, ReportBytes, ReportBlock.Bytes, Begun;
    count := 0;
    NoReportsLaid(start, typ, begun, infos);
    for i := 0 to |infos|
      invariant p.Valid() && ReportsLaid(p.contents, start, typ, begun, infos, i, count)
      invariant |p.contents| == |start| + 4 + |begun| + 24 * count
      invariant count > 0 ==> RoomFor(|p.contents| - 24, 24)
    {
      NextReportLaid(p.contents, start, typ, begun, infos, i, count);
      if !infos[i].Counts() {
        continue;
      }
      ok := AddReport(p, head, infos[i].recv.value, count, typ, start, begun + ReportBytes(ReportsOf(infos[..i])));
      if !ok {
        return;
      }
      count := count + 1;
    }
    ReportsAllLaid(p.contents, start, typ, begun, infos, count);
    ok := true;
  }

  lemma {:induction false} NoReportsLaid(start: seq<byte>, typ: byte, begun: seq<byte>, infos: seq<TranInfo>)
    ensures ReportsLaid(start + Begun(0, typ) + begun, start, typ, begun, infos, 0, 0)
  {
    NoReports();
    assert infos[..0] == [] && begun + [] == begun;
  }

  lemma {:induction false} ReportsAllLaid(contents: seq<byte>, start: seq<byte>, typ: byte, begun: seq<byte>,
                                          infos: seq<TranInfo>, count: nat)
    requires ReportsLaid(contents, start, typ, begun, infos, |infos|, count)
    ensures count == |ReportsOf(infos)|
      && contents == start + Begun(count, typ) + (begun + ReportBytes(ReportsOf(infos)))
  {
    assert infos[..|infos|] == infos;
  }

  lemma {:induction false} NoReports()
    ensures ReportsOf([]) == [] && ReportBytes([]) == []
  {}

  lemma {:induction false} FinishedBytes(b: Block, start: seq<byte>)
    requires b.Fits()
    ensures var content := b.Content();
      var payload := content + Zeros(Padding(|content|));
      start + Header(b.Count(), b.Type(), |payload|) + payload == start + b.Bytes()
  {}

  lemma {:induction false} ReportNeedsNoPadding(sender: Option<SenderInfo>, reports: seq<ReportBlock>)
    ensures var b := Report(sender, reports);
      && b.Fits() && Padding(|b.Content()|) == 0
      && |b.Bytes()| == 4 + |b.Content()|
      && b.Content() + Zeros(0) == b.Content()
      && b.Content() == (if sender.Some? then sender.value.Bytes() else Encode32(0)) + ReportBytes(reports)
  {}

  /** A report on what has been received, with what has been sent if there is a sender. */
  method AddSR(p: RtcpPacket, sender: Option<SenderInfo>, infos: seq<TranInfo>) returns (ok: bool)
    requires p.Valid()
    modifies p, p.packetData
    ensures ok <==> ReportRoom(|old(p.contents)|, sender, ReportsOf(infos))
    ensures ok ==> p.Valid() && p.contents == old(p.contents) + Report(sender, ReportsOf(infos)).Bytes()
  {
    hide ReportBytes, ReportsOf, SenderInfo.Bytes, Block.Bytes, Block.Content, Begun, Header, Padding;
    ghost var start, block := p.contents, Report(sender, ReportsOf(infos));
    ReportNeedsNoPadding(sender, ReportsOf(infos));
    FinishedBytes(block, start);
    var head := p.TotalUsage();
    var typ := if sender.Some? then TYPE_SR else TYPE_RR;
    ok := p.Append(Begun(0, typ));
    if !ok {
      return;
    }
    if sender.Some? {
      ok := p.Append(sender.value.Bytes());
    } else {
      ok := p.Append(Encode32(0));
    }
    if !ok {
      return;
    }
    ghost var begun := if sender.Some? then sender.value.Bytes() else Encode32(0);
    var count;
    ok, count := AddReports(p, head, infos, start, typ, begun);
    if ok {
      FinishHeader(p, head, count, typ, start, block.Content());
    }
  }

  // ----- Description -----

  method AddItem(p: RtcpPacket, info: SdesInfo, t: SdesType) returns (ok: bool)
    requires p.Valid()
    modifies p, p.packetData
    ensures ok <==> RoomFor(|old(p.contents)|, 2) && RoomFor(|old(p.contents)| + 2, |info.Text(t)|)
    ensures ok ==> p.Valid() && p.contents == old(p.contents) + Item(t, info.Text(t)).Bytes()
  {
    var text := info.Text(t);
    ok := p.Append([t, |text| % 0x100]);
    if ok {
      ok := p.AppendText(text);
    }
  }

  /** Zeros up to a multiple of four octets. */
  method Pad(p: RtcpPacket, head: nat) returns (ok: bool)
    requires p.Valid() && head <= |p.contents|
    modifies p, p.packetData
    ensures ok <==> RoomFor(|old(p.contents)|, Padding(|old(p.contents)| - head))
    ensures ok ==> p.Valid() && p.contents == old(p.contents) + Zeros(Padding(|old(p.contents)| - head))
  {
    ok := true;
    var usage := p.TotalUsage() - head;
    if usage % 4 != 0 {
      ok := p.AppendZeros(4 - usage % 4);
    }
  }

  lemma {:induction false} PaddingPastHeader(n: nat)
    ensures Padding(4 + n) == Padding(n) && (n + Padding(n)) % 4 == 0
  {}

  /** The end of a block: padding, then the length. */
  method FinishBlock(p: RtcpPacket, head: nat, ghost b: Block, count: nat, typ: byte, ghost start: seq<byte>)
    returns (ok: bool)
    requires b.Fits() && count == b.Count() && typ == b.Type() && head == |start|
    requires p.Valid() && p.contents == start + Begun(count, typ) + b.Content()
    modifies p, p.packetData
    ensures ok <==> RoomFor(|old(p.contents)|, Padding(|old(p.contents)| - head))
    ensures ok ==> p.Valid() && p.contents == start + b.Bytes()
  {
    hide Block.Bytes, Block.Content, Block.Fits, Block.Count, Block.Type, Begun, Header, Padding, Zeros;
    FinishedBytes(b, start);
    ghost var content := b.Content();
    ghost var pad := Zeros(Padding(|content|));
    PaddingPastHeader(|content|);
    ok := Pad(p, head);
    if ok {
      Associates(start + Begun(count, typ), content, pad);
      FinishHeader(p, head, count, typ, start, content + pad);
    }
  }

  /** The description of one source: the texts of a list of types. */
  method AddSDES(p: RtcpPacket, ssrc: Word32, info: SdesInfo, list: seq<SdesType>) returns (ok: bool)
    requires p.Valid()
    modifies p, p.packetData
    ensures ok <==> SdesRoom(|old(p.contents)|, info.Items(list))
    ensures ok ==> p.Valid() && p.contents == old(p.contents) + Sdes(ssrc, info.Items(list)).Bytes()
  {
    hide Block.Fits, Block.Content, Block.Count, Block.Type, Block.Bytes, Begun, SdesInfo.Items, ItemBytes, ItemsRoom,
         Encode32, Padding;
    ghost var start, items := p.contents, info.Items(list);
    SdesContent(ssrc, items);
    var head := p.TotalUsage();
    ok := p.Append(Begun(1, TYPE_SDES));
    if !ok {
      return;
    }
    ok := p.Append(Encode32(ssrc));
    if !ok {
      return;
    }
    ok := AddItems(p, info, list);
    if !ok {
      return;
    }
    ok := p.Append([SDES_END, 0]);
    if !ok {
      return;
    }
    FourAssociate(start + Begun(1, TYPE_SDES), Encode32(ssrc), ItemBytes(items), [SDES_END, 0]);
    ok := FinishBlock(p, head, Sdes(ssrc, items), 1, TYPE_SDES, start);
  }

  lemma {:induction false} SdesContent(ssrc: Word32, items: seq<Item>)
    requires AllFit(items)
    ensures var b := Sdes(ssrc, items);
      b.Fits() && b.Content() == Encode32(ssrc) + ItemBytes(items) + [SDES_END, 0] && b.Count() == 1
        && b.Type() == TYPE_SDES
  {
    hide Encode32, ItemBytes;
  }

  lemma {:induction false} FourAssociate(s: seq<byte>, a: seq<byte>, b: seq<byte>, c: seq<byte>)
    ensures s + a + b + c == s + (a + b + c)
  {}

  method AddItems(p: RtcpPacket, info: SdesInfo, list: seq<SdesType>) returns (ok: bool)
    requires p.Valid()
    modifies p, p.packetData
    ensures ok <==> ItemsRoom(|old(p.contents)|, info.Items(list))
    ensures ok ==> p.Valid() && p.contents == old(p.contents) + ItemBytes(info.Items(list))
  {
    hide ItemBytes, Item.Bytes, Item.Fits, SdesInfo.Text, ItemsRoom;
    ghost var items, at := info.Items(list), |p.contents|;
    NoItems();
    assert items[..0] == [] && items[0..] == items;
    for i := 0 to |list|
      invariant AllFit(items[..i])
      invariant p.Valid() && p.contents == old(p.contents) + ItemBytes(items[..i])
      invariant ItemsRoom(at, items) <==> ItemsRoom(|p.contents|, items[i..])
    {
      ItemBytesGrows(items, i);
      ItemsRoomNext(|p.contents|, items, i);
      ok := AddItem(p, info, list[i]);
      if !ok {
        return;
      }
      assert |items[i].Bytes()| == 2 + |items[i].text| by { ItemLength(items[i]); }
    }
    assert items[..|list|] == items && items[|list|..] == [];
    NoItems();
    NoItemsRoom(|p.contents|);
    ok := true;
  }

  lemma {:induction false} NoItems()
    ensures ItemBytes([]) == []
  {}

  lemma {:induction false} NoItemsRoom(at: nat)
    ensures ItemsRoom(at, [])
  {}

  lemma {:induction false} ItemLength(x: Item)
    requires x.Fits()
    ensures |x.Bytes()| == 2 + |x.text|
  {}

  // ----- Leaving -----

  method AddSources(p: RtcpPacket, sources: seq<Word32>) returns (ok: bool)
    requires p.Valid() && sources != []
    modifies p, p.packetData
    ensures ok <==> RoomFor(|old(p.contents)| + 4 * (|sources| - 1), 4)
    ensures ok ==> p.Valid() && p.contents == old(p.contents) + SourceBytes(sources)
  {
    hide Encode32;
    for i := 0 to |sources|
      invariant p.Valid() && p.contents == old(p.contents) + SourceBytes(sources[..i])
      invariant i > 0 ==> RoomFor(|p.contents| - 4, 4)
    {
      ok := p.Append(Encode32(sources[i]));
      if !ok {
        return;
      }
      SourceBytesAppends(sources[..i], sources[i]);
      assert sources[..i + 1] == sources[..i] + [sources[i]];
    }
    assert sources[..|sources|] == sources;
    ok := true;
  }

  /** Goodbye from some sources.  Of a reason longer than its length octet can say, only
      the length modulo 256 is sent. */
  method AddBYE(p: RtcpPacket, sources: seq<Word32>, reason: Option<seq<byte>>) returns (ok: bool)
    requires p.Valid() && |sources| > 0
    modifies p, p.packetData
    ensures ok <==> ByeRoom(|old(p.contents)|, sources, reason)
    ensures ok ==> p.Valid() && p.contents == old(p.contents) + Goodbye(sources, reason).Bytes()
  {
    hide Block.Fits, Block.Content, Block.Count, Block.Type, Block.Bytes, Begun, SourceBytes, Goodbye, Padding;
    ghost var start := p.contents;
    ByeContent(sources, reason);
    var head := p.TotalUsage();
    ok := p.Append(Begun(|sources|, TYPE_BYE));
    if !ok {
      return;
    }
    ok := AddSources(p, sources);
    if !ok {
      return;
    }
    if reason.Some? {
      var length := |reason.value| % 0x100;
      ok := p.Append([length]);
      if !ok {
        return;
      }
      ok := p.AppendText(reason.value[..length]);
      if !ok {
        return;
      }
    }
    ghost var text := ReasonText(reason);
    FourAssociate(start + Begun(|sources|, TYPE_BYE), SourceBytes(sources), ReasonLength(reason), text);
    assert p.contents == start + Begun(|sources|, TYPE_BYE) + SourceBytes(sources) + ReasonLength(reason) + text;
    ok := FinishBlock(p, head, Goodbye(sources, reason), |sources|, TYPE_BYE, start);
  }

  function ReasonLength(reason: Option<seq<byte>>): seq<byte> {
    if reason.Some? then [|reason.value| % 0x100] else []
  }

  function ReasonText(reason: Option<seq<byte>>): seq<byte> {
    if reason.Some? then reason.value[..|reason.value| % 0x100] else []
  }

  lemma {:induction false} ByeContent(sources: seq<Word32>, reason: Option<seq<byte>>)
    ensures var b := Goodbye(sources, reason);
      && b.Content() == SourceBytes(sources) + ReasonLength(reason) + ReasonText(reason)
      && b.Count() == |sources| && b.Type() == TYPE_BYE
  {
    hide SourceBytes;
  }

  function Goodbye(sources: seq<Word32>, reason: Option<seq<byte>>): (b: Block)
    ensures b.Fits()
  {
    Bye(sources, match reason case None => None case Some(text) => Some(text[..|text| % 0x100]))
  }

  // ----- Composition -----

  datatype SessionState = Undefined | Inactive | SendOnly | RecvOnly | SendRecv

  /** "Program Ended." */
  const PROGRAM_ENDED: seq<byte> := [80, 114, 111, 103, 114, 97, 109, 32, 69, 110, 100, 101, 100, 46]

  /** The regular report of a session. */
  function Regular(sender: Option<SenderInfo>, infos: seq<TranInfo>, info: SdesInfo): (blocks: seq<Block>)
    ensures EachFits(blocks)
  {
    [Report(sender, ReportsOf(infos))]
    + if sender.Some? then [Sdes(sender.value.ssrc, info.Items(NonEmpty(info, 7)))] else []
  }

  /** The last report of a session. */
  function Farewell(sender: Option<SenderInfo>, infos: seq<TranInfo>, info: SdesInfo): (blocks: seq<Block>)
    ensures EachFits(blocks)
  {
    [Report(sender, ReportsOf(infos))]
    + if sender.None? then [] else
        [Sdes(sender.value.ssrc, info.Items([SDES_CNAME])), Bye([sender.value.ssrc], Some(PROGRAM_ENDED))]
  }

  predicate RegularRoom(sender: Option<SenderInfo>, infos: seq<TranInfo>, info: SdesInfo) {
    var report := Report(sender, ReportsOf(infos));
    && ReportRoom(0, sender, ReportsOf(infos))
    && (sender.Some? ==> SdesRoom(|report.Bytes()|, info.Items(NonEmpty(info, 7))))
  }

  predicate FarewellRoom(sender: Option<SenderInfo>, infos: seq<TranInfo>, info: SdesInfo) {
    var report := Report(sender, ReportsOf(infos));
    && ReportRoom(0, sender, ReportsOf(infos))
    && (sender.Some? ==>
          var sdes := Sdes(sender.value.ssrc, info.Items([SDES_CNAME]));
          && SdesRoom(|report.Bytes()|, sdes.items)
          && ByeRoom(|report.Bytes()| + |sdes.Bytes()|, [sender.value.ssrc], Some(PROGRAM_ENDED)))
  }

  /** The octets of a regular report: a report, and with a sender a description behind it. */
  predicate RegularIs(s: seq<byte>, sender: Option<SenderInfo>, reports: seq<ReportBlock>, items: seq<Item>) {
    && ReportIs(s, sender, reports)
    && if sender.Some? then SdesIs(s[28 + 24 * |reports|..], sender.value.ssrc, items) else |s| == 8 + 24 * |reports|
  }

  /** Those of a last report: the description is the name alone, and a goodbye with the
      reason "Program Ended." comes behind it. */
  ghost predicate FarewellIs(s: seq<byte>, sender: Option<SenderInfo>, reports: seq<ReportBlock>, cname: seq<byte>) {
    && ReportIs(s, sender, reports)
    && if sender.None? then |s| == 8 + 24 * |reports| else
         exists bye :: 28 + 24 * |reports| <= bye <= |s|
           && SdesIs(s[28 + 24 * |reports|..bye], sender.value.ssrc, [Item(1, cname)])
           && ByeIs(s[bye..], sender.value.ssrc, [80, 114, 111, 103, 114, 97, 109, 32, 69, 110, 100, 101, 100, 46])
  }

  lemma {:induction false} SplitAt(a: seq<byte>, b: seq<byte>, c: seq<byte>)
    ensures (a + b)[|a|..] == b && (a + b + c)[|a|..|a| + |b|] == b && (a + b + c)[|a| + |b|..] == c
    ensures a + b + c == a + (b + c)
  {}

  lemma {:induction false} RegularHasFormat(sender: Option<SenderInfo>, infos: seq<TranInfo>, info: SdesInfo)
    ensures RegularIs(Concat(Parts(Regular(sender, infos, info))), sender, ReportsOf(infos),
                      info.Items(NonEmpty(info, 7)))
  {
    hide Block.Bytes, Block.Fits, ReportsOf, SdesInfo.Items, NonEmpty, Concat, Parts, Regular, ReportIs, SdesIs;
    var blocks, reports := Regular(sender, infos, info), ReportsOf(infos);
    RegularBlocks(sender, infos, info);
    ConcatParts(blocks);
    ReportSize(sender, reports);
    if sender.Some? {
      ReportHasFormat(sender, reports, blocks[1].Bytes());
      SdesHasFormat(sender.value.ssrc, info.Items(NonEmpty(info, 7)));
      SplitAt(blocks[0].Bytes(), blocks[1].Bytes(), []);
    } else {
      ReportHasFormat(sender, reports, []);
      assert blocks[0].Bytes() + [] == blocks[0].Bytes();
    }
  }

  lemma {:induction false} ReportSize(sender: Option<SenderInfo>, reports: seq<ReportBlock>)
    ensures Report(sender, reports).Fits()
    ensures |Report(sender, reports).Bytes()| == (if sender.Some? then 28 else 8) + 24 * |reports|
  {
    hide ReportBytes, SenderInfo.Bytes, Encode32, Block.Bytes;
    ReportNeedsNoPadding(sender, reports);
  }

  lemma {:induction false} FarewellHasFormat(sender: Option<SenderInfo>, infos: seq<TranInfo>, info: SdesInfo)
    ensures FarewellIs(Concat(Parts(Farewell(sender, infos, info))), sender, ReportsOf(infos), info.cname)
  {
    hide Block.Bytes, Block.Fits, ReportsOf, Concat, Parts, Farewell, ReportIs, SdesIs, ByeIs, Goodbye;
    var blocks, reports := Farewell(sender, infos, info), ReportsOf(infos);
    FarewellBlocks(sender, infos, info);
    ConcatParts(blocks);
    ReportSize(sender, reports);
    if sender.Some? {
      var (a, b, c) := (blocks[0].Bytes(), blocks[1].Bytes(), blocks[2].Bytes());
      assert info.Items([SDES_CNAME]) == [Item(1, info.cname)];
      GoodbyeIsBye(sender.value.ssrc);
      SplitAt(a, b, c);
      ReportHasFormat(sender, reports, b + c);
      SdesHasFormat(sender.value.ssrc, [Item(1, info.cname)]);
    } else {
      ReportHasFormat(sender, reports, []);
      assert blocks[0].Bytes() + [] == blocks[0].Bytes();
    }
  }

  lemma {:induction false} GoodbyeIsBye(ssrc: Word32)
    ensures ByeIs(Goodbye([ssrc], Some(PROGRAM_ENDED)).Bytes(), ssrc,
                  [80, 114, 111, 103, 114, 97, 109, 32, 69, 110, 100, 101, 100, 46])
  {
    hide Block.Bytes, ByeIs;
    assert PROGRAM_ENDED[..14] == PROGRAM_ENDED;
    ByeHasFormat(ssrc, PROGRAM_ENDED);
  }

  /** Which text each type of the description stands for. */
  lemma {:induction false} TextsByType(info: SdesInfo, list: seq<SdesType>, i: nat)
    requires i < |list|
    ensures var x := info.Items(list)[i];
      && x.typ as int == list[i] as int
      && (x.typ == 1 ==> x.text == info.cname) && (x.typ == 2 ==> x.text == info.name)
      && (x.typ == 3 ==> x.text == info.email) && (x.typ == 4 ==> x.text == info.phone)
      && (x.typ == 5 ==> x.text == info.loc) && (x.typ == 6 ==> x.text == info.tool)
      && (x.typ == 7 ==> x.text == info.note)
  {}

  /** A transmitter is reported on when it was received and is not on probation. */
  lemma {:induction false} ReportsAreCounted(infos: seq<TranInfo>, x: TranInfo)
    ensures ReportsOf([]) == []
    ensures ReportsOf(infos + [x]) == ReportsOf(infos) + if x.recv.Some? && x.probation >= 0 then [x.recv.value] else []
  {
    assert (infos + [x])[..|infos|] == infos;
  }

  predicate Transmits(state: SessionState) { state.SendRecv? || state.SendOnly? }

  /** Nothing is sent in a state that does not send.  Not ok: the layout runs out of room. */
  method TransmitRTCP(state: SessionState, sender: Option<SenderInfo>, infos: seq<TranInfo>, info: SdesInfo)
    returns (ok: bool, sent: Option<seq<byte>>)
    ensures ok <==> (Transmits(state) ==> RegularRoom(sender, infos, info))
    ensures ok ==> sent == if Transmits(state) then Some(Concat(Parts(Regular(sender, infos, info)))) else None
    ensures ok ==> (sent.Some? <==> state == SendRecv || state == SendOnly)
    ensures ok && sent.Some? ==> RegularIs(sent.value, sender, ReportsOf(infos), info.Items(NonEmpty(info, 7)))
  {
    hide Block.Bytes, Block.Fits, ReportsOf, SdesInfo.Items, NonEmpty, Concat, Parts, Regular, ReportRoom, SdesRoom,
         RegularIs;
    if !Transmits(state) {
      return true, None;
    }
    ghost var blocks := Regular(sender, infos, info);
    RegularBlocks(sender, infos, info);
    ConcatParts(blocks);
    var p := new RtcpPacket();
    ok := AddSR(p, sender, infos);
    if !ok {
      return false, None;
    }
    assert p.contents == blocks[0].Bytes();
    if sender.Some? {
      ok := AddSDES(p, sender.value.ssrc, info, NonEmpty(info, 7));
      if !ok {
        return false, None;
      }
    }
    RegularHasFormat(sender, infos, info);
    return true, Some(Sent(p));
  }

  lemma {:induction false} RegularBlocks(sender: Option<SenderInfo>, infos: seq<TranInfo>, info: SdesInfo)
    ensures var blocks := Regular(sender, infos, info);
      && |blocks| == (if sender.Some? then 2 else 1) && blocks[0] == Report(sender, ReportsOf(infos))
      && (sender.Some? ==> blocks[1] == Sdes(sender.value.ssrc, info.Items(NonEmpty(info, 7))))
  {
    hide SdesInfo.Items, ReportsOf, NonEmpty;
  }

  /** What goes on the wire. */
  function Sent(p: RtcpPacket): (s: seq<byte>)
    requires p.Valid()
    reads p, p.packetData
    ensures s == p.contents
  {
    assert p.packetData[..p.TotalUsage()] == p.packetData[..][..p.TotalUsage()];
    p.packetData[..p.TotalUsage()]
  }

  lemma {:induction false} FarewellBlocks(sender: Option<SenderInfo>, infos: seq<TranInfo>, info: SdesInfo)
    ensures var blocks := Farewell(sender, infos, info);
      && |blocks| == (if sender.Some? then 3 else 1) && blocks[0] == Report(sender, ReportsOf(infos))
      && (sender.Some? ==>
            && blocks[1] == Sdes(sender.value.ssrc, info.Items([SDES_CNAME]))
            && blocks[2] == Goodbye([sender.value.ssrc], Some(PROGRAM_ENDED)))
  {
    hide SdesInfo.Items, ReportsOf;
    assert PROGRAM_ENDED[..14] == PROGRAM_ENDED;
  }

  method TransmitRTCPBYE(sender: Option<SenderInfo>, infos: seq<TranInfo>, info: SdesInfo)
    returns (ok: bool, sent: seq<byte>)
    ensures ok <==> FarewellRoom(sender, infos, info)
    ensures ok ==> sent == Concat(Parts(Farewell(sender, infos, info)))
    ensures ok ==> FarewellIs(sent, sender, ReportsOf(infos), info.cname)
  {
    hide Block.Bytes, Block.Fits, ReportsOf, SdesInfo.Items, Concat, Parts, Goodbye, Farewell, PROGRAM_ENDED,
         ReportRoom, SdesRoom, ByeRoom, FarewellIs;
    FarewellHasFormat(sender, infos, info);
    ghost var blocks := Farewell(sender, infos, info);
    FarewellBlocks(sender, infos, info);
    ConcatParts(blocks);
    var p := new RtcpPacket();
    ok := AddSR(p, sender, infos);
    if !ok {
      return false, [];
    }
    assert p.contents == blocks[0].Bytes();
    if sender.Some? {
      ok := AddSDES(p, sender.value.ssrc, info, [SDES_CNAME]);
      if !ok {
        return false, [];
      }
      assert p.contents == blocks[0].Bytes() + blocks[1].Bytes();
    }
    if sender.Some? {
      ok := AddBYE(p, [sender.value.ssrc], Some(PROGRAM_ENDED));
      if !ok {
        return false, [];
      }
    }
    return true, Sent(p);
  }

  lemma {:induction false} ConcatFew(a: seq<byte>, b: seq<byte>, c: seq<byte>)
    ensures Concat([a]) == a && Concat([a, b]) == a + b && Concat([a, b, c]) == a + b + c
  {
    assert Concat([]) == [];
    assert [a][1..] == [] && [b][1..] == [] && [c][1..] == [];
    assert [a, b][1..] == [b] && [b, c][1..] == [c] && [a, b, c][1..] == [b, c];
    assert Concat([b]) == b && Concat([c]) == c && Concat([b, c]) == b + c;
  }

  lemma {:induction false} ConcatParts(blocks: seq<Block>)
    requires 1 <= |blocks| <= 3 && EachFits(blocks)
    ensures |blocks| == 1 ==> Concat(Parts(blocks)) == blocks[0].Bytes()
    ensures |blocks| == 2 ==> Concat(Parts(blocks)) == blocks[0].Bytes() + blocks[1].Bytes()
    ensures |blocks| == 3 ==> Concat(Parts(blocks)) == blocks[0].Bytes() + blocks[1].Bytes() + blocks[2].Bytes()
  {
    hide Block.Bytes, Block.Fits, Concat;
    var ps := Parts(blocks);
    ConcatFew(ps[0], if |ps| > 1 then ps[1] else [], if |ps| > 2 then ps[2] else []);
    assert |ps| == 1 ==> ps == [ps[0]];
    assert |ps| == 2 ==> ps == [ps[0], ps[1]];
    assert |ps| == 3 ==> ps == [ps[0], ps[1], ps[2]];
  }
}
