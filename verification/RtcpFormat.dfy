/** The octets of RTCP packets, offset by offset, as section 6 of RFC 1889 draws them
    (the structures of rtp/rtpTypes.h). */
module RtcpFormat {
  import opened Options
  import opened Bytes
  import opened RtcpBlocks

  /** The numbers of section 12.1 of RFC 1889, and the size of the array. */
  lemma {:induction false} AssignedNumbers()
    ensures TYPE_SR == 200 && TYPE_RR == 201 && TYPE_SDES == 202 && TYPE_BYE == 203 && TYPE_APP == 204
    ensures RTP_VERSION == 2
  {}

  /** Version 2, no padding bit, the count in five bits, the type, and the length in words
      less one. */
  predicate HeaderIs(s: seq<byte>, count: nat, typ: int, words: int) {
    |s| >= 4 && s[0] as int == 128 + count % 32 && s[1] as int == typ && Number16(s, 2) == words
  }

  predicate SenderIs(s: seq<byte>, info: SenderInfo) {
    && |s| >= 24
    && Number32(s, 0) == info.ssrc
    && Number32(s, 4) == info.ntpTimeSec
    && Number32(s, 8) == info.ntpTimeFrac
    && Number32(s, 12) == info.rtpTime
    && Number32(s, 16) == info.packetCount
    && Number32(s, 20) == info.octetCount
  }

  predicate BlockIs(s: seq<byte>, r: ReportBlock) {
    && |s| >= 24
    && Number32(s, 0) == r.ssrc
    && s[4] == r.fracLost
    && s[5] as int * 0x1_0000 + s[6] as int * 0x100 + s[7] == r.cumLost
    && Number16(s, 8) == r.recvCycles
    && Number16(s, 10) == r.lastSeqRecv
    && Number32(s, 12) == r.jitter
    && Number32(s, 16) == r.lastSR
    && Number32(s, 20) == r.lastSRDelay
  }

  /** A report: of type 200 with a sender, of type 201 and from source 0 without. */
  predicate ReportIs(s: seq<byte>, sender: Option<SenderInfo>, reports: seq<ReportBlock>) {
    var first := if sender.Some? then 28 else 8;
    var size := first + 24 * |reports|;
    && |s| >= size
    && HeaderIs(s, |reports|, if sender.Some? then 200 else 201, (size / 4 - 1) % 0x1_0000)
    && (sender.Some? ==> SenderIs(s[4..], sender.value))
    && (sender.None? ==> Number32(s, 4) == 0)
    && forall i :: 0 <= i < |reports| ==> BlockIs(s[first + 24 * i..], reports[i])
  }

  /** Items, each with its type, its length and its text, and then the octets `end`. */
  predicate ItemsAre(s: seq<byte>, items: seq<Item>, end: seq<byte>)
    decreases |items|
  {
    if items == [] then s == end else
      var n := |items[0].text|;
      && |s| >= 2 + n && s[0] == items[0].typ && s[1] as int == n && s[2..2 + n] == items[0].text
      && ItemsAre(s[2 + n..], items[1..], end)
  }

  /** The description of one source, of type 202: ended by a zero, another, and zeros up to
      a multiple of four octets. */
  predicate SdesIs(s: seq<byte>, ssrc: Word32, items: seq<Item>) {
    && |s| >= 8 && |s| % 4 == 0
    && HeaderIs(s, 1, 202, (|s| / 4 - 1) % 0x1_0000)
    && Number32(s, 4) == ssrc
    && exists zeros: nat :: 2 <= zeros <= 5 && ItemsAre(s[8..], items, Zeros(zeros))
  }

  /** A goodbye from one source, of type 203, with its reason. */
  predicate ByeIs(s: seq<byte>, ssrc: Word32, reason: seq<byte>) {
    && |s| >= 9 + |reason| && |s| % 4 == 0 && |s| < 13 + |reason|
    && HeaderIs(s, 1, 203, (|s| / 4 - 1) % 0x1_0000)
    && Number32(s, 4) == ssrc
    && s[8] as int == |reason| && s[9..9 + |reason|] == reason
    && forall i :: 9 + |reason| <= i < |s| ==> s[i] == 0
  }

  // ----- The blocks have that format -----

  lemma {:induction false} HeaderHasFormat(count: nat, typ: byte, payload: nat, rest: seq<byte>)
    requires payload % 4 == 0
    ensures HeaderIs(Header(count, typ, payload) + rest, count, typ, ((4 + payload) / 4 - 1) % 0x1_0000)
  {
    hide Encode16;
    var s := Header(count, typ, payload) + rest;
    assert s[2..4] == Encode16(payload / 4 % 0x1_0000);
    WrittenAt16(s, 2, payload / 4 % 0x1_0000);
    assert (4 + payload) / 4 - 1 == payload / 4;
  }

  lemma {:induction false} SenderHasFormat(info: SenderInfo, rest: seq<byte>)
    ensures SenderIs(info.Bytes() + rest, info)
  {
    hide Encode32, Number32;
    var s := info.Bytes() + rest;
    assert s[0..4] == Encode32(info.ssrc) && s[4..8] == Encode32(info.ntpTimeSec);
    assert s[8..12] == Encode32(info.ntpTimeFrac) && s[12..16] == Encode32(info.rtpTime);
    assert s[16..20] == Encode32(info.packetCount) && s[20..24] == Encode32(info.octetCount);
    WrittenAt32(s, 0, info.ssrc);
    WrittenAt32(s, 4, info.ntpTimeSec);
    WrittenAt32(s, 8, info.ntpTimeFrac);
    WrittenAt32(s, 12, info.rtpTime);
    WrittenAt32(s, 16, info.packetCount);
    WrittenAt32(s, 20, info.octetCount);
  }

  lemma {:induction false} BlockHasFormat(r: ReportBlock, rest: seq<byte>)
    ensures BlockIs(r.Bytes() + rest, r)
  {
    hide Encode32, Encode16, Number32;
    var s := r.Bytes() + rest;
    assert s[0..4] == Encode32(r.ssrc) && s[4] == r.fracLost && s[5] == r.cumLost / 0x1_0000;
    assert s[6..8] == Encode16(r.cumLost % 0x1_0000) && s[8..10] == Encode16(r.recvCycles);
    assert s[10..12] == Encode16(r.lastSeqRecv) && s[12..16] == Encode32(r.jitter);
    assert s[16..20] == Encode32(r.lastSR) && s[20..24] == Encode32(r.lastSRDelay);
    WrittenAt32(s, 0, r.ssrc);
    WrittenAt16(s, 6, r.cumLost % 0x1_0000);
    WrittenAt16(s, 8, r.recvCycles);
    WrittenAt16(s, 10, r.lastSeqRecv);
    WrittenAt32(s, 12, r.jitter);
    WrittenAt32(s, 16, r.lastSR);
    WrittenAt32(s, 20, r.lastSRDelay);
  }

  lemma {:induction false} BlocksHaveFormat(reports: seq<ReportBlock>, rest: seq<byte>, i: nat)
    requires i < |reports|
    ensures BlockIs((ReportBytes(reports) + rest)[24 * i..], reports[i])
    decreases i
  {
    hide BlockIs, ReportBlock.Bytes;
    var head, tail := reports[0].Bytes(), ReportBytes(reports[1..]) + rest;
    assert ReportBytes(reports) + rest == head + tail;
    if i == 0 {
      BlockHasFormat(reports[0], tail);
    } else {
      BlocksHaveFormat(reports[1..], rest, i - 1);
      assert (head + tail)[24 * i..] == tail[24 * (i - 1)..];
    }
  }

  lemma {:induction false} NoPadding(n: nat)
    requires n % 4 == 0
    ensures Padding(n) == 0 && Zeros(0) == []
  {}

  lemma {:induction false} WholeWords(first: nat, n: nat)
    requires first % 4 == 0
    ensures (first + 24 * n) % 4 == 0
  {
    assert first + 24 * n == 4 * (first / 4 + 6 * n);
  }

  lemma {:induction false} InFrontOf(h: seq<byte>, info: seq<byte>, reports: seq<byte>, rest: seq<byte>)
    ensures h + (info + reports) + [] + rest == h + (info + (reports + rest))
  {}

  lemma {:induction false} ReportContent(sender: Option<SenderInfo>, reports: seq<ReportBlock>, rest: seq<byte>)
    ensures var b := Report(sender, reports);
      var info := if sender.Some? then sender.value.Bytes() else Encode32(0);
      && b.Fits() && |b.Bytes()| == 4 + |info| + 24 * |reports| && (|info| + 24 * |reports|) % 4 == 0
      && b.Bytes() + rest == Header(|reports|, if sender.Some? then 200 else 201, |info| + 24 * |reports|)
                             + (info + (ReportBytes(reports) + rest))
  {
    hide SenderInfo.Bytes, ReportBytes, Encode32, Header, Padding, Zeros;
    var info := if sender.Some? then sender.value.Bytes() else Encode32(0);
    var n := |info| + 24 * |reports|;
    WholeWords(|info|, |reports|);
    NoPadding(n);
    InFrontOf(Header(|reports|, if sender.Some? then 200 else 201, n), info, ReportBytes(reports), rest);
  }

  lemma {:induction false} ReportHasFormat(sender: Option<SenderInfo>, reports: seq<ReportBlock>, rest: seq<byte>)
    ensures ReportIs(Report(sender, reports).Bytes() + rest, sender, reports)
  {
    hide Block.Bytes, Header, HeaderIs, SenderIs, BlockIs, SenderInfo.Bytes, ReportBytes, Encode32, Number32;
    ReportContent(sender, reports, rest);
    var n := |reports|;
    var info := if sender.Some? then sender.value.Bytes() else Encode32(0);
    var behind := ReportBytes(reports) + rest;
    var s := Report(sender, reports).Bytes() + rest;
    HeaderHasFormat(n, if sender.Some? then 200 else 201, |info| + 24 * n, info + behind);
    assert s[4..] == info + behind;
    if sender.Some? {
      SenderHasFormat(sender.value, behind);
    } else {
      assert s[4..8] == Encode32(0);
      WrittenAt32(s, 4, 0);
    }
    forall i | 0 <= i < n ensures BlockIs(s[4 + |info| + 24 * i..], reports[i]) {
      BlocksHaveFormat(reports, rest, i);
      assert s[4 + |info| + 24 * i..] == behind[24 * i..];
    }
  }

  lemma {:induction false} ItemsHaveFormat(items: seq<Item>, end: seq<byte>)
    requires AllFit(items)
    ensures ItemsAre(ItemBytes(items) + end, items, end)
    decreases |items|
  {
    hide ItemBytes, ItemsAre, Item.Fits;
    if items == [] {
      NoItems(end);
    } else {
      var more := ItemBytes(items[1..]) + end;
      ItemInFront(items, end);
      ItemsHaveFormat(items[1..], end);
      NextItem(items, more, end);
    }
  }

  lemma {:induction false} NoItems(end: seq<byte>)
    ensures ItemsAre(ItemBytes([]) + end, [], end)
  {
    assert ItemBytes([]) + end == end;
  }

  lemma {:induction false} ItemInFront(items: seq<Item>, end: seq<byte>)
    requires AllFit(items) && items != []
    ensures var x := items[0];
      && x.Fits() && AllFit(items[1..])
      && ItemBytes(items) + end == [x.typ, |x.text|] + x.text + (ItemBytes(items[1..]) + end)
  {
    var x, tail := items[0], items[1..];
    assert x in items && forall y :: y in tail ==> y in items;
    assert ItemBytes(items) == [x.typ, |x.text|] + x.text + ItemBytes(tail);
    Associates([x.typ, |x.text|] + x.text, ItemBytes(tail), end);
  }

  lemma {:induction false} NextItem(items: seq<Item>, more: seq<byte>, end: seq<byte>)
    requires items != [] && items[0].Fits() && ItemsAre(more, items[1..], end)
    ensures ItemsAre([items[0].typ, |items[0].text|] + items[0].text + more, items, end)
  {
    var x := items[0];
    var s := [x.typ, |x.text|] + x.text + more;
    assert s[2..2 + |x.text|] == x.text && s[2 + |x.text|..] == more;
  }

  lemma {:induction false} SdesHasFormat(ssrc: Word32, items: seq<Item>)
    requires AllFit(items)
    ensures SdesIs(Sdes(ssrc, items).Bytes(), ssrc, items)
  {
    hide Header, HeaderIs, ItemBytes, ItemsAre, Encode32, Number32, Padding;
    var s := Sdes(ssrc, items).Bytes();
    var content := Encode32(ssrc) + ItemBytes(items) + [0, 0];
    var pad := Padding(|content|);
    var end := Zeros(2 + pad);
    assert [0, 0] + Zeros(pad) == end;
    assert s == Header(1, 202, |content| + pad) + (Encode32(ssrc) + (ItemBytes(items) + end));
    HeaderHasFormat(1, 202, |content| + pad, Encode32(ssrc) + (ItemBytes(items) + end));
    assert s[4..8] == Encode32(ssrc) && s[8..] == ItemBytes(items) + end;
    WrittenAt32(s, 4, ssrc);
    ItemsHaveFormat(items, end);
  }

  lemma {:induction false} ByeHasFormat(ssrc: Word32, reason: seq<byte>)
    requires |reason| <= 255
    ensures ByeIs(Bye([ssrc], Some(reason)).Bytes(), ssrc, reason)
  {
    hide Header, HeaderIs, Encode32, Number32, Padding;
    var b := Bye([ssrc], Some(reason));
    assert SourceBytes([ssrc]) == Encode32(ssrc) by { assert [ssrc][1..] == [] && SourceBytes([]) == []; }
    var content := Encode32(ssrc) + ([|reason|] + reason);
    assert b.Content() == content;
    var pad := Padding(|content|);
    var s := b.Bytes();
    assert s == Header(1, 203, |content| + pad) + (content + Zeros(pad));
    HeaderHasFormat(1, 203, |content| + pad, content + Zeros(pad));
    assert s[4..8] == Encode32(ssrc) && s[8] == |reason| && s[9..9 + |reason|] == reason;
    WrittenAt32(s, 4, ssrc);
  }

  /** The check of section A.2 of RFC 1889: the first block is a report without padding, and
      from block to block the version and the lengths are right up to the last octet. */
  lemma {:induction false} CheckIsExact(b: seq<byte>)
    ensures IsCompound(b) <==>
      && |b| >= 4 && (b[1] == 200 || b[1] == 201) && b[0] / 32 % 2 == 0
      && exists parts: seq<seq<byte>> :: Concat(parts) == b && forall p :: p in parts ==>
           |p| >= 4 && p[0] / 64 == 2 && |p| == 4 * (Number16(p, 2) + 1)
  {
    hide Concat, Partition, IsBlock, Number16;
    if IsCompound(b) {
      var parts := Partition(b).value;
      PartitionIsExact(b, parts);
      forall p | p in parts ensures |p| >= 4 && p[0] / 64 == 2 && |p| == 4 * (Number16(p, 2) + 1) {
        BlockIsSized(p);
      }
    }
    if exists parts: seq<seq<byte>> :: Concat(parts) == b && forall p :: p in parts ==>
         |p| >= 4 && p[0] / 64 == 2 && |p| == 4 * (Number16(p, 2) + 1) {
      var parts: seq<seq<byte>> :| Concat(parts) == b && forall p :: p in parts ==>
         |p| >= 4 && p[0] / 64 == 2 && |p| == 4 * (Number16(p, 2) + 1);
      forall p | p in parts ensures IsBlock(p) {
        BlockIsSized(p);
      }
      PartitionIsExact(b, parts);
    }
  }

  lemma {:induction false} BlockIsSized(p: seq<byte>)
    ensures IsBlock(p) <==> |p| >= 4 && p[0] / 64 == 2 && |p| == 4 * (Number16(p, 2) + 1)
  {
    if |p| >= 4 {
      NetworkOrder16(0, p[2..4]);
    }
  }
}
