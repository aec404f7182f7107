/** The blocks of an RTCP compound packet (section 6 of RFC 1889) as octets: what the
    builder of rtp/RtcpTransmitter.cxx emits, and what rtp/RtcpReceiver.cxx walks. */
module RtcpBlocks {
  import opened Options
  import opened Bytes

  const RTP_VERSION := 2
  const TYPE_SR := 200
  const TYPE_RR := 201
  const TYPE_SDES := 202
  const TYPE_BYE := 203
  const TYPE_APP := 204

  datatype SenderInfo = SenderInfo(ssrc: Word32, ntpTimeSec: Word32, ntpTimeFrac: Word32,
                                   rtpTime: Word32, packetCount: Word32, octetCount: Word32)
  {
    function Bytes(): (s: seq<byte>)
      ensures |s| == 24
    {
      Encode32(ssrc) + Encode32(ntpTimeSec) + Encode32(ntpTimeFrac)
      + Encode32(rtpTime) + Encode32(packetCount) + Encode32(octetCount)
    }
  }

  type Word24 = x: int | 0 <= x < 0x100_0000

  datatype ReportBlock = ReportBlock(ssrc: Word32, fracLost: byte, cumLost: Word24, recvCycles: Word16,
                                     lastSeqRecv: Word16, jitter: Word32, lastSR: Word32, lastSRDelay: Word32)
  {
    function Bytes(): (s: seq<byte>)
      ensures |s| == 24
    {
      Encode32(ssrc) + [fracLost] + [cumLost / 0x1_0000] + Encode16(cumLost % 0x1_0000)
      + Encode16(recvCycles) + Encode16(lastSeqRecv)
      + Encode32(jitter) + Encode32(lastSR) + Encode32(lastSRDelay)
    }
  }

  /** A description item; the type 0 that ends a list is not one. */
  datatype Item = Item(typ: byte, text: seq<byte>) {
    predicate Fits() { typ != 0 && |text| <= 255 }

    function Bytes(): seq<byte>
      requires Fits()
    {
      [typ, |text|] + text
    }
  }

  predicate AllFit(items: seq<Item>) { forall x :: x in items ==> x.Fits() }

  function ItemBytes(items: seq<Item>): seq<byte>
    requires AllFit(items)
  {
    if items == [] then [] else
      assert items[0] in items && forall x :: x in items[1..] ==> x in items;
      items[0].Bytes() + ItemBytes(items[1..])
  }

  function ReportBytes(reports: seq<ReportBlock>): (s: seq<byte>)
    ensures |s| == 24 * |reports|
  {
    if reports == [] then [] else reports[0].Bytes() + ReportBytes(reports[1..])
  }

  function SourceBytes(sources: seq<Word32>): (s: seq<byte>)
    ensures |s| == 4 * |sources|
  {
    if sources == [] then [] else Encode32(sources[0]) + SourceBytes(sources[1..])
  }

  datatype Block =
    | Report(sender: Option<SenderInfo>, reports: seq<ReportBlock>)
    | Sdes(source: Word32, items: seq<Item>)
    | Bye(sources: seq<Word32>, reason: Option<seq<byte>>)
  {
    /** The lengths fit one octet. */
    predicate Fits() {
      match this
      case Report(_, _) => true
      case Sdes(_, items) => AllFit(items)
      case Bye(_, reason) => reason.Some? ==> |reason.value| <= 255
    }

    function Type(): byte {
      match this
      case Report(sender, _) => if sender.Some? then TYPE_SR else TYPE_RR
      case Sdes(_, _) => TYPE_SDES
      case Bye(_, _) => TYPE_BYE
    }

    function Count(): nat {
      match this
      case Report(_, reports) => |reports|
      case Sdes(_, _) => 1
      case Bye(sources, _) => |sources|
    }

    /** What follows the header, before padding to 32 bits. */
    function Content(): seq<byte>
      requires Fits()
    {
      match this
      case Report(sender, reports) =>
        (if sender.Some? then sender.value.Bytes() else Encode32(0)) + ReportBytes(reports)
      case Sdes(source, items) => Encode32(source) + ItemBytes(items) + [0, 0]
      case Bye(sources, reason) =>
        SourceBytes(sources) + if reason.Some? then [|reason.value|] + reason.value else []
    }

    function Bytes(): (s: seq<byte>)
      requires Fits()
      ensures |s| == 4 + |Content()| + Padding(|Content()|)
    {
      Header(Count(), Type(), |Content()| + Padding(|Content()|)) + Content() + Zeros(Padding(|Content()|))
    }
  }

  /** Version 2, no padding bit, a five-bit count; the length in words, less one. */
  function Header(count: nat, typ: byte, payload: nat): (h: seq<byte>)
    ensures |h| == 4
  {
    [RTP_VERSION * 64 + count % 32, typ] + Encode16(payload / 4 % 0x1_0000)
  }

  /** The octets missing to a multiple of four. */
  function Padding(n: nat): (p: nat)
    ensures p < 4 && (n + p) % 4 == 0
  {
    (4 - n % 4) % 4
  }

  // ----- Walking from header to header -----

  predicate HasVersion(b: seq<byte>) { |b| >= 4 && b[0] / 64 == RTP_VERSION }

  /** The size that a header claims for its block. */
  function BlockSize(b: seq<byte>): (n: nat)
    requires |b| >= 4
    ensures n >= 4
  {
    var words: int := Decode16(b[2..4]);
    (words + 1) * 4
  }

  /** The blocks that follow one another in b, if they fill it exactly. */
  function Partition(b: seq<byte>): Option<seq<seq<byte>>>
    decreases |b|
  {
    if b == [] then Some([])
    else if !HasVersion(b) || BlockSize(b) > |b| then None
    else
      match Partition(b[BlockSize(b)..])
      case None => None
      case Some(rest) => Some([b[..BlockSize(b)]] + rest)
  }

  /** What the validity check of section A.2 of RFC 1889 accepts. */
  predicate IsCompound(b: seq<byte>) {
    && |b| >= 4
    && (b[1] == TYPE_SR || b[1] == TYPE_RR)
    && b[0] / 32 % 2 == 0
    && Partition(b).Some?
  }

  function Concat(parts: seq<seq<byte>>): seq<byte> {
    if parts == [] then [] else parts[0] + Concat(parts[1..])
  }

  /** A block on its own: a header with the right version and the right length. */
  predicate IsBlock(p: seq<byte>) { HasVersion(p) && BlockSize(p) == |p| }

  lemma {:induction false} PartitionStep(p: seq<byte>, rest: seq<byte>)
    requires IsBlock(p)
    ensures Partition(p + rest) ==
      match Partition(rest) case None => None case Some(parts) => Some([p] + parts)
  {
    var b := p + rest;
    assert b[2..4] == p[2..4] && b[0] == p[0];
    assert b[..|p|] == p && b[|p|..] == rest;
  }

  lemma {:induction false} PartitionHead(b: seq<byte>, p: seq<byte>, rest: seq<seq<byte>>)
    requires Partition(b).Some? && Partition(b).value != []
    requires Partition(b).value[0] == p && Partition(b).value[1..] == rest
    ensures IsBlock(p) && |p| <= |b| && b == p + b[|p|..] && Partition(b[|p|..]) == Some(rest)
  {
    var n := BlockSize(b);
    assert p == b[..n] && b[..n][2..4] == b[2..4];
  }

  /** A sequence of octets is divided into blocks in one way only. */
  lemma {:induction false} PartitionIsExact(b: seq<byte>, parts: seq<seq<byte>>)
    ensures Partition(b) == Some(parts) <==> Concat(parts) == b && forall p :: p in parts ==> IsBlock(p)
    decreases |parts|
  {
    if parts == [] {
    } else {
      var p, rest := parts[0], parts[1..];
      assert p in parts && forall x :: x in rest ==> x in parts;
      assert forall x :: x in parts ==> x == p || x in rest;
      if Concat(parts) == b && forall x :: x in parts ==> IsBlock(x) {
        PartitionIsExact(Concat(rest), rest);
        PartitionStep(p, Concat(rest));
        assert [p] + rest == parts;
      }
      if Partition(b) == Some(parts) {
        PartitionHead(b, p, rest);
        PartitionIsExact(b[|p|..], rest);
      }
    }
  }

  // ----- Compound packets -----

  predicate EachFits(blocks: seq<Block>) { forall i :: 0 <= i < |blocks| ==> blocks[i].Fits() }

  /** The length in words fits 16 bits. */
  predicate AllSized(blocks: seq<Block>) {
    EachFits(blocks) && forall i :: 0 <= i < |blocks| ==> |blocks[i].Bytes()| <= 0x4_0000
  }

  predicate Compound(blocks: seq<Block>) {
    && blocks != [] && blocks[0].Report?
    && AllSized(blocks)
  }

  function Parts(blocks: seq<Block>): (ps: seq<seq<byte>>)
    requires EachFits(blocks)
    ensures |ps| == |blocks| && forall i :: 0 <= i < |blocks| ==> ps[i] == blocks[i].Bytes()
  {
    seq(|blocks|, i requires 0 <= i < |blocks| => blocks[i].Bytes())
  }

  lemma {:induction false} HeaderMakesBlock(count: nat, typ: byte, payload: seq<byte>)
    requires |payload| % 4 == 0 && |payload| < 0x4_0000
    ensures var b := Header(count, typ, |payload|) + payload;
      IsBlock(b) && b[0] == 128 + count % 32 && b[1] == typ
  {
    var b := Header(count, typ, |payload|) + payload;
    assert b[2..4] == Encode16(|payload| / 4);
    Decode16Undoes(|payload| / 4);
  }

  lemma {:induction false} BytesAreBlock(b: Block)
    requires b.Fits() && |b.Bytes()| <= 0x4_0000
    ensures IsBlock(b.Bytes()) && b.Bytes()[1] == b.Type() && b.Bytes()[0] == 128 + b.Count() % 32
  {
    HeaderMakesBlock(b.Count(), b.Type(), b.Content() + Zeros(Padding(|b.Content()|)));
    assert b.Bytes() == Header(b.Count(), b.Type(), |b.Content()| + Padding(|b.Content()|))
      + (b.Content() + Zeros(Padding(|b.Content()|)));
  }

  /** A compound of a report, then any blocks, is valid, and the walk from header to
      header visits exactly those blocks and ends on the last octet. */
  lemma {:induction false} CompoundIsValid(blocks: seq<Block>)
    requires Compound(blocks)
    ensures IsCompound(Concat(Parts(blocks)))
    ensures Partition(Concat(Parts(blocks))) == Some(Parts(blocks))
  {
    hide Partition, BlockSize, Padding, Header, Block.Content;
    var ps := Parts(blocks);
    forall p | p in ps ensures IsBlock(p) {
      var i :| 0 <= i < |ps| && ps[i] == p;
      BytesAreBlock(blocks[i]);
    }
    PartitionIsExact(Concat(ps), ps);
    BytesAreBlock(blocks[0]);
    hide IsBlock, Block.Fits, Block.Bytes;
    var b := Concat(ps);
    assert b == ps[0] + Concat(ps[1..]);
    assert b[0] == ps[0][0] && b[1] == ps[0][1];
  }
}
