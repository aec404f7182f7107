/** rtp/RtcpReceiver.cxx: the check and the walk of compound packets received. */
module RtcpWalker {
  import opened Options
  import opened Bytes
  import opened RtcpBlocks
  import opened RtcpArena
  import opened RtcpBuilder

  /** What a block tells the receiver. */
  datatype Said =
    | Sent(ssrc: Word32, lastSRTimestamp: Word32)
    | Reported(lastSR: Word32, lastSRDelay: Word32)
    | Described(ssrc: Word32, item: Item)
    | Left(ssrc: Word32)

  /** The transmitters known and all that was said; Lost when the walk would leave the
      packet, or when the code gives up on an assertion. */
  datatype Hearing = Lost | Hearing(sources: set<Word32>, said: seq<Said>) {
    function Hear(x: Said): Hearing {
      if this.Lost? then Lost else
      match x
      case Sent(ssrc, _) => Hearing(sources + {ssrc}, said + [x])
      case Reported(_, _) => Hearing(sources, said + [x])
      case Described(ssrc, _) => Hearing(sources + {ssrc}, said + [x])
      case Left(ssrc) => if ssrc in sources then Hearing(sources - {ssrc}, said + [x]) else Lost
    }

    function HearAll(xs: seq<Said>): Hearing
      decreases |xs|
    {
      if xs == [] then this else Hear(xs[0]).HearAll(xs[1..])
    }
  }

  // ----- The walk through one block, as a function of what follows -----

  function MiddleBits(sec: Word32, frac: Word32): Word32 {
    sec % 0x1_0000 * 0x1_0000 + frac / 0x1_0000
  }

  /** Section 6.3.1 of RFC 1889: the middle 32 of the 64 bits of an NTP timestamp. */
  lemma {:induction false} MiddleBitsAreMiddle(sec: Word32, frac: Word32)
    ensures MiddleBits(sec, frac) as int
         == (sec as int * 0x1_0000_0000 + frac) / 0x1_0000 % 0x1_0000_0000
  {
    var q, r := sec / 0x1_0000, sec % 0x1_0000;
    var low := frac / 0x1_0000;
    assert sec as int * 0x1_0000_0000 + frac == (sec as int * 0x1_0000 + low) * 0x1_0000 + frac % 0x1_0000;
    assert sec as int * 0x1_0000 + low == q * 0x1_0000_0000 + (r * 0x1_0000 + low);
  }

  function HearReports(b: seq<byte>, n: nat, s: Hearing): Hearing
    decreases n
  {
    if n == 0 then s
    else if |b| < 24 then Lost
    else HearReports(b[24..], n - 1, s.Hear(Reported(Decode32(b[16..20]), Decode32(b[20..24]))))
  }

  function HearReport(head: seq<byte>, s: Hearing): Hearing
    requires |head| >= 4
  {
    if head[1] == TYPE_SR then
      if |head| < 28 then Lost else
        HearReports(head[28..], head[0] % 32,
                    s.Hear(Sent(Decode32(head[4..8]), MiddleBits(Decode32(head[8..12]), Decode32(head[12..16])))))
    else
      if |head| < 8 then Lost else HearReports(head[8..], head[0] % 32, s)
  }

  /** The items up to the one that ends the list, and what is left from there. */
  function HearItems(b: seq<byte>, ssrc: Word32, s: Hearing): (r: (Hearing, seq<byte>))
    ensures |r.1| <= |b|
    decreases |b|
  {
    if b == [] then (Lost, b)
    else if b[0] == 0 then (s, b)
    else if |b| < 2 || |b| - 2 < b[1] then (Lost, [])
    else
      var next: int := b[1] as int + 2;
      HearItems(b[next..], ssrc, s.Hear(Described(ssrc, Item(b[0], b[2..next]))))
  }

  function HearChunks(b: seq<byte>, n: nat, s: Hearing): Hearing
    decreases n
  {
    if n == 0 then s
    else if |b| < 4 then Lost
    else
      var (s', rest) := HearItems(b[4..], Decode32(b[..4]), s);
      HearChunks(rest, n - 1, s')
  }

  function HearLeaving(b: seq<byte>, n: nat, s: Hearing): Hearing
    decreases n
  {
    if n == 0 then s
    else if |b| < 4 then Lost
    else HearLeaving(b[4..], n - 1, s.Hear(Left(Decode32(b[..4]))))
  }

  function HearBlock(head: seq<byte>, s: Hearing): Hearing
    requires |head| >= 4
  {
    if head[1] == TYPE_SR || head[1] == TYPE_RR then HearReport(head, s)
    else if head[1] == TYPE_SDES then HearChunks(head[4..], head[0] % 32, s)
    else if head[1] == TYPE_BYE then HearLeaving(head[4..], head[0] % 32, s)
    else if head[1] == TYPE_APP then Lost
    else s
  }

  /** The walk from header to header, through `usage` octets of the packet array. */
  function HearAllBlocks(b: seq<byte>, usage: int, s: Hearing): Hearing
    decreases usage
  {
    if usage <= 0 then s
    else if |b| < 4 then Lost
    else if BlockSize(b) > |b| then HearBlock(b, s)
    else HearAllBlocks(b[BlockSize(b)..], usage - BlockSize(b), HearBlock(b, s))
  }

  lemma {:induction false} LostReports(b: seq<byte>, n: nat)
    ensures HearReports(b, n, Lost) == Lost
    decreases n
  {
    if n > 0 && |b| >= 24 {
      LostReports(b[24..], n - 1);
    }
  }

  lemma {:induction false} LostLeaving(b: seq<byte>, n: nat)
    ensures HearLeaving(b, n, Lost) == Lost
    decreases n
  {
    if n > 0 && |b| >= 4 {
      LostLeaving(b[4..], n - 1);
    }
  }

  lemma {:induction false} LostItems(b: seq<byte>, ssrc: Word32)
    ensures HearItems(b, ssrc, Lost).0 == Lost
    decreases |b|
  {
    if b != [] && b[0] != 0 && |b| >= 2 && |b| - 2 >= b[1] {
      LostItems(b[b[1] as int + 2..], ssrc);
    }
  }

  lemma {:induction false} LostChunks(b: seq<byte>, n: nat)
    ensures HearChunks(b, n, Lost) == Lost
    decreases n
  {
    if n > 0 && |b| >= 4 {
      LostItems(b[4..], Decode32(b[..4]));
      LostChunks(HearItems(b[4..], Decode32(b[..4]), Lost).1, n - 1);
    }
  }

  lemma {:induction false} LostBlocks(b: seq<byte>, usage: int)
    ensures HearAllBlocks(b, usage, Lost) == Lost
    decreases usage
  {
    if usage > 0 && |b| >= 4 {
      if |b| >= 8 {
        LostReports(b[8..], b[0] % 32);
      }
      if |b| >= 28 {
        LostReports(b[28..], b[0] % 32);
      }
      LostLeaving(b[4..], b[0] % 32);
      LostChunks(b[4..], b[0] % 32);
      assert HearBlock(b, Lost) == Lost;
      if BlockSize(b) <= |b| {
        LostBlocks(b[BlockSize(b)..], usage - BlockSize(b));
      }
    }
  }

  // ----- The walk stays aligned -----

  /** The blocks of a partition, one after the other; b is what follows in the packet. */
  function HearParts(b: seq<byte>, parts: seq<seq<byte>>, s: Hearing): Hearing
    decreases |parts|
  {
    if parts == [] then s
    else if |b| < 4 || |b| < |parts[0]| then Lost
    else HearParts(b[|parts[0]|..], parts[1..], HearBlock(b, s))
  }

  /** On anything that passes the check, the walk visits exactly the blocks of the
      partition, in order. */
  lemma {:induction false} WalkFollowsPartition(b: seq<byte>, parts: seq<seq<byte>>, s: Hearing)
    requires Concat(parts) <= b && forall p :: p in parts ==> IsBlock(p)
    ensures HearAllBlocks(b, |Concat(parts)|, s) == HearParts(b, parts, s)
    decreases |parts|
  {
    hide HearBlock;
    if parts != [] {
      var p, rest := parts[0], parts[1..];
      assert p in parts && (forall x :: x in rest ==> x in parts) && Concat(parts) == p + Concat(rest);
      assert b[..|Concat(parts)|] == Concat(parts);
      assert b[2..4] == p[2..4] && BlockSize(b) == |p|;
      assert Concat(rest) <= b[|p|..];
      WalkFollowsPartition(b[|p|..], rest, HearBlock(b, s));
    }
  }

  // ----- What was built is what is heard -----

  function ReportsSay(reports: seq<ReportBlock>): seq<Said> {
    seq(|reports|, i requires 0 <= i < |reports| => Reported(reports[i].lastSR, reports[i].lastSRDelay))
  }

  function ItemsSay(ssrc: Word32, items: seq<Item>): seq<Said> {
    seq(|items|, i requires 0 <= i < |items| => Described(ssrc, items[i]))
  }

  function LeavingSays(sources: seq<Word32>): seq<Said> {
    seq(|sources|, i requires 0 <= i < |sources| => Left(sources[i]))
  }

  /** What a block means.  Five bits count the reports and the sources: beyond 31 only
      the count modulo 32 is heard. */
  function Meaning(b: Block): seq<Said> {
    match b
    case Report(sender, reports) =>
      (if sender.Some? then
        [Sent(sender.value.ssrc, MiddleBits(sender.value.ntpTimeSec, sender.value.ntpTimeFrac))]
       else [])
      + ReportsSay(reports[..|reports| % 32])
    case Sdes(ssrc, items) => ItemsSay(ssrc, items)
    case Bye(sources, _) => LeavingSays(sources[..|sources| % 32])
  }

  /** What each kind of block says, field by field. */
  lemma {:induction false} MeaningIs(sender: SenderInfo, reports: seq<ReportBlock>, ssrc: Word32, items: seq<Item>,
                                     sources: seq<Word32>, reason: Option<seq<byte>>, i: nat)
    requires |reports| < 32 && |sources| < 32
    ensures |Meaning(Report(Some(sender), reports))| == 1 + |reports|
    ensures Meaning(Report(Some(sender), reports))[0].Sent?
    ensures Meaning(Report(Some(sender), reports))[0].ssrc == sender.ssrc
    ensures Meaning(Report(Some(sender), reports))[0].lastSRTimestamp as int
         == (sender.ntpTimeSec as int * 0x1_0000_0000 + sender.ntpTimeFrac) / 0x1_0000 % 0x1_0000_0000
    ensures i < |reports| ==>
      Meaning(Report(Some(sender), reports))[1 + i] == Reported(reports[i].lastSR, reports[i].lastSRDelay)
    ensures |Meaning(Sdes(ssrc, items))| == |items|
    ensures i < |items| ==> Meaning(Sdes(ssrc, items))[i] == Described(ssrc, items[i])
    ensures |Meaning(Bye(sources, reason))| == |sources|
    ensures i < |sources| ==> Meaning(Bye(sources, reason))[i] == Left(sources[i])
  {
    hide MiddleBits;
    MiddleBitsAreMiddle(sender.ntpTimeSec, sender.ntpTimeFrac);
    assert reports[..|reports|] == reports && sources[..|sources|] == sources;
  }

  lemma {:induction false} HearReportBytes(reports: seq<ReportBlock>, n: nat, rest: seq<byte>, s: Hearing)
    requires n <= |reports|
    ensures HearReports(ReportBytes(reports) + rest, n, s) == s.HearAll(ReportsSay(reports[..n]))
    decreases n
  {
    hide ReportBytes, ReportBlock.Bytes, Decode32, ReportsSay, HearReports;
    if n == 0 {
      NoReportsHeard(ReportBytes(reports) + rest, reports, s);
    } else {
      var r, tail, more := reports[0], reports[1..], ReportBytes(reports[1..]) + rest;
      FirstReport(reports, n);
      Associates(r.Bytes(), ReportBytes(tail), rest);
      HearReportHead(r, more, n, s);
      var heard := Reported(r.lastSR, r.lastSRDelay);
      HearFirst(s, heard, ReportsSay(tail[..n - 1]));
      HearReportBytes(tail, n - 1, rest, s.Hear(heard));
    }
  }

  lemma {:induction false} NoReportsHeard(b: seq<byte>, reports: seq<ReportBlock>, s: Hearing)
    ensures HearReports(b, 0, s) == s.HearAll(ReportsSay(reports[..0]))
  {
    assert ReportsSay(reports[..0]) == [];
  }

  lemma {:induction false} FirstReport(reports: seq<ReportBlock>, n: nat)
    requires 0 < n <= |reports|
    ensures var r, tail := reports[0], reports[1..];
      && ReportBytes(reports) == r.Bytes() + ReportBytes(tail)
      && ReportsSay(reports[..n]) == [Reported(r.lastSR, r.lastSRDelay)] + ReportsSay(tail[..n - 1])
  {
    hide ReportBlock.Bytes;
    assert reports[..n][0] == reports[0] && reports[..n][1..] == reports[1..][..n - 1];
  }

  lemma {:induction false} HearReportHead(r: ReportBlock, more: seq<byte>, n: nat, s: Hearing)
    requires n > 0
    ensures HearReports(r.Bytes() + more, n, s) == HearReports(more, n - 1, s.Hear(Reported(r.lastSR, r.lastSRDelay)))
  {
    hide ReportBlock.Bytes, Decode32;
    ReportShows(r, more);
    assert (r.Bytes() + more)[24..] == more;
  }

  lemma {:induction false} ReportShows(r: ReportBlock, more: seq<byte>)
    ensures var b := r.Bytes() + more;
      Decode32(b[16..20]) == r.lastSR && Decode32(b[20..24]) == r.lastSRDelay
  {
    var b := r.Bytes() + more;
    assert b[16..20] == Encode32(r.lastSR) && b[20..24] == Encode32(r.lastSRDelay);
    Decode32Undoes(r.lastSR);
    Decode32Undoes(r.lastSRDelay);
  }

  /** The items of a description are heard as (type, length, text), in order. */
  lemma {:induction false} HearItemBytes(items: seq<Item>, ssrc: Word32, rest: seq<byte>, s: Hearing)
    requires AllFit(items) && rest != [] && rest[0] == 0
    ensures HearItems(ItemBytes(items) + rest, ssrc, s) == (s.HearAll(ItemsSay(ssrc, items)), rest)
    decreases |items|
  {
    hide ItemBytes, HearItems, ItemsSay, Hearing.HearAll, Item.Fits;
    if items == [] {
      NoItemsHeard(ssrc, rest, s);
    } else {
      var x, tail := items[0], items[1..];
      FirstItem(items, ssrc, rest);
      HearItem(x, ssrc, ItemBytes(tail) + rest, s);
      HearFirst(s, Described(ssrc, x), ItemsSay(ssrc, tail));
      HearItemBytes(tail, ssrc, rest, s.Hear(Described(ssrc, x)));
    }
  }

  lemma {:induction false} NoItemsHeard(ssrc: Word32, rest: seq<byte>, s: Hearing)
    requires rest != [] && rest[0] == 0
    ensures HearItems(ItemBytes([]) + rest, ssrc, s) == (s.HearAll(ItemsSay(ssrc, [])), rest)
  {
    assert ItemBytes([]) + rest == rest && ItemsSay(ssrc, []) == [];
  }

  lemma {:induction false} FirstItem(items: seq<Item>, ssrc: Word32, rest: seq<byte>)
    requires AllFit(items) && items != []
    ensures var x, tail := items[0], items[1..];
      && x.Fits() && AllFit(tail)
      && ItemBytes(items) + rest == [x.typ, |x.text|] + x.text + (ItemBytes(tail) + rest)
      && ItemsSay(ssrc, items) == [Described(ssrc, x)] + ItemsSay(ssrc, tail)
  {
    var x, tail := items[0], items[1..];
    assert x in items && forall y :: y in tail ==> y in items;
    assert ItemBytes(items) == [x.typ, |x.text|] + x.text + ItemBytes(tail);
    Associates([x.typ, |x.text|] + x.text, ItemBytes(tail), rest);
  }

  lemma {:induction false} HearItem(x: Item, ssrc: Word32, more: seq<byte>, s: Hearing)
    requires x.Fits()
    ensures HearItems([x.typ, |x.text|] + x.text + more, ssrc, s) == HearItems(more, ssrc, s.Hear(Described(ssrc, x)))
  {
    var b := [x.typ, |x.text|] + x.text + more;
    var next := 2 + |x.text|;
    assert b[next..] == more && b[2..next] == x.text;
  }

  lemma {:induction false} HearSourceBytes(sources: seq<Word32>, n: nat, rest: seq<byte>, s: Hearing)
    requires n <= |sources|
    ensures HearLeaving(SourceBytes(sources) + rest, n, s) == s.HearAll(LeavingSays(sources[..n]))
    decreases n
  {
    if n == 0 {
      assert LeavingSays(sources[..0]) == [];
    } else {
      var x, tail := sources[0], sources[1..];
      var b := SourceBytes(sources) + rest;
      assert b[4..] == SourceBytes(tail) + rest && b[..4] == Encode32(x);
      Decode32Undoes(x);
      var said := LeavingSays(sources[..n]);
      assert said[0] == Left(x) && said[1..] == LeavingSays(tail[..n - 1]);
      HearSourceBytes(tail, n - 1, rest, s.Hear(said[0]));
    }
  }

  lemma {:induction false} HearAllAppends(s: Hearing, xs: seq<Said>, ys: seq<Said>)
    ensures s.HearAll(xs + ys) == s.HearAll(xs).HearAll(ys)
    decreases |xs|
  {
    if xs == [] {
      assert xs + ys == ys;
    } else {
      assert (xs + ys)[1..] == xs[1..] + ys;
      HearAllAppends(s.Hear(xs[0]), xs[1..], ys);
    }
  }

  /** Whether a source is known once the first i of a list have been heard: who spoke last
      of it decides. */
  predicate IsKnown(y: Word32, sources: set<Word32>, xs: seq<Said>, i: nat)
    requires i <= |xs|
  {
    if i == 0 then y in sources else KnownNext(y, xs[i - 1], IsKnown(y, sources, xs, i - 1))
  }

  predicate KnownNext(y: Word32, x: Said, known: bool) {
    match x
    case Sent(z, _) => z == y || known
    case Reported(_, _) => known
    case Described(z, _) => z == y || known
    case Left(z) => z != y && known
  }

  /** Somebody leaves who is not known when it is said. */
  predicate LeavesUnknown(sources: set<Word32>, xs: seq<Said>) {
    exists i :: 0 <= i < |xs| && IsLeaver(sources, xs, i)
  }

  predicate IsLeaver(sources: set<Word32>, xs: seq<Said>, i: nat)
    requires i < |xs|
  {
    xs[i].Left? && !IsKnown(xs[i].ssrc, sources, xs, i)
  }

  lemma {:induction false} KnownPrefix(y: Word32, sources: set<Word32>, xs: seq<Said>, n: nat, i: nat)
    requires i <= n <= |xs|
    ensures IsKnown(y, sources, xs[..n], i) == IsKnown(y, sources, xs, i)
  {
    if i > 0 {
      KnownPrefix(y, sources, xs, n, i - 1);
    }
  }

  /** Hearing is lost exactly when an unknown source leaves; otherwise the sources known
      afterwards are those that are. */
  lemma {:induction false} LostIsExact(s: Hearing, xs: seq<Said>)
    requires s.Hearing?
    ensures s.HearAll(xs) == Lost <==> LeavesUnknown(s.sources, xs)
    ensures s.HearAll(xs) != Lost ==> forall y :: y in s.HearAll(xs).sources <==> IsKnown(y, s.sources, xs, |xs|)
    decreases |xs|
  {
    hide Hearing.HearAll, IsKnown;
    if xs == [] {
      HearNothing(s, xs);
    } else {
      var n := |xs| - 1;
      var before, x := xs[..n], xs[n];
      assert xs == before + [x];
      LostIsExact(s, before);
      HearLast(s, before, x);
      SameLeavers(s.sources, xs, n);
      forall y ensures IsKnown(y, s.sources, before, n) == IsKnown(y, s.sources, xs, n) {
        KnownPrefix(y, s.sources, xs, n, n);
      }
      forall y ensures IsKnown(y, s.sources, xs, n + 1) == KnownNext(y, x, IsKnown(y, s.sources, xs, n)) {
        KnownStep(y, s.sources, xs, n);
      }
    }
  }

  lemma {:induction false} KnownStep(y: Word32, sources: set<Word32>, xs: seq<Said>, i: nat)
    requires i < |xs|
    ensures IsKnown(y, sources, xs, i + 1) == KnownNext(y, xs[i], IsKnown(y, sources, xs, i))
  {}

  lemma {:induction false} HearNothing(s: Hearing, xs: seq<Said>)
    requires s.Hearing? && xs == []
    ensures s.HearAll(xs) == s && forall y :: y in s.sources <==> IsKnown(y, s.sources, xs, 0)
  {}

  lemma {:induction false} SameLeavers(sources: set<Word32>, xs: seq<Said>, n: nat)
    requires n + 1 == |xs|
    ensures LeavesUnknown(sources, xs) <==> LeavesUnknown(sources, xs[..n]) || IsLeaver(sources, xs, n)
  {
    hide IsKnown;
    forall i | 0 <= i < n ensures IsLeaver(sources, xs[..n], i) == IsLeaver(sources, xs, i) {
      if xs[i].Left? {
        KnownPrefix(xs[i].ssrc, sources, xs, n, i);
      }
    }
    if LeavesUnknown(sources, xs[..n]) {
      var i :| 0 <= i < n && IsLeaver(sources, xs[..n], i);
      assert IsLeaver(sources, xs, i);
    }
    if LeavesUnknown(sources, xs) {
      var i :| 0 <= i < |xs| && IsLeaver(sources, xs, i);
      assert i < n ==> IsLeaver(sources, xs[..n], i);
    }
  }

  /** A block that was built means, to the receiver, what was put into it. */
  lemma {:induction false} BlockIsHeard(b: Block, rest: seq<byte>, s: Hearing)
    requires b.Fits()
    ensures HearBlock(b.Bytes() + rest, s) == s.HearAll(Meaning(b))
  {
    hide Block.Bytes, Block.Content, HearReport, HearChunks, HearLeaving, Hearing.HearAll, Zeros, Padding,
         ReportsSay, ItemsSay, LeavingSays;
    var all := b.Bytes() + rest;
    HeadShows(b, rest);
    var more := Zeros(Padding(|b.Content()|)) + rest;
    match b
    case Report(sender, reports) => ReportIsHeard(sender, reports, all, more, s);
    case Sdes(ssrc, items) => SdesIsHeard(ssrc, items, more, s);
    case Bye(sources, reason) => ByeIsHeard(sources, reason, more, s);
  }

  lemma {:induction false} HeadShows(b: Block, rest: seq<byte>)
    requires b.Fits()
    ensures var all := b.Bytes() + rest;
      && all[4..] == b.Content() + (Zeros(Padding(|b.Content()|)) + rest)
      && all[0] % 32 == b.Count() % 32 && all[1] == b.Type()
  {
    hide Block.Content, Block.Count, Block.Type, Block.Fits, Padding, Header, Zeros;
    var content, pad := b.Content(), Zeros(Padding(|b.Content()|));
    var head := Header(b.Count(), b.Type(), |content| + |pad|);
    HeaderShows(b.Count(), b.Type(), |content| + |pad|);
    assert b.Bytes() == head + content + pad;
    hide Block.Bytes;
    BehindHead(head, content, pad, rest);
  }

  lemma {:induction false} HeaderShows(count: nat, typ: byte, payload: nat)
    ensures var head := Header(count, typ, payload); head[0] % 32 == count % 32 && head[1] == typ
  {
    hide Encode16;
    assert (RTP_VERSION * 64 + count % 32) % 32 == count % 32;
  }

  lemma {:induction false} BehindHead(head: seq<byte>, content: seq<byte>, pad: seq<byte>, rest: seq<byte>)
    requires |head| == 4
    ensures var all := head + content + pad + rest;
      all[4..] == content + (pad + rest) && all[0] == head[0] && all[1] == head[1]
  {}

  lemma {:induction false} SdesIsHeard(ssrc: Word32, items: seq<Item>, more: seq<byte>, s: Hearing)
    requires AllFit(items)
    ensures HearChunks(Sdes(ssrc, items).Content() + more, 1, s) == s.HearAll(ItemsSay(ssrc, items))
  {
    hide ItemBytes, HearItems, Encode32, Decode32;
    var b, tail := Sdes(ssrc, items).Content() + more, ItemBytes(items) + ([0, 0] + more);
    assert b == Encode32(ssrc) + tail;
    assert b[..4] == Encode32(ssrc) && b[4..] == tail;
    Decode32Undoes(ssrc);
    HearItemBytes(items, ssrc, [0, 0] + more, s);
    assert HearChunks(([0, 0] + more), 0, s.HearAll(ItemsSay(ssrc, items))) == s.HearAll(ItemsSay(ssrc, items));
  }

  lemma {:induction false} ByeIsHeard(sources: seq<Word32>, reason: Option<seq<byte>>, more: seq<byte>, s: Hearing)
    requires Bye(sources, reason).Fits()
    ensures var n := |sources| % 32;
      HearLeaving(Bye(sources, reason).Content() + more, n, s) == s.HearAll(LeavingSays(sources[..n]))
  {
    hide SourceBytes, HearLeaving;
    var text := if reason.Some? then [|reason.value|] + reason.value else [];
    assert Bye(sources, reason).Content() + more == SourceBytes(sources) + (text + more);
    HearSourceBytes(sources, |sources| % 32, text + more, s);
  }

  lemma {:induction false} ReportIsHeard(sender: Option<SenderInfo>, reports: seq<ReportBlock>, all: seq<byte>,
                                         more: seq<byte>, s: Hearing)
    requires var b := Report(sender, reports);
      |all| >= 4 && all[4..] == b.Content() + more && all[0] % 32 == |reports| % 32 && all[1] == b.Type()
    ensures HearReport(all, s) == s.HearAll(Meaning(Report(sender, reports)))
  {
    hide HearReports, ReportBytes, SenderInfo.Bytes, Encode32, Decode32, ReportsSay, MiddleBits, Hearing.HearAll;
    var n := |reports| % 32;
    var said := ReportsSay(reports[..n]);
    var rest := ReportBytes(reports) + more;
    if sender.Some? {
      var info := sender.value.Bytes();
      Associates(info, ReportBytes(reports), more);
      BehindHeader(all, info, rest);
      SenderShows(sender.value);
      var first := Sent(sender.value.ssrc, MiddleBits(sender.value.ntpTimeSec, sender.value.ntpTimeFrac));
      HearReportBytes(reports, n, more, s.Hear(first));
      HearFirst(s, first, said);
    } else {
      Associates(Encode32(0), ReportBytes(reports), more);
      assert all[8..] == all[4..][4..] == rest;
      HearReportBytes(reports, n, more, s);
      assert [] + said == said;
    }
  }

  lemma {:induction false} BehindHeader(all: seq<byte>, info: seq<byte>, rest: seq<byte>)
    requires |all| >= 4 && |info| == 24 && all[4..] == info + rest
    ensures |all| >= 28 && all[28..] == rest
    ensures all[4..8] == info[..4] && all[8..12] == info[4..8] && all[12..16] == info[8..12]
  {
    assert all[28..] == all[4..][24..];
    assert all[4..8] == all[4..][..4] && all[8..12] == all[4..][4..8] && all[12..16] == all[4..][8..12];
  }

  lemma {:induction false} HearFirst(s: Hearing, first: Said, said: seq<Said>)
    ensures s.HearAll([first] + said) == s.Hear(first).HearAll(said)
  {
    assert ([first] + said)[1..] == said;
  }

  lemma {:induction false} SenderShows(sender: SenderInfo)
    ensures var b := sender.Bytes();
      && Decode32(b[..4]) == sender.ssrc && Decode32(b[4..8]) == sender.ntpTimeSec
      && Decode32(b[8..12]) == sender.ntpTimeFrac
  {
    hide Encode32, Decode32;
    var b := sender.Bytes();
    assert b[..4] == Encode32(sender.ssrc) && b[4..8] == Encode32(sender.ntpTimeSec);
    assert b[8..12] == Encode32(sender.ntpTimeFrac);
    Decode32Undoes(sender.ssrc);
    Decode32Undoes(sender.ntpTimeSec);
    Decode32Undoes(sender.ntpTimeFrac);
  }

  function MeaningOf(blocks: seq<Block>): seq<Said> {
    if blocks == [] then [] else Meaning(blocks[0]) + MeaningOf(blocks[1..])
  }

  lemma {:induction false} HearPartsStep(p: seq<byte>, ps: seq<seq<byte>>, rest: seq<byte>, s: Hearing)
    requires |p| >= 4
    ensures var more := Concat(ps) + rest;
      HearParts(Concat([p] + ps) + rest, [p] + ps, s) == HearParts(more, ps, HearBlock(p + more, s))
  {
    hide HearBlock;
    assert ([p] + ps)[1..] == ps;
    assert Concat([p] + ps) + rest == p + (Concat(ps) + rest);
    assert (p + (Concat(ps) + rest))[|p|..] == Concat(ps) + rest;
  }

  lemma {:induction false} PartIsHeard(b: Block, ps: seq<seq<byte>>, rest: seq<byte>, s: Hearing)
    requires b.Fits()
    ensures HearParts(Concat([b.Bytes()] + ps) + rest, [b.Bytes()] + ps, s)
         == HearParts(Concat(ps) + rest, ps, s.HearAll(Meaning(b)))
  {
    hide Block.Bytes, Block.Fits, Meaning, HearBlock, HearParts, Concat;
    var bytes := b.Bytes();
    assert |bytes| >= 4;
    BlockIsHeard(b, Concat(ps) + rest, s);
    HearPartsStep(bytes, ps, rest, s);
  }

  lemma {:induction false} PartsAreHeard(blocks: seq<Block>, rest: seq<byte>, s: Hearing)
    requires EachFits(blocks)
    ensures HearParts(Concat(Parts(blocks)) + rest, Parts(blocks), s) == s.HearAll(MeaningOf(blocks))
    decreases |blocks|
  {
    if blocks == [] {
      NothingIsHeard(rest, s);
    } else {
      PartsSplit(blocks);
      var b, tail := blocks[0], blocks[1..];
      assert MeaningOf(blocks) == Meaning(b) + MeaningOf(tail);
      hide *;
      PartIsHeard(b, Parts(tail), rest, s);
      PartsAreHeard(tail, rest, s.HearAll(Meaning(b)));
      HearAllAppends(s, Meaning(b), MeaningOf(tail));
    }
  }

  lemma {:induction false} PartsSplit(blocks: seq<Block>)
    requires blocks != [] && EachFits(blocks)
    ensures blocks[0].Fits() && EachFits(blocks[1..])
    ensures Parts(blocks) == [blocks[0].Bytes()] + Parts(blocks[1..])
  {
    hide Block.Bytes, Block.Fits, Parts;
    var ps, qs := Parts(blocks), [blocks[0].Bytes()] + Parts(blocks[1..]);
    assert |ps| == |qs|;
    forall i | 0 <= i < |ps| ensures ps[i] == qs[i] {
      if i > 0 {
        assert blocks[i] == blocks[1..][i - 1];
      }
    }
  }

  lemma {:induction false} NothingIsHeard(rest: seq<byte>, s: Hearing)
    ensures Parts([]) == [] && HearParts(Concat([]) + rest, [], s) == s.HearAll([])
  {}

  lemma {:induction false} PartsAreBlocks(blocks: seq<Block>)
    requires AllSized(blocks)
    ensures forall p :: p in Parts(blocks) ==> IsBlock(p)
  {
    var ps := Parts(blocks);
    forall p | p in ps ensures IsBlock(p) {
      var i :| 0 <= i < |ps| && ps[i] == p;
      BytesAreBlock(blocks[i]);
    }
  }

  /** Whatever lies behind it in the buffer, a compound packet is heard as what its
      blocks mean, in order. */
  lemma {:induction false} CompoundIsHeard(blocks: seq<Block>, rest: seq<byte>, s: Hearing)
    requires Compound(blocks)
    ensures var b := Concat(Parts(blocks)); HearAllBlocks(b + rest, |b|, s) == s.HearAll(MeaningOf(blocks))
  {
    PartsAreBlocks(blocks);
    PartsAreHeard(blocks, rest, s);
    WalkFollowsPartition(Concat(Parts(blocks)) + rest, Parts(blocks), s);
  }

  // ----- What a session sends -----

  predicate IsAbout(x: Said, ssrc: Word32) {
    match x
    case Sent(y, _) => y == ssrc
    case Reported(_, _) => true
    case Described(y, _) => y == ssrc
    case Left(_) => false
  }

  lemma {:induction false} HearAbout(s: Hearing, ssrc: Word32, xs: seq<Said>)
    requires s.Hearing? && ssrc in s.sources && forall i :: 0 <= i < |xs| ==> IsAbout(xs[i], ssrc)
    ensures s.HearAll(xs) == Hearing(s.sources, s.said + xs)
    decreases |xs|
  {
    if xs != [] {
      assert s.sources + {ssrc} == s.sources;
      HearAbout(s.Hear(xs[0]), ssrc, xs[1..]);
      assert s.said + [xs[0]] + xs[1..] == s.said + xs;
    }
  }

  lemma {:induction false} HearSender(sender: SenderInfo, infos: seq<TranInfo>, sdes: Block, s: Hearing)
    requires s.Hearing? && sdes.Sdes? && sdes.source == sender.ssrc
    ensures var xs := Meaning(Report(Some(sender), ReportsOf(infos))) + Meaning(sdes);
      s.HearAll(xs) == Hearing(s.sources + {sender.ssrc}, s.said + xs)
  {
    hide ReportsOf, MiddleBits, Meaning, IsAbout;
    var first := Sent(sender.ssrc, MiddleBits(sender.ntpTimeSec, sender.ntpTimeFrac));
    var rest := SenderSays(sender, ReportsOf(infos), sdes);
    HearSince(s, first, rest, sender.ssrc);
  }

  lemma {:induction false} HearSince(s: Hearing, first: Said, rest: seq<Said>, ssrc: Word32)
    requires s.Hearing? && first.Sent? && first.ssrc == ssrc && forall i :: 0 <= i < |rest| ==> IsAbout(rest[i], ssrc)
    ensures s.HearAll([first] + rest) == Hearing(s.sources + {ssrc}, s.said + ([first] + rest))
  {
    hide Hearing.HearAll, IsAbout;
    HearFirst(s, first, rest);
    HearAbout(s.Hear(first), ssrc, rest);
    assert s.said + [first] + rest == s.said + ([first] + rest);
  }

  /** A report says first who sent it; all that it and a description say is about the sender. */
  lemma {:induction false} SenderSays(sender: SenderInfo, reports: seq<ReportBlock>, sdes: Block)
    returns (rest: seq<Said>)
    requires sdes.Sdes? && sdes.source == sender.ssrc
    ensures Meaning(Report(Some(sender), reports)) + Meaning(sdes)
         == [Sent(sender.ssrc, MiddleBits(sender.ntpTimeSec, sender.ntpTimeFrac))] + rest
    ensures forall i :: 0 <= i < |rest| ==> IsAbout(rest[i], sender.ssrc)
  {
    hide MiddleBits;
    rest := ReportsSay(reports[..|reports| % 32]) + ItemsSay(sender.ssrc, sdes.items);
  }

  lemma {:induction false} MeaningOfFew(a: Block, b: Block, c: Block)
    ensures MeaningOf([a, b]) == Meaning(a) + Meaning(b)
    ensures MeaningOf([a, b, c]) == Meaning(a) + Meaning(b) + Meaning(c)
  {
    hide Meaning;
    assert MeaningOf([]) == [];
    assert [c][1..] == [] && [b, c][1..] == [c] && [a, b, c][1..] == [b, c] && [a, b][1..] == [b] && [b][1..] == [];
    assert MeaningOf([b, c]) == Meaning(b) + MeaningOf([c]) && MeaningOf([c]) == Meaning(c) + [];
  }

  lemma {:induction false} HearLast(s: Hearing, xs: seq<Said>, last: Said)
    ensures s.HearAll(xs + [last]) == s.HearAll(xs).Hear(last)
  {
    HearAllAppends(s, xs, [last]);
    assert [last][1..] == [] && s.HearAll(xs).Hear(last).HearAll([]) == s.HearAll(xs).Hear(last);
  }

  lemma {:induction false} RegularMeans(sender: SenderInfo, infos: seq<TranInfo>, info: SdesInfo, s: Hearing)
    requires s.Hearing?
    ensures var said := MeaningOf(Regular(Some(sender), infos, info));
      s.HearAll(said) == Hearing(s.sources + {sender.ssrc}, s.said + said)
  {
    var report, sdes := Report(Some(sender), ReportsOf(infos)), Sdes(sender.ssrc, info.Items(NonEmpty(info, 7)));
    hide Meaning, MeaningOf, SdesInfo.Items, NonEmpty, ReportsOf;
    MeaningOfFew(report, sdes, sdes);
    HearSender(sender, infos, sdes, s);
  }

  lemma {:induction false} FarewellMeans(sender: SenderInfo, infos: seq<TranInfo>, info: SdesInfo, s: Hearing)
    requires s.Hearing?
    ensures var said := MeaningOf(Farewell(Some(sender), infos, info));
      s.HearAll(said) == Hearing(s.sources - {sender.ssrc}, s.said + said)
  {
    var ssrc := sender.ssrc;
    var report, sdes := Report(Some(sender), ReportsOf(infos)), Sdes(ssrc, info.Items([SDES_CNAME]));
    var bye, last := Bye([ssrc], Some(PROGRAM_ENDED)), Left(ssrc);
    assert Meaning(bye) == [last] by { assert LeavingSays([ssrc][..1]) == [last]; }
    hide Meaning, MeaningOf, SdesInfo.Items, ReportsOf, Hearing.HearAll;
    MeaningOfFew(report, sdes, bye);
    HearSender(sender, infos, sdes, s);
    var ys := Meaning(report) + Meaning(sdes);
    HearLast(s, ys, last);
    assert s.sources + {ssrc} - {ssrc} == s.sources - {ssrc};
    assert s.said + ys + [last] == s.said + (ys + [last]);
  }

  /** What fits the arena is a compound packet. */
  lemma {:induction false} ShortIsCompound(blocks: seq<Block>)
    requires EachFits(blocks) && blocks != [] && blocks[0].Report? && |Concat(Parts(blocks))| <= RTCP_PACKETSIZE
    ensures Compound(blocks)
  {
    hide Block.Bytes, Block.Fits, Concat;
    forall i | 0 <= i < |blocks| ensures |blocks[i].Bytes()| <= 0x4_0000 {
      PartIsShorter(Parts(blocks), i);
    }
  }

  lemma {:induction false} PartIsShorter(ps: seq<seq<byte>>, i: nat)
    requires i < |ps|
    ensures |ps[i]| <= |Concat(ps)|
    decreases |ps|
  {
    if i > 0 {
      PartIsShorter(ps[1..], i - 1);
    }
  }

  /** A sender's regular report makes it known; nothing is lost. */
  lemma {:induction false} RegularIsHeard(sender: SenderInfo, infos: seq<TranInfo>, info: SdesInfo, rest: seq<byte>,
                                          s: Hearing)
    requires s.Hearing? && |Concat(Parts(Regular(Some(sender), infos, info)))| <= RTCP_PACKETSIZE
    ensures var blocks := Regular(Some(sender), infos, info);
      var b := Concat(Parts(blocks));
      HearAllBlocks(b + rest, |b|, s) == Hearing(s.sources + {sender.ssrc}, s.said + MeaningOf(blocks))
  {
    ShortIsCompound(Regular(Some(sender), infos, info));
    hide *;
    CompoundIsHeard(Regular(Some(sender), infos, info), rest, s);
    RegularMeans(sender, infos, info, s);
  }

  /** A sender's last report makes it unknown; nothing is lost, though the sender may
      never have been heard before. */
  lemma {:induction false} FarewellIsHeard(sender: SenderInfo, infos: seq<TranInfo>, info: SdesInfo, rest: seq<byte>,
                                           s: Hearing)
    requires s.Hearing? && |Concat(Parts(Farewell(Some(sender), infos, info)))| <= RTCP_PACKETSIZE
    ensures var blocks := Farewell(Some(sender), infos, info);
      var b := Concat(Parts(blocks));
      HearAllBlocks(b + rest, |b|, s) == Hearing(s.sources - {sender.ssrc}, s.said + MeaningOf(blocks))
  {
    ShortIsCompound(Farewell(Some(sender), infos, info));
    hide *;
    CompoundIsHeard(Farewell(Some(sender), infos, info), rest, s);
    FarewellMeans(sender, infos, info, s);
  }

  // ----- The walkers of the code -----

  /** The packet, which the walkers only read, from an offset on. */
  function From(a: seq<byte>, at: nat): (s: seq<byte>)
    requires at <= |a|
    ensures |s| == |a| - at
    ensures s != [] ==> s[0] == a[at]
    ensures |s| > 1 ==> s[1] == a[at + 1]
  {
    a[at..]
  }

  lemma {:induction false} Behind(a: seq<byte>, at: nat, k: nat)
    requires at + k <= |a|
    ensures From(a, at)[k..] == From(a, at + k)
  {}

  lemma {:induction false} Within(a: seq<byte>, at: nat, lo: nat, hi: nat)
    requires lo <= hi && at + hi <= |a|
    ensures From(a, at)[lo..hi] == a[at + lo..at + hi]
  {}

  /** The octets that the header at an offset claims for its block. */
  function SizeAt(packet: seq<byte>, begin: nat): (size: nat)
    requires begin + 4 <= |packet|
    ensures size >= 4
  {
    var words: int := Decode16(packet[begin + 2..begin + 4]);
    (words + 1) * 4
  }

  /** From an offset on, headers of the right version lead exactly to the end. */
  predicate Walkable(packet: seq<byte>, begin: nat, usage: nat)
    requires usage <= |packet|
    decreases usage - begin
  {
    begin == usage ||
    (begin + 4 <= usage && packet[begin] / 64 == RTP_VERSION && Walkable(packet, begin + SizeAt(packet, begin), usage))
  }

  lemma {:induction false} WalkableEnds(packet: seq<byte>, begin: nat, usage: nat)
    requires usage <= |packet| && Walkable(packet, begin, usage)
    ensures begin <= usage
  {}

  /** The first block of a type, from an offset on. */
  function FindFrom(packet: seq<byte>, begin: nat, usage: nat, typ: byte): int
    requires usage <= |packet| && Walkable(packet, begin, usage)
    decreases usage - begin
  {
    if begin == usage then -1
    else if packet[begin + 1] == typ then begin
    else FindFrom(packet, begin + SizeAt(packet, begin), usage, typ)
  }

  lemma {:induction false} SizeFromHere(packet: seq<byte>, begin: nat, usage: nat)
    requires begin + 4 <= usage <= |packet|
    ensures SizeAt(packet, begin) == BlockSize(packet[begin..]) == BlockSize(packet[begin..usage])
  {
    Within(packet, begin, 2, 4);
    var b := packet[begin..usage];
    assert b[2] == packet[begin + 2] && b[3] == packet[begin + 3];
    assert b[2..4] == packet[begin + 2..begin + 4];
  }

  lemma {:induction false} WalkableIsPartition(packet: seq<byte>, begin: nat, usage: nat)
    requires begin <= usage <= |packet|
    ensures Walkable(packet, begin, usage) <==> Partition(packet[begin..usage]).Some?
    decreases usage - begin
  {
    var b := packet[begin..usage];
    if begin + 4 <= usage {
      SizeFromHere(packet, begin, usage);
      var next := begin + SizeAt(packet, begin);
      if next <= usage {
        assert b[next - begin..] == packet[next..usage];
        WalkableIsPartition(packet, next, usage);
      } else if Walkable(packet, next, usage) {
        WalkableEnds(packet, next, usage);
      }
    }
  }

  /** The offset of the first part of a type. */
  function FirstOfType(parts: seq<seq<byte>>, typ: byte): int {
    if parts == [] then -1
    else if IsOfType(parts[0], typ) then 0
    else
      var r := FirstOfType(parts[1..], typ);
      if r < 0 then -1 else |parts[0]| + r
  }

  predicate IsOfType(p: seq<byte>, typ: byte) { |p| >= 4 && p[1] == typ }

  predicate HasType(parts: seq<seq<byte>>, typ: byte) { exists p :: p in parts && IsOfType(p, typ) }

  lemma {:induction false} FirstOfTypeIsFirst(parts: seq<seq<byte>>, typ: byte) returns (k: nat)
    ensures k <= |parts| && forall i :: 0 <= i < k ==> !IsOfType(parts[i], typ)
    ensures k == |parts| ==> FirstOfType(parts, typ) == -1
    ensures k < |parts| ==> IsOfType(parts[k], typ) && FirstOfType(parts, typ) == |Concat(parts[..k])|
    decreases |parts|
  {
    k := 0;
    if parts != [] {
      var p, tail := parts[0], parts[1..];
      if !IsOfType(p, typ) {
        var j := FirstOfTypeIsFirst(tail, typ);
        k := j + 1;
        assert parts[..k][0] == p && parts[..k][1..] == tail[..j];
        assert forall i :: 0 < i < k ==> parts[i] == tail[i - 1];
      }
    }
  }

  lemma {:induction false} FirstIsAny(parts: seq<seq<byte>>, typ: byte)
    ensures FirstOfType(parts, typ) >= 0 <==> HasType(parts, typ)
  {
    var k := FirstOfTypeIsFirst(parts, typ);
    if k < |parts| {
      assert parts[k] in parts;
    }
  }

  /** Searching from header to header finds the first block of the partition. */
  lemma {:induction false} FindFromFinds(packet: seq<byte>, begin: nat, usage: nat, typ: byte)
    requires begin <= usage <= |packet| && Partition(packet[begin..usage]).Some?
    ensures Walkable(packet, begin, usage)
    ensures var r := FirstOfType(Partition(packet[begin..usage]).value, typ);
      FindFrom(packet, begin, usage, typ) == if r < 0 then -1 else begin + r
    decreases usage - begin
  {
    hide Partition, SizeAt, Walkable, FindFrom;
    WalkableIsPartition(packet, begin, usage);
    if begin < usage {
      PartitionNext(packet, begin, usage);
      FindFromFinds(packet, begin + SizeAt(packet, begin), usage, typ);
      FindNext(packet, begin, usage, typ);
    } else {
      assert packet[begin..usage] == [];
      PartitionOfNone();
      FindNone(packet, usage, typ);
    }
  }

  lemma {:induction false} FindNext(packet: seq<byte>, begin: nat, usage: nat, typ: byte)
    requires begin < usage <= |packet| && Walkable(packet, begin, usage)
    requires Walkable(packet, begin + SizeAt(packet, begin), usage)
    ensures FindFrom(packet, begin, usage, typ) ==
      if packet[begin + 1] == typ then begin else FindFrom(packet, begin + SizeAt(packet, begin), usage, typ)
  {
    hide SizeAt;
  }

  lemma {:induction false} FindNone(packet: seq<byte>, usage: nat, typ: byte)
    requires usage <= |packet| && Walkable(packet, usage, usage)
    ensures FindFrom(packet, usage, usage, typ) == -1
  {}

  lemma {:induction false} PartitionOfNone()
    ensures Partition([]) == Some([])
  {}

  lemma {:induction false} PartitionNext(packet: seq<byte>, begin: nat, usage: nat)
    requires begin < usage <= |packet| && Partition(packet[begin..usage]).Some?
    ensures var parts := Partition(packet[begin..usage]).value;
      && parts != [] && begin + 4 <= begin + |parts[0]| <= usage
      && |parts[0]| == SizeAt(packet, begin) && parts[0][1] == packet[begin + 1]
      && Partition(packet[begin + SizeAt(packet, begin)..usage]) == Some(parts[1..])
  {
    var b := packet[begin..usage];
    var parts := Partition(b).value;
    PartitionHead(b, parts[0], parts[1..]);
    SizeFromHere(packet, begin, usage);
    hide Partition, SizeAt, BlockSize;
    assert b[SizeAt(packet, begin)..] == packet[begin + SizeAt(packet, begin)..usage];
  }

  lemma {:induction false} FindsType(packet: seq<byte>, usage: nat, typ: byte)
    requires usage <= |packet| && Partition(packet[..usage]).Some?
    ensures Walkable(packet, 0, usage)
    ensures FindFrom(packet, 0, usage, typ) == FirstOfType(Partition(packet[..usage]).value, typ)
    ensures FindFrom(packet, 0, usage, typ) >= 0 <==> HasType(Partition(packet[..usage]).value, typ)
  {
    hide *;
    assert packet[0..usage] == packet[..usage];
    FindFromFinds(packet, 0, usage, typ);
    FirstIsAny(Partition(packet[..usage]).value, typ);
    FirstIsMinusOne(Partition(packet[..usage]).value, typ);
  }

  lemma {:induction false} FirstIsMinusOne(parts: seq<seq<byte>>, typ: byte)
    ensures FirstOfType(parts, typ) >= -1
  {}

  lemma {:induction false} WalkNext(packet: seq<byte>, begin: nat, usage: nat, typ: byte)
    requires usage <= |packet| && Walkable(packet, begin, usage) && begin < usage
    ensures begin + 4 <= usage
    ensures var next := begin + SizeAt(packet, begin);
      && next <= usage && Walkable(packet, next, usage)
      && FindFrom(packet, begin, usage, typ)
         == if packet[begin + 1] == typ then begin else FindFrom(packet, next, usage, typ)
  {
    hide SizeAt;
    WalkableEnds(packet, begin + SizeAt(packet, begin), usage);
  }

  lemma {:induction false} WalkEnd(packet: seq<byte>, usage: nat, typ: byte)
    requires usage <= |packet|
    ensures Walkable(packet, usage, usage) && FindFrom(packet, usage, usage, typ) == -1
  {}

  class RtcpReceiver {
    /** The keys of tranInfoList. */
    var sources: set<Word32>
    ghost var said: seq<Said>

    ghost function State(): (s: Hearing)
      reads this
    {
      Hearing(sources, said)
    }

    constructor ()
      ensures State() == Hearing({}, [])
    {
      sources, said := {}, [];
    }

    /** findTranInfo adds a transmitter that it does not know. */
    method FindTranInfo(ssrc: Word32, ghost x: Said)
      requires (x.Sent? || x.Described?) && x.ssrc == ssrc
      modifies this
      ensures State() == old(State()).Hear(x)
    {
      if ssrc !in sources {
        sources := sources + {ssrc};
      }
      assert old(sources) + {ssrc} == sources;
      said := said + [x];
    }

    /** removeTranInfo gives up on a transmitter that is not known. */
    method RemoveTranInfo(ssrc: Word32) returns (ok: bool)
      modifies this
      ensures ok ==> State() == old(State()).Hear(Left(ssrc))
      ensures !ok ==> old(State()).Hear(Left(ssrc)) == Lost
    {
      if ssrc !in sources {
        return false;
      }
      sources := sources - {ssrc};
      said := said + [Left(ssrc)];
      return true;
    }

    /** The header check of a packet received. */
    method IsValid(packet: seq<byte>, usage: nat) returns (valid: bool)
      requires |packet| == RTCP_PACKETSIZE && 0 < usage <= RTCP_PACKETSIZE
      ensures valid <==> IsCompound(packet[..usage])
    {
      hide Partition, SizeAt;
      ghost var b := packet[..usage];
      if packet[1] != TYPE_SR && packet[1] != TYPE_RR {
        return false;
      }
      if packet[0] / 32 % 2 != 0 {
        return false;
      }
      assert packet[0..usage] == b;
      WalkableIsPartition(packet, 0, usage);
      var begin := 0;
      while begin + 4 <= usage && packet[begin] / 64 == RTP_VERSION
        invariant 0 <= begin && (Walkable(packet, 0, usage) <==> Walkable(packet, begin, usage))
        decreases usage - begin
      {
        begin := begin + SizeAt(packet, begin);
      }
      if begin != usage {
        return false;
      }
      return true;
    }

    method ReadReports(packet: seq<byte>, middle: nat, count: nat) returns (ok: bool)
      requires middle <= |packet|
      modifies this
      ensures ok ==> HearReports(From(packet, middle), count, old(State())) == State()
      ensures !ok ==> HearReports(From(packet, middle), count, old(State())) == Lost
    {
      hide From;
      var block, i := middle, count;
      while i > 0
        invariant middle <= block <= |packet| && 0 <= i
        invariant HearReports(From(packet, block), i, State()) == HearReports(From(packet, middle), count, old(State()))
      {
        if block + 24 > |packet| {
          return false;
        }
        Behind(packet, block, 24);
        Within(packet, block, 16, 20);
        Within(packet, block, 20, 24);
        var srt, ld := Decode32(packet[block + 16..block + 20]), Decode32(packet[block + 20..block + 24]);
        said := said + [Reported(srt, ld)];
        block := block + 24;
        i := i - 1;
      }
      return true;
    }

    method ReadSR(packet: seq<byte>, head: nat) returns (ok: bool)
      requires head + 4 <= |packet|
      modifies this
      ensures ok ==> HearReport(From(packet, head), old(State())) == State()
      ensures !ok ==> HearReport(From(packet, head), old(State())) == Lost
    {
      if packet[head + 1] == TYPE_SR {
        if head + 28 > |packet| {
          return false;
        }
        Within(packet, head, 4, 8);
        Within(packet, head, 8, 12);
        Within(packet, head, 12, 16);
        Behind(packet, head, 28);
        var ssrc := Decode32(packet[head + 4..head + 8]);
        var nts, ntf := Decode32(packet[head + 8..head + 12]), Decode32(packet[head + 12..head + 16]);
        FindTranInfo(ssrc, Sent(ssrc, MiddleBits(nts, ntf)));
        ok := ReadReports(packet, head + 28, packet[head] % 32);
      } else {
        if head + 8 > |packet| {
          return false;
        }
        Behind(packet, head, 8);
        ok := ReadReports(packet, head + 8, packet[head] % 32);
      }
    }

    /** One chunk: the items up to the end of their list. */
    method ReadItems(packet: seq<byte>, begin: nat, ssrc: Word32) returns (ok: bool, item: nat)
      requires begin <= |packet|
      modifies this
      ensures ok ==>
        && item <= |packet|
        && HearItems(From(packet, begin), ssrc, old(State())) == (State(), From(packet, item))
      ensures !ok ==> HearItems(From(packet, begin), ssrc, old(State())).0 == Lost
    {
      hide From;
      item := begin;
      while item < |packet| && packet[item] != 0
        invariant begin <= item <= |packet|
        invariant HearItems(From(packet, item), ssrc, State()) == HearItems(From(packet, begin), ssrc, old(State()))
      {
        if item + 2 > |packet| {
          return false, item;
        }
        var length: int := packet[item + 1];
        var nextitem := item + 2 + length;
        if nextitem > |packet| {
          return false, item;
        }
        Behind(packet, item, 2 + length);
        Within(packet, item, 2, 2 + length);
        FindTranInfo(ssrc, Described(ssrc, Item(packet[item], packet[item + 2..nextitem])));
        item := nextitem;
      }
      ok := item < |packet|;
    }

    method ReadSDES(packet: seq<byte>, head: nat) returns (ok: bool)
      requires head + 4 <= |packet|
      modifies this
      ensures var after := HearChunks(From(packet, head + 4), packet[head] % 32, old(State()));
        if ok then after == State() else after == Lost
    {
      hide From, HearItems;
      var middle, i := head + 4, packet[head] % 32;
      while i > 0
        invariant head + 4 <= middle <= |packet| && 0 <= i
        invariant HearChunks(From(packet, middle), i, State())
          == HearChunks(From(packet, head + 4), packet[head] % 32, old(State()))
        decreases i
      {
        if middle + 4 > |packet| {
          return false;
        }
        Within(packet, middle, 0, 4);
        Behind(packet, middle, 4);
        var ssrc := Decode32(packet[middle..middle + 4]);
        var item;
        ghost var was := State();
        ok, item := ReadItems(packet, middle + 4, ssrc);
        if !ok {
          LostChunks(HearItems(From(packet, middle + 4), ssrc, was).1, i - 1);
          return false;
        }
        middle := item;
        i := i - 1;
      }
      return true;
    }

    method ReadBYE(packet: seq<byte>, head: nat) returns (ok: bool)
      requires head + 4 <= |packet|
      modifies this
      ensures var after := HearLeaving(From(packet, head + 4), packet[head] % 32, old(State()));
        if ok then after == State() else after == Lost
    {
      hide From;
      var src, i := head + 4, packet[head] % 32;
      while i > 0
        invariant head + 4 <= src <= |packet| && 0 <= i
        invariant HearLeaving(From(packet, src), i, State())
          == HearLeaving(From(packet, head + 4), packet[head] % 32, old(State()))
        decreases i
      {
        if src + 4 > |packet| {
          return false;
        }
        Within(packet, src, 0, 4);
        Behind(packet, src, 4);
        ok := RemoveTranInfo(Decode32(packet[src..src + 4]));
        if !ok {
          LostLeaving(From(packet, src + 4), i - 1);
          return false;
        }
        src := src + 4;
        i := i - 1;
      }
      return true;
    }

    method ReadBlock(packet: seq<byte>, begin: nat) returns (ok: bool)
      requires begin + 4 <= |packet|
      modifies this
      ensures var after := HearBlock(From(packet, begin), old(State()));
        if ok then after == State() else after == Lost
    {
      var typ := packet[begin + 1];
      Behind(packet, begin, 4);
      if typ == TYPE_SR || typ == TYPE_RR {
        ok := ReadSR(packet, begin);
      } else if typ == TYPE_SDES {
        ok := ReadSDES(packet, begin);
      } else if typ == TYPE_BYE {
        ok := ReadBYE(packet, begin);
      } else {
        ok := typ != TYPE_APP;
      }
    }

    /** Reads a packet that passed the check; the answer is 1 if someone left.  Not ok:
        the walk leaves the packet, or an assertion of the code fails. */
    method ReadRTCP(packet: seq<byte>, usage: nat) returns (ok: bool, ret: int)
      requires |packet| == RTCP_PACKETSIZE && usage <= RTCP_PACKETSIZE
      requires IsCompound(packet[..usage])
      modifies this
      ensures var after := HearAllBlocks(packet, usage, old(State()));
        if ok then after == State() else after == Lost
      ensures ok ==> ret == if HasType(Partition(packet[..usage]).value, TYPE_BYE) then 1 else 0
    {
      FindsType(packet, usage, TYPE_BYE);
      assert From(packet, 0) == packet;
      hide HearBlock, HearAllBlocks, Partition, IsCompound, SizeAt, HasType, From, Walkable, FindFrom;
      ghost var heard, bye := HearAllBlocks(packet, usage, State()), FindFrom(packet, 0, usage, TYPE_BYE) >= 0;
      var begin := 0;
      ret := 0;
      while begin < usage
        invariant 0 <= begin <= usage && Walkable(packet, begin, usage)
        invariant HearAllBlocks(From(packet, begin), usage - begin, State()) == heard
        invariant ret == 0 || ret == 1
        invariant bye <==> ret == 1 || FindFrom(packet, begin, usage, TYPE_BYE) >= 0
        decreases usage - begin
      {
        var next, bye;
        ok, next, bye := ReadNext(packet, begin, usage);
        if !ok {
          return;
        }
        if bye {
          ret := 1;
        }
        begin := next;
      }
      WalkEnd(packet, usage, TYPE_BYE);
      NothingLeft(From(packet, begin), State());
      ok := true;
    }

    /** One round of the walk. */
    method ReadNext(packet: seq<byte>, begin: nat, usage: nat) returns (ok: bool, next: nat, bye: bool)
      requires usage <= |packet| && Walkable(packet, begin, usage) && begin < usage
      modifies this
      ensures begin < next <= usage && Walkable(packet, next, usage)
      ensures FindFrom(packet, begin, usage, TYPE_BYE) >= 0 <==> bye || FindFrom(packet, next, usage, TYPE_BYE) >= 0
      ensures HearAllBlocks(From(packet, begin), usage - begin, old(State()))
           == if ok then HearAllBlocks(From(packet, next), usage - next, State()) else Lost
    {
      hide HearBlock, HearAllBlocks, From, Walkable, FindFrom, SizeAt;
      WalkNext(packet, begin, usage, TYPE_BYE);
      HearNext(packet, begin, usage, State());
      next := begin + SizeAt(packet, begin);
      ok := ReadBlock(packet, begin);
      if !ok {
        LostBlocks(From(packet, next), usage - next);
      }
      bye := packet[begin + 1] == TYPE_BYE;
    }

    /** findRTCP: the offset of the first block of a type, negative if there is none. */
    method FindRTCP(packet: seq<byte>, usage: nat, typ: byte) returns (at: int)
      requires |packet| == RTCP_PACKETSIZE && usage <= RTCP_PACKETSIZE
      requires IsCompound(packet[..usage])
      ensures at == FirstOfType(Partition(packet[..usage]).value, typ)
    {
      FindsType(packet, usage, typ);
      hide SizeAt, Walkable, FindFrom, FirstOfType, Partition, IsCompound;
      ghost var first := FindFrom(packet, 0, usage, typ);
      var begin := 0;
      while begin < usage
        invariant 0 <= begin <= usage && Walkable(packet, begin, usage)
        invariant first == FindFrom(packet, begin, usage, typ)
        decreases usage - begin
      {
        WalkNext(packet, begin, usage, typ);
        if packet[begin + 1] == typ {
          return begin;
        }
        begin := begin + SizeAt(packet, begin);
      }
      WalkEnd(packet, usage, typ);
      return -1;
    }
  }

  lemma {:induction false} HearNext(packet: seq<byte>, begin: nat, usage: nat, s: Hearing)
    requires begin + 4 <= usage <= |packet| && begin + SizeAt(packet, begin) <= usage
    ensures var head, next := From(packet, begin), begin + SizeAt(packet, begin);
      HearAllBlocks(head, usage - begin, s) == HearAllBlocks(From(packet, next), usage - next, HearBlock(head, s))
  {
    hide HearBlock, SizeAt, BlockSize, From, HearAllBlocks;
    SizeFromHere(packet, begin, usage);
    Behind(packet, begin, SizeAt(packet, begin));
    FromIsRest(packet, begin);
    HearRound(From(packet, begin), usage - begin, s);
  }

  lemma {:induction false} FromIsRest(packet: seq<byte>, begin: nat)
    requires begin <= |packet|
    ensures From(packet, begin) == packet[begin..]
  {}

  lemma {:induction false} HearRound(b: seq<byte>, usage: int, s: Hearing)
    requires usage > 0 && |b| >= 4 && BlockSize(b) <= |b|
    ensures HearAllBlocks(b, usage, s) == HearAllBlocks(b[BlockSize(b)..], usage - BlockSize(b), HearBlock(b, s))
  {
    hide HearBlock, BlockSize;
  }

  lemma {:induction false} NothingLeft(more: seq<byte>, s: Hearing)
    ensures HearAllBlocks(more, 0, s) == s
  {}
}
