/** What any packet that passes the check says, block by block, and for which of them the
    walk of rtp/RtcpReceiver.cxx leaves the packet array or fails an assertion. */
module RtcpOutcomes {
  import opened Options
  import opened Bytes
  import opened RtcpBlocks
  import opened RtcpWalker

  // ----- What one block says, if it can be read -----

  function ReportsIn(b: seq<byte>, n: nat): (r: Option<seq<Said>>) {
    if |b| < 24 * n then None
    else Some(seq(n, i requires 0 <= i < n =>
                Reported(Decode32(b[24 * i + 16..24 * i + 20]), Decode32(b[24 * i + 20..24 * i + 24]))))
  }

  function LeavingIn(b: seq<byte>, n: nat): (r: Option<seq<Said>>) {
    if |b| < 4 * n then None
    else Some(seq(n, i requires 0 <= i < n => Left(Decode32(b[4 * i..4 * i + 4]))))
  }

  function Then(a: Option<seq<Said>>, b: Option<seq<Said>>): Option<seq<Said>> {
    if a.None? || b.None? then None else Some(a.value + b.value)
  }

  /** The items of one source, and what is left from the one that ends them. */
  function ItemsIn(b: seq<byte>, ssrc: Word32): (r: (Option<seq<Said>>, seq<byte>))
    ensures |r.1| <= |b|
    decreases |b|
  {
    if b == [] then (None, b)
    else if b[0] == 0 then (Some([]), b)
    else if |b| < 2 || |b| - 2 < b[1] then (None, [])
    else
      var next: int := b[1] as int + 2;
      var (more, rest) := ItemsIn(b[next..], ssrc);
      (Then(Some([Described(ssrc, Item(b[0], b[2..next]))]), more), rest)
  }

  function ChunksIn(b: seq<byte>, n: nat): Option<seq<Said>>
    decreases n
  {
    if n == 0 then Some([])
    else if |b| < 4 then None
    else
      var (items, rest) := ItemsIn(b[4..], Decode32(b[..4]));
      Then(items, ChunksIn(rest, n - 1))
  }

  /** None: a count or a length reaches behind the array, or the block is one that the code
      gives up on. */
  function BlockSays(b: seq<byte>): Option<seq<Said>>
    requires |b| >= 4
  {
    var n := b[0] % 32;
    if b[1] == TYPE_SR then
      if |b| < 28 then None else
        Then(Some([Sent(Decode32(b[4..8]), MiddleBits(Decode32(b[8..12]), Decode32(b[12..16])))]),
             ReportsIn(b[28..], n))
    else if b[1] == TYPE_RR then
      if |b| < 8 then None else ReportsIn(b[8..], n)
    else if b[1] == TYPE_SDES then ChunksIn(b[4..], n)
    else if b[1] == TYPE_BYE then LeavingIn(b[4..], n)
    else if b[1] == TYPE_APP then None
    else Some([])
  }

  /** Which blocks cannot be read: of type 204; or with more reports or sources than lie
      before the end of the array.  A block of no type that is known says nothing. */
  lemma {:induction false} ReadableByType(b: seq<byte>)
    requires |b| >= 4
    ensures b[1] == 200 ==> (BlockSays(b).None? <==> |b| < 28 + 24 * (b[0] as int % 32))
    ensures b[1] == 201 ==> (BlockSays(b).None? <==> |b| < 8 + 24 * (b[0] as int % 32))
    ensures b[1] == 203 ==> (BlockSays(b).None? <==> |b| < 4 + 4 * (b[0] as int % 32))
    ensures b[1] == 204 ==> BlockSays(b).None?
    ensures b[1] < 200 || b[1] > 204 ==> BlockSays(b) == Some([])
  {
    hide Decode32, MiddleBits, ChunksIn;
  }

  // ----- Hearing a block is hearing what it says -----

  function HearSaid(s: Hearing, o: Option<seq<Said>>): Hearing {
    if o.None? then Lost else s.HearAll(o.value)
  }

  lemma {:induction false} HearThen(s: Hearing, xs: seq<Said>, o: Option<seq<Said>>)
    ensures HearSaid(s.HearAll(xs), o) == HearSaid(s, Then(Some(xs), o))
  {
    if o.Some? {
      HearAllAppends(s, xs, o.value);
    }
  }

  lemma {:induction false} HearOne(s: Hearing, x: Said)
    ensures s.HearAll([x]) == s.Hear(x)
  {
    HearFirst(s, x, []);
    assert [x] + [] == [x] && s.Hear(x).HearAll([]) == s.Hear(x);
  }

  lemma {:induction false} HearNone(s: Hearing)
    ensures s.HearAll([]) == s
  {}

  lemma {:induction false} FirstReportIn(b: seq<byte>, n: nat)
    requires n > 0 && |b| >= 24
    ensures ReportsIn(b, n) == Then(Some([Reported(Decode32(b[16..20]), Decode32(b[20..24]))]),
                                    ReportsIn(b[24..], n - 1))
  {
    hide Decode32;
    if |b| >= 24 * n {
      var tail := b[24..];
      forall i | 0 <= i < n - 1
        ensures tail[24 * i + 16..24 * i + 20] == b[24 * (i + 1) + 16..24 * (i + 1) + 20]
        ensures tail[24 * i + 20..24 * i + 24] == b[24 * (i + 1) + 20..24 * (i + 1) + 24]
      {}
      assert ReportsIn(b, n).value
        == [Reported(Decode32(b[16..20]), Decode32(b[20..24]))] + ReportsIn(tail, n - 1).value;
    }
  }

  lemma {:induction false} ReportsHeard(b: seq<byte>, n: nat, s: Hearing)
    ensures HearReports(b, n, s) == HearSaid(s, ReportsIn(b, n))
    decreases n
  {
    hide Decode32, HearSaid, ReportsIn, Hearing.HearAll;
    if n == 0 || |b| < 24 {
      FewReports(b, n, s);
    } else {
      var x := Reported(Decode32(b[16..20]), Decode32(b[20..24]));
      FirstReportIn(b, n);
      ReportsHeard(b[24..], n - 1, s.Hear(x));
      HearOne(s, x);
      HearThen(s, [x], ReportsIn(b[24..], n - 1));
    }
  }

  lemma {:induction false} FewReports(b: seq<byte>, n: nat, s: Hearing)
    requires n == 0 || |b| < 24
    ensures HearReports(b, n, s) == HearSaid(s, ReportsIn(b, n))
  {}

  lemma {:induction false} FirstLeavingIn(b: seq<byte>, n: nat)
    requires n > 0 && |b| >= 4
    ensures LeavingIn(b, n) == Then(Some([Left(Decode32(b[..4]))]), LeavingIn(b[4..], n - 1))
  {
    hide Decode32;
    if |b| >= 4 * n {
      var tail := b[4..];
      forall i | 0 <= i < n - 1 ensures tail[4 * i..4 * i + 4] == b[4 * (i + 1)..4 * (i + 1) + 4] {}
      assert LeavingIn(b, n).value == [Left(Decode32(b[..4]))] + LeavingIn(tail, n - 1).value;
    }
  }

  lemma {:induction false} LeavingHeard(b: seq<byte>, n: nat, s: Hearing)
    ensures HearLeaving(b, n, s) == HearSaid(s, LeavingIn(b, n))
    decreases n
  {
    hide Decode32, HearSaid, LeavingIn, Hearing.HearAll;
    if n == 0 || |b| < 4 {
      FewLeaving(b, n, s);
    } else {
      var x := Left(Decode32(b[..4]));
      FirstLeavingIn(b, n);
      LeavingHeard(b[4..], n - 1, s.Hear(x));
      HearOne(s, x);
      HearThen(s, [x], LeavingIn(b[4..], n - 1));
    }
  }

  lemma {:induction false} FewLeaving(b: seq<byte>, n: nat, s: Hearing)
    requires n == 0 || |b| < 4
    ensures HearLeaving(b, n, s) == HearSaid(s, LeavingIn(b, n))
  {}

  lemma {:induction false} ItemsHeard(b: seq<byte>, ssrc: Word32, s: Hearing)
    ensures HearItems(b, ssrc, s) == (HearSaid(s, ItemsIn(b, ssrc).0), ItemsIn(b, ssrc).1)
    decreases |b|
  {
    hide HearSaid, Then, Hearing.HearAll;
    if b == [] || b[0] == 0 || |b| < 2 || |b| - 2 < b[1] {
      EndOfItems(b, ssrc, s);
    } else {
      var next: int := b[1] as int + 2;
      var x := Described(ssrc, Item(b[0], b[2..next]));
      ItemsHeard(b[next..], ssrc, s.Hear(x));
      HearOne(s, x);
      HearThen(s, [x], ItemsIn(b[next..], ssrc).0);
    }
  }

  lemma {:induction false} EndOfItems(b: seq<byte>, ssrc: Word32, s: Hearing)
    requires b == [] || b[0] == 0 || |b| < 2 || |b| - 2 < b[1]
    ensures HearItems(b, ssrc, s) == (HearSaid(s, ItemsIn(b, ssrc).0), ItemsIn(b, ssrc).1)
  {}

  lemma {:induction false} ChunksHeard(b: seq<byte>, n: nat, s: Hearing)
    ensures HearChunks(b, n, s) == HearSaid(s, ChunksIn(b, n))
    decreases n
  {
    hide Decode32, HearItems, ItemsIn;
    if n > 0 && |b| >= 4 {
      var ssrc := Decode32(b[..4]);
      var (items, rest) := ItemsIn(b[4..], ssrc);
      ItemsHeard(b[4..], ssrc, s);
      if items.None? {
        LostChunks(rest, n - 1);
      } else {
        ChunksHeard(rest, n - 1, s.HearAll(items.value));
        HearThen(s, items.value, ChunksIn(rest, n - 1));
      }
    }
  }

  /** Hearing a block is hearing what it says, or being lost if it cannot be read. */
  lemma {:induction false} BlockHeard(b: seq<byte>, s: Hearing)
    requires |b| >= 4
    ensures HearBlock(b, s) == HearSaid(s, BlockSays(b))
  {
    hide Decode32, HearReports, HearChunks, HearLeaving, ReportsIn, ChunksIn, LeavingIn, MiddleBits;
    var n := b[0] % 32;
    ChunksHeard(b[4..], n, s);
    LeavingHeard(b[4..], n, s);
    HearNone(s);
    if |b| >= 8 {
      ReportsHeard(b[8..], n, s);
    }
    if |b| >= 28 {
      var x := Sent(Decode32(b[4..8]), MiddleBits(Decode32(b[8..12]), Decode32(b[12..16])));
      ReportsHeard(b[28..], n, s.Hear(x));
      HearOne(s, x);
      HearThen(s, [x], ReportsIn(b[28..], n));
    }
  }

  // ----- A whole packet -----

  /** What the blocks of a partition say; b is what follows in the array. */
  function PartsSay(b: seq<byte>, parts: seq<seq<byte>>): Option<seq<Said>>
    decreases |parts|
  {
    if parts == [] then Some([])
    else if |b| < 4 || |b| < |parts[0]| then None
    else Then(BlockSays(b), PartsSay(b[|parts[0]|..], parts[1..]))
  }

  lemma {:induction false} LostParts(b: seq<byte>, parts: seq<seq<byte>>)
    ensures HearParts(b, parts, Lost) == Lost
    decreases |parts|
  {
    hide HearBlock, BlockSays;
    if parts != [] && |b| >= 4 && |b| >= |parts[0]| {
      BlockHeard(b, Lost);
      LostAll(BlockSays(b));
      LostParts(b[|parts[0]|..], parts[1..]);
    }
  }

  lemma {:induction false} LostAll(o: Option<seq<Said>>)
    ensures HearSaid(Lost, o) == Lost
    decreases if o.Some? then |o.value| else 0
  {
    if o.Some? && o.value != [] {
      LostAll(Some(o.value[1..]));
    }
  }

  lemma {:induction false} PartsHeard(b: seq<byte>, parts: seq<seq<byte>>, s: Hearing)
    ensures HearParts(b, parts, s) == HearSaid(s, PartsSay(b, parts))
    decreases |parts|
  {
    hide HearBlock, BlockSays, Hearing.HearAll;
    if parts == [] {
      HearNone(s);
    } else if |b| >= 4 && |b| >= |parts[0]| {
      var o, rest := BlockSays(b), b[|parts[0]|..];
      BlockHeard(b, s);
      if o.None? {
        LostParts(rest, parts[1..]);
      } else {
        PartsHeard(rest, parts[1..], s.HearAll(o.value));
        HearThen(s, o.value, PartsSay(rest, parts[1..]));
      }
    }
  }

  /** What a packet that passes the check says; none if a block cannot be read. */
  function PacketSays(packet: seq<byte>, usage: nat): Option<seq<Said>>
    requires usage <= |packet| && IsCompound(packet[..usage])
  {
    PartsSay(packet, Partition(packet[..usage]).value)
  }

  lemma {:induction false} PacketHeard(packet: seq<byte>, usage: nat, s: Hearing)
    requires usage <= |packet| && IsCompound(packet[..usage])
    ensures HearAllBlocks(packet, usage, s) == HearSaid(s, PacketSays(packet, usage))
  {
    hide HearAllBlocks, HearParts, PartsSay, HearSaid, Concat, IsBlock;
    var b := packet[..usage];
    var parts := Partition(b).value;
    PartitionIsExact(b, parts);
    WalkFollowsPartition(packet, parts, s);
    PartsHeard(packet, parts, s);
  }

  /** Of the packets that pass the check the walk is lost in exactly those with a block that
      cannot be read, and those that say of a source not known then that it leaves. */
  lemma {:induction false} LossIsExact(packet: seq<byte>, usage: nat, s: Hearing)
    requires usage <= |packet| && IsCompound(packet[..usage]) && s.Hearing?
    ensures var said := PacketSays(packet, usage);
      HearAllBlocks(packet, usage, s) == Lost <==> said.None? || LeavesUnknown(s.sources, said.value)
  {
    hide HearAllBlocks, PacketSays, IsCompound, LeavesUnknown, Hearing.HearAll;
    PacketHeard(packet, usage, s);
    var said := PacketSays(packet, usage);
    if said.Some? {
      LostIsExact(s, said.value);
    }
  }

  /** Some block cannot be read. */
  lemma {:induction false} UnreadIsExact(b: seq<byte>, parts: seq<seq<byte>>)
    requires Concat(parts) <= b && forall i :: 0 <= i < |parts| ==> |parts[i]| >= 4
    ensures PartsSay(b, parts).None? <==> exists k :: 0 <= k < |parts| && Unread(b, parts, k)
    decreases |parts|
  {
    hide BlockSays, Unread;
    if parts == [] {
    } else {
      var p, tail := parts[0], parts[1..];
      var rest := b[|p|..];
      assert b[..|Concat(parts)|] == p + Concat(tail);
      assert Concat(tail) <= rest;
      UnreadIsExact(rest, tail);
      UnreadFirst(b, parts);
      forall k | 0 <= k < |tail| ensures Unread(b, parts, k + 1) == Unread(rest, tail, k) {
        UnreadNext(b, parts, k);
      }
      if exists k :: 0 <= k < |parts| && Unread(b, parts, k) {
        var k :| 0 <= k < |parts| && Unread(b, parts, k);
        assert k > 0 ==> Unread(rest, tail, k - 1);
      }
    }
  }

  predicate Unread(b: seq<byte>, parts: seq<seq<byte>>, k: nat)
    requires k < |parts|
  {
    var at := |Concat(parts[..k])|;
    at + 4 > |b| || BlockSays(b[at..]).None?
  }

  lemma {:induction false} UnreadFirst(b: seq<byte>, parts: seq<seq<byte>>)
    requires parts != [] && |b| >= 4
    ensures Unread(b, parts, 0) <==> BlockSays(b).None?
  {
    hide BlockSays;
    assert parts[..0] == [] && Concat([]) == [] && b[0..] == b;
  }

  lemma {:induction false} UnreadNext(b: seq<byte>, parts: seq<seq<byte>>, k: nat)
    requires parts != [] && k < |parts| - 1 && |parts[0]| <= |b|
    ensures Unread(b, parts, k + 1) == Unread(b[|parts[0]|..], parts[1..], k)
  {
    hide BlockSays;
    var p, tail := parts[0], parts[1..];
    assert parts[..k + 1][0] == p && parts[..k + 1][1..] == tail[..k];
    var n, at := |p|, |Concat(tail[..k])|;
    assert |Concat(parts[..k + 1])| == n + at;
    assert at <= |b| - n ==> b[n + at..] == b[n..][at..];
  }
}
