/** rtp/RtcpPacket.cxx: the arena in which an RTCP compound packet is laid out. */
module RtcpArena {
  import opened Bytes

  const RTCP_PACKETSIZE := 2048

  /** n octets can be taken at an offset: as many behind them are cleared. */
  predicate RoomFor(at: nat, n: nat) { at + 2 * n <= RTCP_PACKETSIZE }

  class RtcpPacket {
    const packetData: array<byte>
    var unusedSize: nat
    /** What has been laid out; everything behind it is zero. */
    ghost var contents: seq<byte>

    ghost predicate Valid()
      reads this, packetData
    {
      && packetData.Length == RTCP_PACKETSIZE
      && |contents| + unusedSize == RTCP_PACKETSIZE
      && packetData[..] == contents + Zeros(unusedSize)
    }

    constructor ()
      ensures Valid() && fresh(packetData) && contents == []
    {
      packetData := new byte[RTCP_PACKETSIZE](_ => 0);
      unusedSize := RTCP_PACKETSIZE;
      contents := [];
    }

    function TotalUsage(): (n: nat)
      requires unusedSize <= RTCP_PACKETSIZE
      reads this
      ensures Valid() ==> n == |contents|
    {
      RTCP_PACKETSIZE - unusedSize
    }

    /** Takes s octets, then clears as many behind them.  Not ok: the assertion that there
        are s octets fails, or the clearing leaves the array. */
    method AllocData(s: nat) returns (ok: bool)
      requires packetData.Length == RTCP_PACKETSIZE && unusedSize <= RTCP_PACKETSIZE
      modifies this`unusedSize, packetData
      ensures ok <==> RoomFor(RTCP_PACKETSIZE - old(unusedSize), s)
      ensures ok <==> 2 * s <= old(unusedSize)
      ensures ok ==> unusedSize == old(unusedSize) - s
      ensures ok ==> packetData[..] == Splice(old(packetData[..]), TotalUsage(), Zeros(s))
    {
      if unusedSize < s {
        return false;
      }
      unusedSize := unusedSize - s;
      if s > unusedSize {
        return false;
      }
      Put(packetData, RTCP_PACKETSIZE - unusedSize, Zeros(s));
      ok := true;
    }

    /** Writes into what has been laid out. */
    method Write(at: nat, bytes: seq<byte>)
      requires Valid() && at + |bytes| <= |contents|
      modifies this`contents, packetData
      ensures Valid() && contents == Splice(old(contents), at, bytes)
    {
      Put(packetData, at, bytes);
      contents := Splice(contents, at, bytes);
    }

    /** Allocates octets and leaves them as they are, which is zero. */
    method AppendZeros(n: nat) returns (ok: bool)
      requires Valid()
      modifies this`unusedSize, this`contents, packetData
      ensures ok <==> RoomFor(|old(contents)|, n)
      ensures ok ==> Valid() && contents == old(contents) + Zeros(n)
    {
      ghost var u := unusedSize;
      ok := AllocData(n);
      if ok {
        assert Zeros(u) == Zeros(n) + Zeros(n) + Zeros(u - 2 * n);
        contents := contents + Zeros(n);
        assert packetData[..] == contents + Zeros(unusedSize);
      }
    }

    /** Allocates room for a structure and fills it in. */
    method Append(bytes: seq<byte>) returns (ok: bool)
      requires Valid()
      modifies this`unusedSize, this`contents, packetData
      ensures ok <==> RoomFor(|old(contents)|, |bytes|)
      ensures ok ==> Valid() && contents == old(contents) + bytes
    {
      var at := TotalUsage();
      ok := AppendZeros(|bytes|);
      if ok {
        Write(at, bytes);
        assert contents == old(contents) + bytes;
      }
    }

    /** Copies a text behind what has been laid out, and only then allocates its room. */
    method AppendText(text: seq<byte>) returns (ok: bool)
      requires Valid()
      modifies this`unusedSize, this`contents, packetData
      ensures ok <==> RoomFor(|old(contents)|, |text|)
      ensures ok ==> Valid() && contents == old(contents) + text
    {
      if |text| > unusedSize {
        // The copy leaves the array.
        return false;
      }
      ghost var n, u := |text|, unusedSize;
      Put(packetData, TotalUsage(), text);
      ok := AllocData(|text|);
      if ok {
        TextInZeros(old(packetData[..]), contents, text, u);
        contents := contents + text;
        assert packetData[..] == contents + Zeros(u - n);
      }
    }

    /** Octets have been received into the buffer. */
    method SetTotalUsage(size: nat)
      requires size <= RTCP_PACKETSIZE
      modifies this`unusedSize
      ensures unusedSize <= RTCP_PACKETSIZE && TotalUsage() == size
    {
      unusedSize := RTCP_PACKETSIZE - size;
    }
  }

  /** A text written into zeros, and as many zeros again behind it. */
  lemma {:induction false} TextInZeros(buf: seq<byte>, contents: seq<byte>, text: seq<byte>, u: nat)
    requires buf == contents + Zeros(u) && 2 * |text| <= u
    ensures var (k, n) := (|contents|, |text|);
      Splice(Splice(buf, k, text), k + n, Zeros(n)) == contents + text + Zeros(u - n)
  {
    var (k, n) := (|contents|, |text|);
    assert Zeros(u) == Zeros(n) + Zeros(n) + Zeros(u - 2 * n) && Zeros(u - n) == Zeros(n) + Zeros(u - 2 * n);
    assert Splice(buf, k, text) == contents + text + (Zeros(n) + Zeros(u - 2 * n));
    assert Splice(Splice(buf, k, text), k + n, Zeros(n)) == contents + text + (Zeros(n) + Zeros(u - 2 * n));
  }
}
