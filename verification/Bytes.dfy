/** Octets and network byte order. */
module Bytes {

  type byte = x: int | 0 <= x < 256

  type Word16 = x: int | 0 <= x < 0x1_0000
  type Word32 = x: int | 0 <= x < 0x1_0000_0000

  function Zeros(n: nat): (s: seq<byte>)
    ensures |s| == n
  {
    seq(n, _ => 0)
  }

  /** htons and htonl: the most significant octet first. */
  function Encode16(x: Word16): (s: seq<byte>)
    ensures |s| == 2
  {
    [x / 0x100, x % 0x100]
  }

  function Encode32(x: Word32): (s: seq<byte>)
    ensures |s| == 4
  {
    Encode16(x / 0x1_0000) + Encode16(x % 0x1_0000)
  }

  function Decode16(s: seq<byte>): Word16
    requires |s| == 2
  {
    var hi: int, lo: int := s[0], s[1];
    hi * 0x100 + lo
  }

  function Decode32(s: seq<byte>): Word32
    requires |s| == 4
  {
    var hi: int, lo: int := Decode16(s[..2]), Decode16(s[2..]);
    hi * 0x1_0000 + lo
  }

  lemma {:induction false} Decode16Undoes(x: Word16)
    ensures Decode16(Encode16(x)) == x
  {}

  lemma {:induction false} Decode32Undoes(x: Word32)
    ensures Decode32(Encode32(x)) == x
  {
    var hi, lo := Encode16(x / 0x1_0000), Encode16(x % 0x1_0000);
    assert (hi + lo)[..2] == hi && (hi + lo)[2..] == lo;
    Decode16Undoes(x / 0x1_0000);
    Decode16Undoes(x % 0x1_0000);
  }

  lemma {:induction false} Encode16Undoes(s: seq<byte>)
    requires |s| == 2
    ensures Encode16(Decode16(s)) == s
  {}

  lemma {:induction false} Encode32Undoes(s: seq<byte>)
    requires |s| == 4
    ensures Encode32(Decode32(s)) == s
  {
    hide Encode16, Decode16;
    var hi: int, lo: int := Decode16(s[..2]), Decode16(s[2..]);
    Encode16Undoes(s[..2]);
    Encode16Undoes(s[2..]);
    assert Decode32(s) / 0x1_0000 == hi && Decode32(s) % 0x1_0000 == lo;
    assert s[..2] + s[2..] == s;
  }

  /** The number that four octets, or two, are in network byte order. */
  function Number32(s: seq<byte>, at: nat): int
    requires at + 4 <= |s|
  {
    s[at] as int * 0x100_0000 + s[at + 1] as int * 0x1_0000 + s[at + 2] as int * 0x100 + s[at + 3]
  }

  function Number16(s: seq<byte>, at: nat): int
    requires at + 2 <= |s|
  {
    s[at] as int * 0x100 + s[at + 1]
  }

  /** The most significant octet is the first, when it is written and when it is read. */
  lemma {:induction false} NetworkOrder(x: Word32, s: seq<byte>)
    requires |s| == 4
    ensures Number32(Encode32(x), 0) == x && Decode32(s) == Number32(s, 0)
  {
    NetworkOrder16(x / 0x1_0000, s[..2]);
    NetworkOrder16(x % 0x1_0000, s[2..]);
    hide Encode16, Decode16;
  }

  lemma {:induction false} NetworkOrder16(x: Word16, s: seq<byte>)
    requires |s| == 2
    ensures Number16(Encode16(x), 0) == x && Decode16(s) == Number16(s, 0)
  {}

  /** A number that was written is where it was written. */
  lemma {:induction false} WrittenAt32(s: seq<byte>, at: nat, x: Word32)
    requires at + 4 <= |s| && s[at..at + 4] == Encode32(x)
    ensures Number32(s, at) == x
  {
    hide Encode32, Decode32;
    NetworkOrder(x, Encode32(x));
    var e := s[at..at + 4];
    assert e[0] == s[at] && e[1] == s[at + 1] && e[2] == s[at + 2] && e[3] == s[at + 3];
  }

  lemma {:induction false} WrittenAt16(s: seq<byte>, at: nat, x: Word16)
    requires at + 2 <= |s| && s[at..at + 2] == Encode16(x)
    ensures Number16(s, at) == x
  {
    hide Encode16, Decode16;
    NetworkOrder16(x, Encode16(x));
    var e := s[at..at + 2];
    assert e[0] == s[at] && e[1] == s[at + 1];
  }

  lemma {:induction false} Associates(a: seq<byte>, b: seq<byte>, c: seq<byte>)
    ensures a + (b + c) == a + b + c
  {}

  lemma {:induction false} SliceOfSlice(s: seq<byte>, a: nat, b: nat, lo: nat, hi: nat)
    requires a <= b <= |s| && lo <= hi <= b - a
    ensures s[a..b][lo..hi] == s[a + lo..a + hi]
  {
    var x, y := s[a..b][lo..hi], s[a + lo..a + hi];
    forall i | 0 <= i < hi - lo ensures x[i] == y[i] {
      assert x[i] == s[a..b][lo + i] == s[a + (lo + i)];
    }
  }

  // ----- Writing into a buffer -----

  /** The buffer with s written at an offset. */
  function Splice(buf: seq<byte>, offset: nat, s: seq<byte>): (r: seq<byte>)
    requires offset + |s| <= |buf|
    ensures |r| == |buf|
    ensures r[..offset] == buf[..offset] && r[offset..offset + |s|] == s && r[offset + |s|..] == buf[offset + |s|..]
  {
    buf[..offset] + s + buf[offset + |s|..]
  }

  /** A write within what starts a buffer. */
  lemma {:induction false} SplicePrefix(buf: seq<byte>, w: seq<byte>, offset: nat, s: seq<byte>)
    requires |w| <= |buf| && buf[..|w|] == w && offset + |s| <= |w|
    ensures Splice(buf, offset, s)[..|w|] == Splice(w, offset, s)
  {
    var n, end := |w|, offset + |s|;
    assert buf[..offset] == w[..offset] && buf[end..n] == w[end..];
    assert Splice(buf, offset, s)[..n] == buf[..offset] + s + buf[end..n];
  }

  /** memcpy. */
  method Put(buf: array<byte>, offset: nat, s: seq<byte>)
    requires offset + |s| <= buf.Length
    modifies buf
    ensures buf[..] == Splice(old(buf[..]), offset, s)
  {
    for k := 0 to |s|
      invariant buf[..] == Splice(old(buf[..]), offset, s[..k])
    {
      buf[offset + k] := s[k];
    }
    assert s[..|s|] == s;
  }

  // ----- Exclusive or, bit by bit -----

  function Exp2(n: nat): nat { if n == 0 then 1 else 2 * Exp2(n - 1) }

  function XorBits(a: nat, b: nat, n: nat): (x: nat)
    ensures x < Exp2(n)
  {
    if n == 0 then 0 else (if a % 2 == b % 2 then 0 else 1) + 2 * XorBits(a / 2, b / 2, n - 1)
  }

  lemma {:induction false} XorBitsUndoes(a: nat, b: nat, n: nat)
    requires a < Exp2(n)
    ensures XorBits(XorBits(a, b, n), b, n) == a
  {
    if n > 0 {
      var x := XorBits(a, b, n);
      assert x / 2 == XorBits(a / 2, b / 2, n - 1);
      XorBitsUndoes(a / 2, b / 2, n - 1);
    }
  }

  function Xor(a: byte, b: byte): byte {
    assert Exp2(8) == 256;
    XorBits(a, b, 8)
  }

  /** Each bit of x is set exactly when that bit of a and that of b differ. */
  predicate IsXor(x: int, a: int, b: int) {
    && (x % 2 != 0 <==> a % 2 != b % 2)
    && (x / 2 % 2 != 0 <==> a / 2 % 2 != b / 2 % 2)
    && (x / 4 % 2 != 0 <==> a / 4 % 2 != b / 4 % 2)
    && (x / 8 % 2 != 0 <==> a / 8 % 2 != b / 8 % 2)
    && (x / 16 % 2 != 0 <==> a / 16 % 2 != b / 16 % 2)
    && (x / 32 % 2 != 0 <==> a / 32 % 2 != b / 32 % 2)
    && (x / 64 % 2 != 0 <==> a / 64 % 2 != b / 64 % 2)
    && (x / 128 % 2 != 0 <==> a / 128 % 2 != b / 128 % 2)
  }

  lemma {:induction false} XorBitsHalve(a: nat, b: nat, n: nat)
    requires n > 0
    ensures XorBits(a, b, n) / 2 == XorBits(a / 2, b / 2, n - 1)
    ensures XorBits(a, b, n) % 2 != 0 <==> a % 2 != b % 2
  {}

  lemma {:induction false} Halvings(a: nat)
    ensures a / 2 / 2 == a / 4 && a / 4 / 2 == a / 8 && a / 8 / 2 == a / 16 && a / 16 / 2 == a / 32
    ensures a / 32 / 2 == a / 64 && a / 64 / 2 == a / 128
  {}

  lemma {:induction false} XorIsExclusiveOr(a: byte, b: byte)
    ensures IsXor(Xor(a, b), a, b)
  {
    hide XorBits;
    XorIsXorBits(a, b);
    Halvings(a);
    Halvings(b);
    Halvings(Xor(a, b));
    XorBitsHalve(a, b, 8);
    XorBitsHalve(a / 2, b / 2, 7);
    XorBitsHalve(a / 4, b / 4, 6);
    XorBitsHalve(a / 8, b / 8, 5);
    XorBitsHalve(a / 16, b / 16, 4);
    XorBitsHalve(a / 32, b / 32, 3);
    XorBitsHalve(a / 64, b / 64, 2);
    XorBitsHalve(a / 128, b / 128, 1);
  }

  lemma {:induction false} XorIsXorBits(a: byte, b: byte)
    ensures Xor(a, b) == XorBits(a, b, 8)
  {}

  lemma {:induction false} XorUndoes(a: byte, b: byte)
    ensures Xor(Xor(a, b), b) == a
  {
    assert Exp2(8) == 256;
    XorBitsUndoes(a, b, 8);
  }

  lemma {:induction false} XorBitsSolves(a: nat, b: nat, n: nat)
    requires b < Exp2(n)
    ensures XorBits(a, XorBits(a, b, n), n) == b
  {
    if n > 0 {
      var x := XorBits(a, b, n);
      assert x / 2 == XorBits(a / 2, b / 2, n - 1);
      XorBitsSolves(a / 2, b / 2, n - 1);
    }
  }

  /** The octet that turns a into x. */
  lemma {:induction false} XorSolves(a: byte, b: byte, b': byte)
    ensures Xor(a, Xor(a, b)) == b
    ensures Xor(a, b) == Xor(a, b') <==> b == b'
  {
    assert Exp2(8) == 256;
    XorBitsSolves(a, b, 8);
    XorBitsSolves(a, b', 8);
  }
}
