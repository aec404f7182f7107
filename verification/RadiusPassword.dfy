/** How RADIUS hides a User-Password (section 5.2 of RFC 2865; radius/RadiusMessage.cxx):
    each block of 16 octets is combined with a hash of the secret and the block hidden
    before it.  The hash is any function with a 16-octet result. */
module RadiusPassword {
  import opened Bytes

  type Digest = s: seq<byte> | |s| == 16 witness Zeros(16)
  type Hash = seq<byte> -> Digest

  function XorBlock(p: seq<byte>, b: Digest): (c: Digest)
    requires |p| == 16
    ensures forall j :: 0 <= j < 16 ==> c[j] == Xor(p[j], b[j])
  {
    seq(16, j requires 0 <= j < 16 => Xor(p[j], b[j]))
  }

  /** c(i) = p(i) xor MD5(S + c(i-1)), where c(0) is the request authenticator. */
  function Hide(md5: Hash, secret: seq<byte>, prev: Digest, p: seq<byte>): (c: seq<byte>)
    requires |p| % 16 == 0
    ensures |c| == |p|
    decreases |p|
  {
    if p == [] then [] else
      var c := XorBlock(p[..16], md5(secret + prev));
      c + Hide(md5, secret, c, p[16..])
  }

  function Reveal(md5: Hash, secret: seq<byte>, prev: Digest, c: seq<byte>): (p: seq<byte>)
    requires |c| % 16 == 0
    ensures |p| == |c|
    decreases |c|
  {
    if c == [] then [] else
      XorBlock(c[..16], md5(secret + prev)) + Reveal(md5, secret, c[..16], c[16..])
  }

  lemma {:induction false} XorBlockUndoes(p: Digest, b: Digest)
    ensures XorBlock(XorBlock(p, b), b) == p
  {
    forall j | 0 <= j < 16 ensures XorBlock(XorBlock(p, b), b)[j] == p[j] {
      XorUndoes(p[j], b[j]);
    }
  }

  lemma {:induction false} RevealUndoesHide(md5: Hash, secret: seq<byte>, prev: Digest, p: seq<byte>)
    requires |p| % 16 == 0
    ensures Reveal(md5, secret, prev, Hide(md5, secret, prev, p)) == p
    decreases |p|
  {
    if p != [] {
      var b := md5(secret + prev);
      var c := XorBlock(p[..16], b);
      var h := Hide(md5, secret, prev, p);
      XorBlockUndoes(p[..16], b);
      RevealUndoesHide(md5, secret, c, p[16..]);
      assert h[..16] == c && h[16..] == Hide(md5, secret, c, p[16..]);
      assert p[..16] + p[16..] == p;
    }
  }

  lemma {:induction false} HideUndoesReveal(md5: Hash, secret: seq<byte>, prev: Digest, c: seq<byte>)
    requires |c| % 16 == 0
    ensures Hide(md5, secret, prev, Reveal(md5, secret, prev, c)) == c
    decreases |c|
  {
    if c != [] {
      var b := md5(secret + prev);
      var p := Reveal(md5, secret, prev, c);
      XorBlockUndoes(c[..16], b);
      HideUndoesReveal(md5, secret, c[..16], c[16..]);
      assert p[..16] == XorBlock(c[..16], b) && p[16..] == Reveal(md5, secret, c[..16], c[16..]);
      assert c[..16] + c[16..] == c;
    }
  }

  /** Section 5.2 of RFC 2865, octet by octet: each is combined with the octet at its place
      in the hash of the secret and the block hidden before its own. */
  predicate IsChain(md5: Hash, secret: seq<byte>, authenticator: Digest, plain: seq<byte>, hidden: seq<byte>) {
    |hidden| == |plain| &&
    forall i {:trigger hidden[i]} :: 0 <= i < |plain| ==>
      IsXor(hidden[i], plain[i],
            md5(secret + if i < 16 then authenticator else hidden[i / 16 * 16 - 16..i / 16 * 16])[i % 16])
  }

  lemma {:induction false} HideIsChain(md5: Hash, secret: seq<byte>, prev: Digest, p: seq<byte>)
    requires |p| % 16 == 0
    ensures IsChain(md5, secret, prev, p, Hide(md5, secret, prev, p))
    decreases |p|
  {
    hide Hide, XorBlock, IsXor, Xor;
    var h := Hide(md5, secret, prev, p);
    if p != [] {
      var b := md5(secret + prev);
      var c := XorBlock(p[..16], b);
      var tail := Hide(md5, secret, c, p[16..]);
      HideStep(md5, secret, prev, p);
      HideIsChain(md5, secret, c, p[16..]);
      forall i | 0 <= i < |p|
        ensures IsXor(h[i], p[i], md5(secret + if i < 16 then prev else h[i / 16 * 16 - 16..i / 16 * 16])[i % 16])
      {
        if i < 16 {
          XorIsExclusiveOr(p[i], b[i]);
        } else {
          NextBlock(c, tail, i);
          assert tail[i - 16] == h[i];
        }
      }
    }
  }

  /** The block before, behind a first block and without it. */
  lemma {:induction false} NextBlock(c: Digest, tail: seq<byte>, i: nat)
    requires 16 <= i < 16 + |tail|
    ensures i % 16 == (i - 16) % 16
    ensures (c + tail)[i / 16 * 16 - 16..i / 16 * 16]
         == if i - 16 < 16 then c else tail[(i - 16) / 16 * 16 - 16..(i - 16) / 16 * 16]
  {
    var k := i / 16 * 16;
    assert (i - 16) / 16 * 16 == k - 16;
    if i < 32 {
      assert k == 16;
    } else {
      assert (c + tail)[k - 16..k] == tail[k - 32..k - 16];
    }
  }

  lemma {:induction false} RevealIsChain(md5: Hash, secret: seq<byte>, prev: Digest, c: seq<byte>)
    requires |c| % 16 == 0
    ensures IsChain(md5, secret, prev, Reveal(md5, secret, prev, c), c)
  {
    hide Hide, Reveal, IsChain;
    HideIsChain(md5, secret, prev, Reveal(md5, secret, prev, c));
    HideUndoesReveal(md5, secret, prev, c);
  }

  lemma {:induction false} HideStep(md5: Hash, secret: seq<byte>, prev: Digest, p: seq<byte>)
    requires |p| % 16 == 0 && p != []
    ensures var c := XorBlock(p[..16], md5(secret + prev));
      Hide(md5, secret, prev, p) == c + Hide(md5, secret, c, p[16..])
  {}

  lemma {:induction false} RevealStep(md5: Hash, secret: seq<byte>, prev: Digest, c: seq<byte>)
    requires |c| % 16 == 0 && c != []
    ensures Reveal(md5, secret, prev, c)
      == XorBlock(c[..16], md5(secret + prev)) + Reveal(md5, secret, c[..16], c[16..])
  {}

  /** What stands before the block at i in the chain. */
  function Before(authenticator: Digest, c: seq<byte>, i: nat): Digest
    requires i == 0 || 16 <= i <= |c|
  {
    if i == 0 then authenticator else c[i - 16..i]
  }

  /** The inner loop of both directions. */
  method XorInto(p: seq<byte>, b: Digest, i: nat, out: array<byte>)
    requires i + 16 <= |p| <= out.Length
    modifies out
    ensures out[i..i + 16] == XorBlock(p[i..i + 16], b)
    ensures out[..i] == old(out[..i]) && out[i + 16..] == old(out[i + 16..])
  {
    for j := 0 to 16
      invariant forall k :: 0 <= k < out.Length ==>
        out[k] == if i <= k < i + j then Xor(p[k], b[k - i]) else old(out[k])
    {
      out[i + j] := Xor(p[i + j], b[j]);
    }
  }

  lemma {:induction false} WholeBlocks(n: nat, k: nat)
    requires n % 16 == 0 && 16 * k <= n
    ensures (n - 16 * k) % 16 == 0
    ensures n == 16 * (n / 16)
  {}

  /** What the blocks from k on are hidden as, behind those already hidden. */
  ghost function HideFrom(md5: Hash, secret: seq<byte>, authenticator: Digest, done: seq<byte>, p: seq<byte>, k: nat)
    : (r: seq<byte>)
    requires |p| % 16 == 0 && 16 * k <= |p| && |done| == 16 * k
    ensures |r| == |p| - 16 * k
  {
    WholeBlocks(|p|, k);
    Hide(md5, secret, Before(authenticator, done, 16 * k), p[16 * k..])
  }

  lemma {:induction false} HideFromStep(md5: Hash, secret: seq<byte>, authenticator: Digest, done: seq<byte>,
                                        p: seq<byte>, k: nat, block: seq<byte>)
    requires |p| % 16 == 0 && 16 * k + 16 <= |p| && |done| == 16 * k
    requires block == XorBlock(p[16 * k..16 * k + 16], md5(secret + Before(authenticator, done, 16 * k)))
    ensures |block| == 16
    ensures HideFrom(md5, secret, authenticator, done, p, k)
         == block + HideFrom(md5, secret, authenticator, done + block, p, k + 1)
  {
    hide Hide, XorBlock;
    var i := 16 * k;
    WholeBlocks(|p|, k);
    WholeBlocks(|p|, k + 1);
    HideStep(md5, secret, Before(authenticator, done, i), p[i..]);
    assert p[i..][..16] == p[i..i + 16] && p[i..][16..] == p[i + 16..];
    assert (done + block)[i..i + 16] == block;
  }

  lemma {:induction false} HideFromEnds(md5: Hash, secret: seq<byte>, authenticator: Digest, done: seq<byte>,
                                        p: seq<byte>)
    requires |p| % 16 == 0
    ensures HideFrom(md5, secret, authenticator, [], p, 0) == Hide(md5, secret, authenticator, p)
    ensures |done| == |p| ==> |p| == 16 * (|p| / 16) && HideFrom(md5, secret, authenticator, done, p, |p| / 16) == []
  {
    assert p[0..] == p;
  }

  /** One round of the forward loop: the block at i, from the hidden block before it. */
  method EncodeBlock(md5: Hash, secret: seq<byte>, authenticator: Digest, p: seq<byte>, i: nat, out: array<byte>)
    requires (i == 0 || i >= 16) && i + 16 <= |p| <= out.Length
    modifies out
    ensures out[..i] == old(out[..i]) && out[i + 16..] == old(out[i + 16..])
    ensures out[i..i + 16] == XorBlock(p[i..i + 16], md5(secret + Before(authenticator, old(out[..i]), i)))
  {
    hide XorBlock;
    var hashInput := secret;
    if i > 0 {
      hashInput := hashInput + out[i - 16..i];
    } else {
      hashInput := hashInput + authenticator;
    }
    assert hashInput == secret + Before(authenticator, out[..i], i);
    var b := md5(hashInput);
    XorInto(p, b, i, out);
  }

  /** The forward loop reads back what it has just written. */
  method EncodeUserPassword(md5: Hash, secret: seq<byte>, authenticator: Digest,
                            oldPassword: seq<byte>, newPassword: array<byte>)
    requires |secret| < 256 && |oldPassword| % 16 == 0 && |oldPassword| <= newPassword.Length
    modifies newPassword
    ensures newPassword[..] == Hide(md5, secret, authenticator, oldPassword) + old(newPassword[|oldPassword|..])
    ensures IsChain(md5, secret, authenticator, oldPassword, newPassword[..|oldPassword|])
  {
    hide Hide, HideFrom, XorBlock, IsChain;
    var n, p := |oldPassword|, oldPassword;
    ghost var hidden, rest, k := Hide(md5, secret, authenticator, p), newPassword[n..], 0;
    HideFromEnds(md5, secret, authenticator, [], p);
    WholeBlocks(n, 0);
    assert newPassword[..0] == [];
    var i := 0;
    while i < n
      invariant i == 16 * k && 0 <= k && 16 * k <= n && n == 16 * (n / 16)
      invariant hidden == newPassword[..i] + HideFrom(md5, secret, authenticator, newPassword[..i], p, k)
      invariant newPassword[n..] == rest
    {
      ghost var done, was := newPassword[..i], newPassword[..];
      EncodeBlock(md5, secret, authenticator, p, i, newPassword);
      ghost var block := newPassword[i..i + 16];
      HideFromStep(md5, secret, authenticator, done, p, k, block);
      SameFrom(newPassword[..], was, i + 16, n);
      assert newPassword[..i + 16] == done + block;
      i := i + 16;
      k := k + 1;
    }
    HideFromEnds(md5, secret, authenticator, newPassword[..n], p);
    HideIsChain(md5, secret, authenticator, p);
    assert newPassword[..n] == hidden;
    assert newPassword[..] == newPassword[..n] + newPassword[n..];
  }

  /** What the blocks from k on hide. */
  ghost function RevealFrom(md5: Hash, secret: seq<byte>, authenticator: Digest, p: seq<byte>, k: nat): (r: seq<byte>)
    requires |p| % 16 == 0 && 16 * k <= |p|
    ensures |r| == |p| - 16 * k
  {
    WholeBlocks(|p|, k);
    Reveal(md5, secret, Before(authenticator, p, 16 * k), p[16 * k..])
  }

  lemma {:induction false} RevealFromStep(md5: Hash, secret: seq<byte>, authenticator: Digest, p: seq<byte>, k: nat)
    requires |p| % 16 == 0 && 16 * k + 16 <= |p|
    ensures var i := 16 * k;
      RevealFrom(md5, secret, authenticator, p, k)
      == XorBlock(p[i..i + 16], md5(secret + Before(authenticator, p, i)))
         + RevealFrom(md5, secret, authenticator, p, k + 1)
  {
    hide Reveal, XorBlock;
    var i := 16 * k;
    WholeBlocks(|p|, k);
    WholeBlocks(|p|, k + 1);
    RevealStep(md5, secret, Before(authenticator, p, i), p[i..]);
    assert p[i..][..16] == p[i..i + 16] && p[i..][16..] == p[i + 16..];
  }

  lemma {:induction false} RevealFromEnds(md5: Hash, secret: seq<byte>, authenticator: Digest, p: seq<byte>)
    requires |p| % 16 == 0
    ensures RevealFrom(md5, secret, authenticator, p, 0) == Reveal(md5, secret, authenticator, p)
    ensures RevealFrom(md5, secret, authenticator, p, |p| / 16) == []
  {
    assert p[0..] == p;
  }

  lemma {:induction false} SameFrom(a: seq<byte>, b: seq<byte>, i: nat, n: nat)
    requires i <= n <= |a| == |b| && a[i..] == b[i..]
    ensures a[i..n] == b[i..n] && a[n..] == b[n..]
  {
    assert a[i..n] == a[i..][..n - i] && a[n..] == a[i..][n - i..];
    assert b[i..n] == b[i..][..n - i] && b[n..] == b[i..][n - i..];
  }

  /** One round of the backward loop: the block at i, in front of what stands behind it. */
  method DecodeBlock(md5: Hash, secret: seq<byte>, authenticator: Digest, p: seq<byte>, i: nat, out: array<byte>)
    requires (i == 0 || i >= 16) && i + 16 <= |p| <= out.Length
    modifies out
    ensures out[i..|p|] == XorBlock(p[i..i + 16], md5(secret + Before(authenticator, p, i))) + old(out[i + 16..|p|])
    ensures out[|p|..] == old(out[|p|..])
  {
    hide XorBlock;
    ghost var n, was := |p|, out[..];
    var hashInput := secret;
    if i > 0 {
      hashInput := hashInput + p[i - 16..i];
    } else {
      hashInput := hashInput + authenticator;
    }
    var b := md5(hashInput);
    XorInto(p, b, i, out);
    SameFrom(out[..], was, i + 16, n);
    assert out[i..n] == out[i..i + 16] + out[i + 16..n];
  }

  /** The backward loop reads only what was given. */
  method DecodeUserPassword(md5: Hash, secret: seq<byte>, authenticator: Digest,
                            oldPassword: seq<byte>, newPassword: array<byte>)
    requires |secret| < 256 && |oldPassword| % 16 == 0 && |oldPassword| <= newPassword.Length
    modifies newPassword
    ensures newPassword[..] == Reveal(md5, secret, authenticator, oldPassword) + old(newPassword[|oldPassword|..])
    ensures IsChain(md5, secret, authenticator, newPassword[..|oldPassword|], oldPassword)
  {
    hide Reveal, RevealFrom, XorBlock, IsChain;
    var n, p := |oldPassword|, oldPassword;
    RevealFromEnds(md5, secret, authenticator, p);
    WholeBlocks(n, 0);
    ghost var k, rest := n / 16, newPassword[n..];
    var i := n - 16;
    while i >= 0
      invariant i == 16 * k - 16 && 0 <= 16 * k <= n
      invariant newPassword[16 * k..n] == RevealFrom(md5, secret, authenticator, p, k)
      invariant newPassword[n..] == rest
    {
      k := k - 1;
      RevealFromStep(md5, secret, authenticator, p, k);
      DecodeBlock(md5, secret, authenticator, p, i, newPassword);
      i := i - 16;
    }
    RevealIsChain(md5, secret, authenticator, p);
    assert newPassword[..] == newPassword[..n] + newPassword[n..];
  }
}
