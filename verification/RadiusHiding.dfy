/** hideUserPassword of radius/RadiusMessage.cxx on any list of attributes: what its loop
    makes of the body, and the lists for which that is the body with every password
    hidden. */
module RadiusHiding {
  import opened Bytes
  import opened RadiusPassword
  import opened RadiusAttributes
  import opened RadiusMessages

  const BODY_LIMIT := RADIUS_MAX_PACKET_SIZE - HEADER_SIZE

  predicate IsPassword(list: seq<RadiusAttribute>, i: int) {
    0 <= i < |list| && list[i].typ == RA_USER_PASSWORD
  }

  /** The index of the first password, or the length of the list. */
  function FirstPassword(list: seq<RadiusAttribute>, from: nat := 0): (k: nat)
    requires from <= |list|
    ensures from <= k <= |list| && (k < |list| ==> IsPassword(list, k))
    decreases |list| - from
  {
    if from == |list| || IsPassword(list, from) then from else FirstPassword(list, from + 1)
  }

  lemma {:induction false} FirstPasswordIsFirst(list: seq<RadiusAttribute>, from: nat, i: nat)
    requires from <= i && IsPassword(list, i)
    ensures FirstPassword(list, from) <= i
    decreases i - from
  {
    if !IsPassword(list, from) {
      FirstPasswordIsFirst(list, from + 1, i);
    }
  }

  /** Where the attribute at an index starts in the body. */
  function OffsetOf(list: seq<RadiusAttribute>, i: nat): nat
    requires i <= |list|
  {
    if i == 0 then 0 else OffsetOf(list, i - 1) + list[i - 1].Length()
  }

  /** Where the loop believes it to start: passwords do not advance its offset. */
  function LoopOffset(list: seq<RadiusAttribute>, i: nat): nat
    requires i <= |list|
  {
    if i == 0 then 0
    else LoopOffset(list, i - 1) + if IsPassword(list, i - 1) then 0 else list[i - 1].Length()
  }

  /** memcpy, where it stays inside. */
  function Spliced(body: seq<byte>, at: nat, s: seq<byte>): (r: seq<byte>)
    ensures |r| == |body|
  {
    if at + |s| <= |body| then Splice(body, at, s) else body
  }

  /** The body after the first i attributes: every password among them has had the hidden
      octets written at the offset of the loop. */
  function Overwritten(list: seq<RadiusAttribute>, hidden: seq<byte>, body: seq<byte>, i: nat): (r: seq<byte>)
    requires i <= |list|
    ensures |r| == |body|
  {
    if i == 0 then body else
      var before := Overwritten(list, hidden, body, i - 1);
      if IsPassword(list, i - 1) then Spliced(before, LoopOffset(list, i - 1) + 2, hidden) else before
  }

  /** The value of the first password, if any. */
  function FirstValue(list: seq<RadiusAttribute>): (v: seq<byte>)
    ensures AllWellFormed(list) ==> |v| % 16 == 0
  {
    var k := FirstPassword(list);
    if k == |list| then [] else
      assert list[k] in list;
      list[k].value
  }

  /** What the loop makes of a body: wherever it meets a password it writes the first one,
      hidden. */
  function HiddenOver(c: Context, list: seq<RadiusAttribute>, body: seq<byte>): (r: seq<byte>)
    requires AllWellFormed(list)
    ensures |r| == |body|
  {
    Overwritten(list, Hide(c.md5, c.secret, c.authenticator, FirstValue(list)), body, |list|)
  }

  /** What it makes of a list that has just been composed. */
  function HiddenByLoop(c: Context, list: seq<RadiusAttribute>): (body: seq<byte>)
    requires AllWellFormed(list)
    ensures |body| == |EncodeAll(list)|
  {
    HiddenOver(c, list, EncodeAll(list))
  }

  // ----- Offsets -----

  lemma {:induction false} OffsetIsLength(list: seq<RadiusAttribute>, i: nat)
    requires i <= |list| && AllWellFormed(list)
    ensures OffsetOf(list, i) == |EncodeAll(list[..i])|
  {
    hide EncodeAll, OffsetOf, RadiusAttribute.Bytes, RadiusAttribute.Length, RadiusAttribute.WellFormed;
    if i == 0 {
      NothingIsEmpty(list);
    } else {
      OffsetIsLength(list, i - 1);
      EncodeNext(list, i - 1);
      NextOffset(list, i - 1);
    }
  }

  lemma {:induction false} NothingIsEmpty(list: seq<RadiusAttribute>)
    ensures OffsetOf(list, 0) == |EncodeAll(list[..0])|
  {}

  lemma {:induction false} EncodeNext(list: seq<RadiusAttribute>, i: nat)
    requires i < |list| && AllWellFormed(list)
    ensures |EncodeAll(list[..i + 1])| == |EncodeAll(list[..i])| + list[i].Length()
  {
    hide EncodeAll, RadiusAttribute.Header, RadiusAttribute.Length, RadiusAttribute.WellFormed;
    var a := list[i];
    assert a in list && list[..i + 1] == list[..i] + [a];
    EncodeAllAppends(list[..i], [a]);
    EncodeOne(a);
  }

  lemma {:induction false} EncodeOne(a: RadiusAttribute)
    ensures EncodeAll([a]) == a.Bytes()
  {
    assert EncodeAll([a]) == a.Bytes() + EncodeAll([]);
  }

  lemma {:induction false} OffsetsGrow(list: seq<RadiusAttribute>, i: nat, j: nat)
    requires i <= j <= |list|
    ensures OffsetOf(list, i) <= OffsetOf(list, j) && LoopOffset(list, i) <= LoopOffset(list, j)
    ensures i < j ==> OffsetOf(list, i) + 2 <= OffsetOf(list, j)
  {
    if i < j {
      OffsetsGrow(list, i, j - 1);
    }
  }

  lemma {:induction false} NextOffset(list: seq<RadiusAttribute>, j: nat)
    requires j < |list|
    ensures OffsetOf(list, j + 1) == OffsetOf(list, j) + list[j].Length()
  {}

  /** The loop falls behind by the passwords it has passed. */
  lemma {:induction false} LoopFallsBehind(list: seq<RadiusAttribute>, k: nat, i: nat)
    requires k < i <= |list| && AllWellFormed(list) && IsPassword(list, k)
    ensures LoopOffset(list, i) + 2 + |list[k].value| <= OffsetOf(list, i)
  {
    if i - 1 == k {
      LoopIsBehind(list, k);
      assert list[k] in list;
    } else {
      LoopFallsBehind(list, k, i - 1);
    }
  }

  lemma {:induction false} LoopIsBehind(list: seq<RadiusAttribute>, i: nat)
    requires i <= |list|
    ensures LoopOffset(list, i) <= OffsetOf(list, i)
  {
    if i > 0 {
      LoopIsBehind(list, i - 1);
    }
  }

  /** Every write stays inside the body. */
  lemma {:induction false} WritesFit(list: seq<RadiusAttribute>, i: nat)
    requires AllWellFormed(list) && IsPassword(list, i)
    ensures LoopOffset(list, i) + 2 + |FirstValue(list)| <= OffsetOf(list, |list|)
  {
    hide LoopOffset, FirstPassword;
    var k := FirstPassword(list);
    FirstPasswordIsFirst(list, 0, i);
    assert list[i] in list;
    if k < i {
      LoopFallsBehind(list, k, i);
    } else {
      LoopIsBehind(list, i);
    }
    OffsetsGrow(list, i, |list|);
    OffsetsGrow(list, i + 1, |list|);
    NextOffset(list, i);
  }

  /** The attribute that an octet of the body belongs to. */
  function Holder(list: seq<RadiusAttribute>, p: nat, i: nat): (j: nat)
    requires i <= |list| && p < OffsetOf(list, i)
    ensures j < i && OffsetOf(list, j) <= p < OffsetOf(list, j + 1)
  {
    if OffsetOf(list, i - 1) <= p then i - 1 else Holder(list, p, i - 1)
  }

  lemma {:induction false} HolderIsUnique(list: seq<RadiusAttribute>, p: nat, j: nat)
    requires j < |list| && OffsetOf(list, j) <= p < OffsetOf(list, j + 1) && p < OffsetOf(list, |list|)
    ensures Holder(list, p, |list|) == j
  {
    var h := Holder(list, p, |list|);
    if h < j {
      OffsetsGrow(list, h + 1, j);
    } else if j < h {
      OffsetsGrow(list, j + 1, h);
    }
  }

  /** The octet is one of a password's value. */
  predicate InPassword(list: seq<RadiusAttribute>, p: nat)
    requires p < OffsetOf(list, |list|)
  {
    var j := Holder(list, p, |list|);
    IsPassword(list, j) && OffsetOf(list, j) + 2 <= p
  }

  /** The last of the first i attributes at which the loop writes octet p, or none. */
  function Writer(list: seq<RadiusAttribute>, n: nat, p: nat, i: nat): (w: int)
    requires i <= |list|
    ensures -1 <= w < i
    ensures w >= 0 ==> IsPassword(list, w) && LoopOffset(list, w) + 2 <= p < LoopOffset(list, w) + 2 + n
  {
    if i == 0 then -1
    else if IsPassword(list, i - 1) && LoopOffset(list, i - 1) + 2 <= p < LoopOffset(list, i - 1) + 2 + n then i - 1
    else Writer(list, n, p, i - 1)
  }

  lemma {:induction false} WriterIsLast(list: seq<RadiusAttribute>, n: nat, p: nat, i: nat, u: nat)
    requires u < i <= |list| && IsPassword(list, u) && LoopOffset(list, u) + 2 <= p < LoopOffset(list, u) + 2 + n
    ensures u <= Writer(list, n, p, i)
  {
    hide LoopOffset;
    if u < i - 1 {
      WriterIsLast(list, n, p, i - 1, u);
    }
  }

  // ----- Octet by octet -----

  lemma {:induction false} OverwrittenAt(list: seq<RadiusAttribute>, hidden: seq<byte>, body: seq<byte>, i: nat, p: nat)
    requires AllWellFormed(list) && i <= |list| && p < |body| == OffsetOf(list, |list|)
    requires |hidden| == |FirstValue(list)|
    ensures var w := Writer(list, |hidden|, p, i);
      Overwritten(list, hidden, body, i)[p] == if w < 0 then body[p] else hidden[p - LoopOffset(list, w) - 2]
  {
    hide LoopOffset, OffsetOf, FirstValue, AllWellFormed, Spliced;
    if i > 0 {
      OverwrittenAt(list, hidden, body, i - 1, p);
      if IsPassword(list, i - 1) {
        WritesFit(list, i - 1);
        SplicedAt(Overwritten(list, hidden, body, i - 1), LoopOffset(list, i - 1) + 2, hidden, p);
      }
    }
  }

  lemma {:induction false} SplicedAt(body: seq<byte>, at: nat, s: seq<byte>, p: nat)
    requires at + |s| <= |body| && p < |body|
    ensures Spliced(body, at, s)[p] == if at <= p < at + |s| then s[p - at] else body[p]
  {}

  /** The octets of the attribute at an index, in place. */
  lemma {:induction false} AttributeAt(list: seq<RadiusAttribute>, j: nat, p: nat)
    requires AllWellFormed(list) && j < |list| && OffsetOf(list, j) <= p < OffsetOf(list, j + 1)
    ensures |EncodeAll(list)| == OffsetOf(list, |list|) > p && |list[j].Bytes()| == list[j].Length()
    ensures EncodeAll(list)[p] == list[j].Bytes()[p - OffsetOf(list, j)]
  {
    hide EncodeAll, RadiusAttribute.Header;
    var (xs, a, ys) := (list[..j], list[j], list[j + 1..]);
    assert a in list && list == xs + [a] + ys;
    EncodeAllAround(xs, a, ys);
    OffsetIsLength(list, j);
    OffsetIsLength(list, |list|);
    assert list[..|list|] == list;
    OffsetsGrow(list, j + 1, |list|);
  }

  lemma {:induction false} HiddenAt(c: Context, list: seq<RadiusAttribute>, j: nat)
    requires AllWellFormed(list) && j < |list|
    ensures list[j].WellFormed() && HiddenAll(c, list)[j] == Hidden(c, list[j])
    decreases |list|
  {
    assert list[j] in list;
    if j > 0 {
      assert list[1..][j - 1] == list[j] && forall a :: a in list[1..] ==> a in list;
      HiddenAt(c, list[1..], j - 1);
    }
  }

  lemma {:induction false} HiddenOffsets(c: Context, list: seq<RadiusAttribute>, i: nat)
    requires AllWellFormed(list) && i <= |list|
    ensures OffsetOf(HiddenAll(c, list), i) == OffsetOf(list, i)
  {
    if i > 0 {
      HiddenOffsets(c, list, i - 1);
      HiddenAt(c, list, i - 1);
    }
  }

  /** Hiding every password changes the octets of their values and no others. */
  lemma {:induction false} ExpectedAt(c: Context, list: seq<RadiusAttribute>, p: nat)
    requires AllWellFormed(list) && p < OffsetOf(list, |list|)
    ensures |EncodeAll(list)| == |EncodeAll(HiddenAll(c, list))| == OffsetOf(list, |list|)
    ensures var j, plain := Holder(list, p, |list|), EncodeAll(list);
      var m := p - OffsetOf(list, j) - 2;
      list[j].WellFormed() &&
      if InPassword(list, p) then
        && 0 <= m < |list[j].value| && plain[p] == list[j].value[m]
        && EncodeAll(HiddenAll(c, list))[p] == Hide(c.md5, c.secret, c.authenticator, list[j].value)[m]
      else
        EncodeAll(HiddenAll(c, list))[p] == plain[p]
  {
    hide HiddenAll, Hidden, EncodeAll, RadiusAttribute.Bytes, RadiusAttribute.Length, OffsetOf, Hide,
         RadiusAttribute.WellFormed, Holder, AllWellFormed;
    var j := Holder(list, p, |list|);
    BothAt(c, list, j, p);
    HiddenOctet(c, list[j], p - OffsetOf(list, j));
  }

  /** An octet of an attribute, as it is encoded plain and hidden. */
  lemma {:induction false} BothAt(c: Context, list: seq<RadiusAttribute>, j: nat, p: nat)
    requires AllWellFormed(list) && j < |list| && OffsetOf(list, j) <= p < OffsetOf(list, j + 1)
    ensures |EncodeAll(list)| == |EncodeAll(HiddenAll(c, list))| == OffsetOf(list, |list|) > p
    ensures list[j].WellFormed() && OffsetOf(list, j + 1) == OffsetOf(list, j) + list[j].Length()
    ensures var o, a := p - OffsetOf(list, j), list[j];
      && o < |a.Bytes()| && EncodeAll(list)[p] == a.Bytes()[o]
      && o < |Hidden(c, a).Bytes()| && EncodeAll(HiddenAll(c, list))[p] == Hidden(c, a).Bytes()[o]
  {
    hide HiddenAll, Hidden, EncodeAll, RadiusAttribute.Bytes, RadiusAttribute.Length, OffsetOf,
         RadiusAttribute.WellFormed, AllWellFormed;
    var hs := HiddenAll(c, list);
    HiddenAt(c, list, j);
    HiddenOffsets(c, list, j);
    HiddenOffsets(c, list, j + 1);
    HiddenOffsets(c, list, |list|);
    NextOffset(list, j);
    AttributeAt(list, j, p);
    AttributeAt(hs, j, p);
  }

  lemma {:induction false} HiddenOctet(c: Context, a: RadiusAttribute, o: nat)
    requires a.WellFormed() && o < a.Length()
    ensures |a.Bytes()| == |Hidden(c, a).Bytes()| == a.Length()
    ensures if a.typ == RA_USER_PASSWORD && o >= 2 then
        && o - 2 < |a.value| && a.Bytes()[o] == a.value[o - 2]
        && Hidden(c, a).Bytes()[o] == Hide(c.md5, c.secret, c.authenticator, a.value)[o - 2]
      else
        Hidden(c, a).Bytes()[o] == a.Bytes()[o]
  {
    hide Hide;
    assert Hidden(c, a).Header() == a.Header();
  }

  /** What the loop leaves at an octet. */
  lemma {:induction false} LeftAt(c: Context, list: seq<RadiusAttribute>, p: nat)
    requires AllWellFormed(list) && p < OffsetOf(list, |list|)
    ensures |EncodeAll(list)| == |HiddenByLoop(c, list)| == OffsetOf(list, |list|)
    ensures var v := FirstValue(list);
      var w := Writer(list, |v|, p, |list|);
      HiddenByLoop(c, list)[p] ==
        if w < 0 then EncodeAll(list)[p] else Hide(c.md5, c.secret, c.authenticator, v)[p - LoopOffset(list, w) - 2]
  {
    hide AllWellFormed, FirstValue;
    OffsetIsLength(list, |list|);
    assert list[..|list|] == list;
    OverwrittenAt(list, Hide(c.md5, c.secret, c.authenticator, FirstValue(list)), EncodeAll(list), |list|, p);
  }

  /** Hiding again, under another hash, secret or authenticator, leaves nothing of the first
      time. */
  lemma {:induction false} HidingForgets(c: Context, c': Context, list: seq<RadiusAttribute>, body: seq<byte>)
    requires AllWellFormed(list) && |body| == OffsetOf(list, |list|)
    ensures HiddenOver(c', list, HiddenOver(c, list, body)) == HiddenOver(c', list, body)
  {
    hide Hide, FirstValue, OffsetOf, LoopOffset, AllWellFormed, Overwritten;
    var v, n := FirstValue(list), |list|;
    var h, h' := Hide(c.md5, c.secret, c.authenticator, v), Hide(c'.md5, c'.secret, c'.authenticator, v);
    var once := Overwritten(list, h, body, n);
    forall p | 0 <= p < |body| ensures Overwritten(list, h', once, n)[p] == Overwritten(list, h', body, n)[p] {
      OverwrittenAt(list, h, body, n, p);
      OverwrittenAt(list, h', once, n, p);
      OverwrittenAt(list, h', body, n, p);
    }
  }

  // ----- The lists for which the loop is right -----

  /** A password that is not empty starts here. */
  predicate FullPasswordAt(list: seq<RadiusAttribute>, o: nat) {
    exists j :: 0 <= j < |list| && IsPassword(list, j) && list[j].value != [] && OffsetOf(list, j) == o
  }

  /** The loop writes a password here. */
  predicate WrittenAt(list: seq<RadiusAttribute>, o: nat) {
    exists i :: 0 <= i < |list| && IsPassword(list, i) && LoopOffset(list, i) == o
  }

  /** Every password is empty or has the value of the first, and the loop writes exactly
      where those that are not empty stand. */
  predicate LinesUp(list: seq<RadiusAttribute>) {
    var v := FirstValue(list);
    && (forall j :: 0 <= j < |list| && IsPassword(list, j) ==> list[j].value == [] || list[j].value == v)
    && (v != [] ==>
          && (forall i :: 0 <= i < |list| && IsPassword(list, i) ==> FullPasswordAt(list, LoopOffset(list, i)))
          && (forall j :: 0 <= j < |list| && IsPassword(list, j) && list[j].value != [] ==>
                WrittenAt(list, OffsetOf(list, j))))
  }

  lemma {:induction false} LinesUpAtWrite(list: seq<RadiusAttribute>, w: nat) returns (j: nat)
    requires LinesUp(list) && IsPassword(list, w) && FirstValue(list) != []
    ensures IsPassword(list, j) && list[j].value == FirstValue(list) && OffsetOf(list, j) == LoopOffset(list, w)
  {
    hide OffsetOf, LoopOffset, FirstValue;
    assert FullPasswordAt(list, LoopOffset(list, w));
    j :| 0 <= j < |list| && IsPassword(list, j) && list[j].value != [] && OffsetOf(list, j) == LoopOffset(list, w);
  }

  lemma {:induction false} LinesUpAtPassword(list: seq<RadiusAttribute>, j: nat) returns (i: nat)
    requires LinesUp(list) && IsPassword(list, j) && list[j].value != []
    ensures IsPassword(list, i) && LoopOffset(list, i) == OffsetOf(list, j) && list[j].value == FirstValue(list)
  {
    hide OffsetOf, LoopOffset, FirstValue;
    assert WrittenAt(list, OffsetOf(list, j));
    i :| 0 <= i < |list| && IsPassword(list, i) && LoopOffset(list, i) == OffsetOf(list, j);
  }

  lemma {:induction false} PasswordLength(list: seq<RadiusAttribute>, j: nat)
    requires AllWellFormed(list) && IsPassword(list, j)
    ensures list[j].WellFormed() && |list[j].value| % 16 == 0 && list[j].Length() == 2 + |list[j].value|
  {
    assert list[j] in list;
  }

  /** A write lands on the octet of a password with the same value. */
  lemma {:induction false} LinedUpWriter(list: seq<RadiusAttribute>, p: nat, w: nat)
    requires AllWellFormed(list) && LinesUp(list) && p < OffsetOf(list, |list|) && IsPassword(list, w)
    requires LoopOffset(list, w) + 2 <= p < LoopOffset(list, w) + 2 + |FirstValue(list)|
    ensures InPassword(list, p)
    ensures var h := Holder(list, p, |list|);
      list[h].value == FirstValue(list) && OffsetOf(list, h) == LoopOffset(list, w)
  {
    hide OffsetOf, LoopOffset, LinesUp, AllWellFormed, RadiusAttribute.Length, FirstValue;
    var j := LinesUpAtWrite(list, w);
    PasswordLength(list, j);
    NextOffset(list, j);
    HolderIsUnique(list, p, j);
  }

  /** An octet that is not written is not a password's. */
  lemma {:induction false} LinedUpUnwritten(list: seq<RadiusAttribute>, p: nat)
    requires AllWellFormed(list) && LinesUp(list) && p < OffsetOf(list, |list|)
    requires Writer(list, |FirstValue(list)|, p, |list|) < 0
    ensures !InPassword(list, p)
  {
    var h := Holder(list, p, |list|);
    assert list[h] in list;
    hide OffsetOf, LoopOffset, LinesUp, AllWellFormed, FirstValue, Writer;
    NextOffset(list, h);
    if InPassword(list, p) {
      var i := LinesUpAtPassword(list, h);
      WriterIsLast(list, |FirstValue(list)|, p, |list|, i);
      assert false;
    }
  }

  lemma {:induction false} LinedUpAt(c: Context, list: seq<RadiusAttribute>, p: nat)
    requires AllWellFormed(list) && LinesUp(list) && p < OffsetOf(list, |list|)
    requires |HiddenByLoop(c, list)| == |EncodeAll(HiddenAll(c, list))| == OffsetOf(list, |list|)
    ensures HiddenByLoop(c, list)[p] == EncodeAll(HiddenAll(c, list))[p]
  {
    hide HiddenByLoop, EncodeAll, HiddenAll, Hide, LinesUp, AllWellFormed, OffsetOf, LoopOffset, InPassword, FirstValue;
    ExpectedAt(c, list, p);
    LeftAt(c, list, p);
    var w := Writer(list, |FirstValue(list)|, p, |list|);
    if w >= 0 {
      LinedUpWriter(list, p, w);
    } else {
      LinedUpUnwritten(list, p);
    }
  }

  /** On such a list the loop hides every password, under every hash. */
  lemma {:induction false} LinedUpIsHidden(c: Context, list: seq<RadiusAttribute>)
    requires AllWellFormed(list) && LinesUp(list)
    ensures HiddenByLoop(c, list) == EncodeAll(HiddenAll(c, list))
  {
    hide HiddenByLoop, EncodeAll, HiddenAll, Hide, LinesUp, OffsetOf;
    SizesAgree(c, list);
    var left, right := HiddenByLoop(c, list), EncodeAll(HiddenAll(c, list));
    forall p | 0 <= p < |left| ensures left[p] == right[p] {
      LinedUpAt(c, list, p);
    }
  }

  lemma {:induction false} SizesAgree(c: Context, list: seq<RadiusAttribute>)
    requires AllWellFormed(list)
    ensures |HiddenByLoop(c, list)| == |EncodeAll(HiddenAll(c, list))| == |EncodeAll(list)| == OffsetOf(list, |list|)
  {
    OffsetIsLength(list, |list|);
    assert list[..|list|] == list;
    HiddenOffsets(c, list, |list|);
    OffsetIsLength(HiddenAll(c, list), |list|);
    assert HiddenAll(c, list)[..|list|] == HiddenAll(c, list);
  }

  // ----- Hashes that tell octets apart -----

  /** A hash with one value for the block that follows the authenticator and another for
      all others. */
  function TwoMasks(secret: seq<byte>, authenticator: Digest, first: Digest, others: Digest): Hash {
    x => if x == secret + authenticator then first else others
  }

  function MaskAt(first: Digest, others: Digest, m: nat): byte {
    if m < 16 then first[m] else others[m % 16]
  }

  /** No hidden block of v is the authenticator. */
  predicate Avoids(v: seq<byte>, authenticator: Digest, first: Digest, others: Digest)
    requires |v| % 16 == 0
    decreases |v|
  {
    v == [] ||
    (XorBlock(v[..16], first) != authenticator && Avoids(v[16..], authenticator, others, others))
  }

  /** All blocks but the one that follows the authenticator are hidden under one mask. */
  ghost predicate MasksOthers(md5: Hash, secret: seq<byte>, authenticator: Digest, others: Digest) {
    forall d: Digest :: d != authenticator ==> md5(secret + d) == others
  }

  lemma {:induction false} TwoMasksAreMasks(secret: seq<byte>, authenticator: Digest, first: Digest, others: Digest)
    ensures TwoMasks(secret, authenticator, first, others)(secret + authenticator) == first
    ensures MasksOthers(TwoMasks(secret, authenticator, first, others), secret, authenticator, others)
  {
    forall d: Digest | d != authenticator
      ensures TwoMasks(secret, authenticator, first, others)(secret + d) == others
    {
      assert (secret + d)[|secret|..] == d && (secret + authenticator)[|secret|..] == authenticator;
    }
  }

  /** Under such a hash hiding is a mask: one for the block at the head, then the other. */
  lemma {:induction false} HideIsMask(md5: Hash, secret: seq<byte>, authenticator: Digest, prev: Digest, head: Digest,
                                      others: Digest, v: seq<byte>, m: nat)
    requires |v| % 16 == 0 && m < |v| && Avoids(v, authenticator, head, others)
    requires md5(secret + prev) == head && MasksOthers(md5, secret, authenticator, others)
    ensures Hide(md5, secret, prev, v)[m] == Xor(v[m], MaskAt(head, others, m))
    decreases |v|
  {
    hide Hide, Xor, MasksOthers;
    HideBySteps(md5, secret, prev, v, m);
    var c := XorBlock(v[..16], head);
    if m >= 16 {
      MaskOfOthers(md5, secret, authenticator, others, c);
      HideIsMask(md5, secret, authenticator, c, others, others, v[16..], m - 16);
    }
  }

  lemma {:induction false} MaskOfOthers(md5: Hash, secret: seq<byte>, authenticator: Digest, others: Digest, d: Digest)
    requires MasksOthers(md5, secret, authenticator, others) && d != authenticator
    ensures md5(secret + d) == others
  {}

  lemma {:induction false} HideBySteps(md5: Hash, secret: seq<byte>, prev: Digest, v: seq<byte>, m: nat)
    requires |v| % 16 == 0 && m < |v|
    ensures var c := XorBlock(v[..16], md5(secret + prev));
      Hide(md5, secret, prev, v)[m] == if m < 16 then c[m] else Hide(md5, secret, c, v[16..])[m - 16]
  {
    HideStep(md5, secret, prev, v);
  }

  /** The octets at place p of the blocks of v, less the authenticator's. */
  function Forbidden(v: seq<byte>, authenticator: Digest, p: nat): (xs: seq<byte>)
    requires |v| % 16 == 0 && p < 16
    ensures 16 * |xs| == |v|
    decreases |v|
  {
    if v == [] then [] else [Xor(v[p], authenticator[p])] + Forbidden(v[16..], authenticator, p)
  }

  lemma {:induction false} UnforbiddenAvoids(v: seq<byte>, authenticator: Digest, p: nat, first: Digest, others: Digest)
    requires |v| % 16 == 0 && p < 16 && first[p] == others[p] && first[p] !in Forbidden(v, authenticator, p)
    ensures Avoids(v, authenticator, first, others)
    decreases |v|
  {
    if v != [] {
      var b := v[..16];
      assert b[p] == v[p];
      assert first[p] != Xor(v[p], authenticator[p]);
      XorSolves(v[p], first[p], 0);
      assert XorBlock(b, first)[p] == Xor(v[p], first[p]);
      UnforbiddenAvoids(v[16..], authenticator, p, others, others);
    }
  }

  /** The same for every password of a list. */
  function ForbiddenAll(list: seq<RadiusAttribute>, authenticator: Digest, p: nat, i: nat): (xs: seq<byte>)
    requires AllWellFormed(list) && p < 16 && i <= |list|
    ensures 16 * |xs| <= OffsetOf(list, i)
  {
    if i == 0 then [] else
      var xs := ForbiddenAll(list, authenticator, p, i - 1);
      if IsPassword(list, i - 1) then
        PasswordLength(list, i - 1);
        xs + Forbidden(list[i - 1].value, authenticator, p)
      else xs
  }

  lemma {:induction false} ForbidsEach(list: seq<RadiusAttribute>, authenticator: Digest, p: nat, i: nat, j: nat,
                                       x: byte)
    requires AllWellFormed(list) && p < 16 && j < i <= |list| && IsPassword(list, j)
    requires x !in ForbiddenAll(list, authenticator, p, i)
    ensures list[j].WellFormed() && x !in Forbidden(list[j].value, authenticator, p)
  {
    hide AllWellFormed, Forbidden;
    PasswordLength(list, j);
    if j < i - 1 {
      ForbidsEach(list, authenticator, p, i - 1, j, x);
    }
  }

  /** Fewer than n numbers leave out one below n. */
  lemma {:induction false} LeftOut(xs: seq<int>, n: nat) returns (x: nat)
    requires |xs| < n
    ensures x < n && x !in xs
    decreases n
  {
    if n - 1 !in xs {
      x := n - 1;
    } else {
      var i :| 0 <= i < |xs| && xs[i] == n - 1;
      x := LeftOut(xs[..i] + xs[i + 1..], n - 1);
      assert forall k :: 0 <= k < |xs| && k != i ==> xs[k] in xs[..i] + xs[i + 1..];
    }
  }

  /** The places that masks tell apart: the first block, and the others modulo 16. */
  predicate SameMask(m: nat, x: nat) {
    (m < 16 <==> x < 16) && m % 16 == x % 16
  }

  lemma {:induction false} FlippedDiffers(base: Digest, m: nat) returns (first: Digest, others: Digest)
    requires base[m % 16] == 0
    ensures forall x :: 0 <= x < 16 && x != m % 16 ==> first[x] == base[x] && others[x] == base[x]
    ensures forall x: nat :: MaskAt(base, base, x) == MaskAt(first, others, x) <==> !SameMask(m, x)
  {
    var flipped: Digest := base[m % 16 := 1];
    first, others := if m < 16 then flipped else base, if m < 16 then base else flipped;
    forall x: nat ensures MaskAt(base, base, x) == MaskAt(first, others, x) <==> !SameMask(m, x) {
      FlippedAt(base, flipped, m, x);
    }
  }

  lemma {:induction false} FlippedAt(base: Digest, flipped: Digest, m: nat, x: nat)
    requires base[m % 16] == 0 && flipped == base[m % 16 := 1]
    ensures base[x % 16] == flipped[x % 16] <==> m % 16 != x % 16
    ensures x < 16 ==> x % 16 == x
  {}

  /** Hiding v is masking it. */
  ghost predicate Masks(md5: Hash, secret: seq<byte>, authenticator: Digest, first: Digest, others: Digest,
                        v: seq<byte>) {
    |v| % 16 == 0 &&
    forall x :: 0 <= x < |v| ==> Hide(md5, secret, authenticator, v)[x] == Xor(v[x], MaskAt(first, others, x))
  }

  ghost predicate MasksAll(md5: Hash, secret: seq<byte>, authenticator: Digest, first: Digest, others: Digest,
                           list: seq<RadiusAttribute>)
  {
    forall j :: IsPassword(list, j) ==> Masks(md5, secret, authenticator, first, others, list[j].value)
  }

  lemma {:induction false} TwoMasksMask(secret: seq<byte>, authenticator: Digest, first: Digest, others: Digest,
                                        v: seq<byte>)
    requires |v| % 16 == 0 && Avoids(v, authenticator, first, others)
    ensures Masks(TwoMasks(secret, authenticator, first, others), secret, authenticator, first, others, v)
  {
    hide TwoMasks, MasksOthers, Hide, Xor, MaskAt, Avoids;
    var md5 := TwoMasks(secret, authenticator, first, others);
    TwoMasksAreMasks(secret, authenticator, first, others);
    forall x | 0 <= x < |v|
      ensures Hide(md5, secret, authenticator, v)[x] == Xor(v[x], MaskAt(first, others, x))
    {
      HideIsMask(md5, secret, authenticator, authenticator, first, others, v, x);
    }
  }

  lemma {:induction false} TwoMasksMaskAll(secret: seq<byte>, authenticator: Digest, first: Digest, others: Digest,
                                           list: seq<RadiusAttribute>, p: nat)
    requires AllWellFormed(list) && p < 16 && first[p] == others[p]
    requires first[p] !in ForbiddenAll(list, authenticator, p, |list|)
    ensures MasksAll(TwoMasks(secret, authenticator, first, others), secret, authenticator, first, others, list)
  {
    hide TwoMasks, Masks, Avoids, ForbiddenAll, AllWellFormed;
    forall j | IsPassword(list, j)
      ensures Masks(TwoMasks(secret, authenticator, first, others), secret, authenticator, first, others, list[j].value)
    {
      ForbidsEach(list, authenticator, p, |list|, j, first[p]);
      UnforbiddenAvoids(list[j].value, authenticator, p, first, others);
      TwoMasksMask(secret, authenticator, first, others, list[j].value);
    }
  }

  /** Two hashes that mask every password of a list alike but at one kind of place. */
  lemma {:induction false} TellApart(list: seq<RadiusAttribute>, secret: seq<byte>, authenticator: Digest, m: nat)
    returns (f: Hash, g: Hash, base: Digest, first: Digest, others: Digest)
    requires AllWellFormed(list) && |EncodeAll(list)| <= BODY_LIMIT
    ensures MasksAll(f, secret, authenticator, base, base, list)
      && MasksAll(g, secret, authenticator, first, others, list)
    ensures forall x: nat :: MaskAt(base, base, x) == MaskAt(first, others, x) <==> !SameMask(m, x)
  {
    hide TwoMasks, MasksAll, MaskAt, SameMask, ForbiddenAll;
    OffsetIsLength(list, |list|);
    assert list[..|list|] == list;
    var p := if m % 16 == 0 then 1 else 0;
    var y: byte := LeftOut(ForbiddenAll(list, authenticator, p, |list|), 256);
    base := Zeros(16)[p := y];
    first, others := FlippedDiffers(base, m);
    f, g := TwoMasks(secret, authenticator, base, base), TwoMasks(secret, authenticator, first, others);
    TwoMasksMaskAll(secret, authenticator, base, base, list, p);
    TwoMasksMaskAll(secret, authenticator, first, others, list, p);
  }

  // ----- No other lists -----

  /** The loop hides every password whatever the hash. */
  ghost predicate AlwaysHides(secret: seq<byte>, code: byte, authenticator: Digest, list: seq<RadiusAttribute>)
    requires AllWellFormed(list)
  {
    forall md5: Hash :: HidesUnder(Context(md5, secret, code, authenticator), list)
  }

  predicate HidesUnder(c: Context, list: seq<RadiusAttribute>)
    requires AllWellFormed(list)
  {
    HiddenByLoop(c, list) == EncodeAll(HiddenAll(c, list))
  }

  /** An octet written is a password's, and comes from the like place of the first. */
  predicate OriginsAgree(list: seq<RadiusAttribute>, p: nat)
    requires p < OffsetOf(list, |list|)
  {
    var v, h := FirstValue(list), Holder(list, p, |list|);
    var w := Writer(list, |v|, p, |list|);
    if w < 0 then !InPassword(list, p) else
      InPassword(list, p) &&
      var (m, x) := (p - OffsetOf(list, h) - 2, p - LoopOffset(list, w) - 2);
      SameMask(m, x) && m < |list[h].value| && list[h].value[m] == v[x]
  }

  lemma {:induction false} FirstValueIsMasked(md5: Hash, secret: seq<byte>, authenticator: Digest, first: Digest,
                                              others: Digest, list: seq<RadiusAttribute>, w: nat)
    requires MasksAll(md5, secret, authenticator, first, others, list) && IsPassword(list, w)
    ensures Masks(md5, secret, authenticator, first, others, FirstValue(list))
  {
    hide Masks;
    FirstPasswordIsFirst(list, 0, w);
    assert IsPassword(list, FirstPassword(list));
  }

  /** How far an octet is into the value it belongs to, and into the value written there. */
  function Inside(list: seq<RadiusAttribute>, p: nat): int
    requires p < OffsetOf(list, |list|)
  {
    p - OffsetOf(list, Holder(list, p, |list|)) - 2
  }

  function InsideWritten(list: seq<RadiusAttribute>, p: nat): (x: nat)
    ensures var w := Writer(list, |FirstValue(list)|, p, |list|);
      w >= 0 ==> x == p - LoopOffset(list, w) - 2 < |FirstValue(list)|
  {
    var w := Writer(list, |FirstValue(list)|, p, |list|);
    if w < 0 then 0 else p - LoopOffset(list, w) - 2
  }

  predicate IsWritten(list: seq<RadiusAttribute>, p: nat) {
    Writer(list, |FirstValue(list)|, p, |list|) >= 0
  }

  /** One octet under one pair of masks: what the loop leaves is what is expected. */
  predicate Balanced(list: seq<RadiusAttribute>, p: nat, plain: byte, first: Digest, others: Digest)
    requires p < OffsetOf(list, |list|)
  {
    var (m, x) := (Inside(list, p), InsideWritten(list, p));
    && (InPassword(list, p) ==>
          var v := list[Holder(list, p, |list|)].value;
          0 <= m < |v| && plain == v[m])
    && (if IsWritten(list, p) then Xor(FirstValue(list)[x], MaskAt(first, others, x)) else plain)
       == (if InPassword(list, p) then Xor(plain, MaskAt(first, others, m)) else plain)
  }

  lemma {:induction false} OctetUnder(c: Context, first: Digest, others: Digest, list: seq<RadiusAttribute>, p: nat)
    requires AllWellFormed(list) && HidesUnder(c, list) && p < OffsetOf(list, |list|)
    requires MasksAll(c.md5, c.secret, c.authenticator, first, others, list)
    ensures p < |EncodeAll(list)| && Balanced(list, p, EncodeAll(list)[p], first, others)
  {
    hide HiddenByLoop, EncodeAll, HiddenAll, AllWellFormed, OffsetOf, FirstValue, Xor, MaskAt, MasksAll, Holder,
         Inside, InsideWritten, InPassword, IsWritten;
    ExpectedUnder(c, first, others, list, p);
    LeftUnder(c, first, others, list, p);
  }

  lemma {:induction false} ExpectedUnder(c: Context, first: Digest, others: Digest, list: seq<RadiusAttribute>, p: nat)
    requires AllWellFormed(list) && p < OffsetOf(list, |list|)
    requires MasksAll(c.md5, c.secret, c.authenticator, first, others, list)
    ensures p < |EncodeAll(list)| == |EncodeAll(HiddenAll(c, list))|
    ensures var plain, m, h := EncodeAll(list)[p], Inside(list, p), Holder(list, p, |list|);
      if InPassword(list, p) then
        && 0 <= m < |list[h].value| && plain == list[h].value[m]
        && EncodeAll(HiddenAll(c, list))[p] == Xor(plain, MaskAt(first, others, m))
      else
        EncodeAll(HiddenAll(c, list))[p] == plain
  {
    hide EncodeAll, HiddenAll, Hide, AllWellFormed, OffsetOf, Xor, MaskAt, MasksAll, Holder;
    ExpectedAt(c, list, p);
    if InPassword(list, p) {
      MaskedOctet(c, first, others, list, Holder(list, p, |list|), Inside(list, p));
    }
  }

  lemma {:induction false} LeftUnder(c: Context, first: Digest, others: Digest, list: seq<RadiusAttribute>, p: nat)
    requires AllWellFormed(list) && p < OffsetOf(list, |list|)
    requires MasksAll(c.md5, c.secret, c.authenticator, first, others, list)
    ensures p < |EncodeAll(list)| == |HiddenByLoop(c, list)|
    ensures var x := InsideWritten(list, p);
      HiddenByLoop(c, list)[p] ==
        if IsWritten(list, p) then Xor(FirstValue(list)[x], MaskAt(first, others, x)) else EncodeAll(list)[p]
  {
    hide EncodeAll, HiddenByLoop, Hide, AllWellFormed, OffsetOf, LoopOffset, FirstValue, Xor, MaskAt, MasksAll, Writer;
    LeftAt(c, list, p);
    if IsWritten(list, p) {
      FirstMaskedOctet(c, first, others, list, Writer(list, |FirstValue(list)|, p, |list|), InsideWritten(list, p));
    }
  }

  lemma {:induction false} MaskedOctet(c: Context, first: Digest, others: Digest, list: seq<RadiusAttribute>, j: nat,
                                       m: nat)
    requires MasksAll(c.md5, c.secret, c.authenticator, first, others, list) && IsPassword(list, j)
      && m < |list[j].value|
    ensures |list[j].value| % 16 == 0
    ensures Hide(c.md5, c.secret, c.authenticator, list[j].value)[m] == Xor(list[j].value[m], MaskAt(first, others, m))
  {
    hide Hide, Xor, MaskAt;
  }

  lemma {:induction false} FirstMaskedOctet(c: Context, first: Digest, others: Digest, list: seq<RadiusAttribute>,
                                            w: nat, x: nat)
    requires MasksAll(c.md5, c.secret, c.authenticator, first, others, list) && IsPassword(list, w)
      && x < |FirstValue(list)|
    ensures |FirstValue(list)| % 16 == 0
    ensures Hide(c.md5, c.secret, c.authenticator, FirstValue(list))[x]
      == Xor(FirstValue(list)[x], MaskAt(first, others, x))
  {
    hide Hide, Xor, MaskAt, FirstValue;
    FirstValueIsMasked(c.md5, c.secret, c.authenticator, first, others, list, w);
  }

  lemma {:induction false} OriginsMustAgree(secret: seq<byte>, code: byte, authenticator: Digest,
                                            list: seq<RadiusAttribute>, p: nat)
    requires AllWellFormed(list) && |EncodeAll(list)| <= BODY_LIMIT && p < OffsetOf(list, |list|)
    requires AlwaysHides(secret, code, authenticator, list)
    ensures OriginsAgree(list, p)
  {
    var kind: nat := if InPassword(list, p) then Inside(list, p) else InsideWritten(list, p);
    hide HidesUnder, EncodeAll, AllWellFormed, MasksAll, MaskAt, OriginsAgree, Balanced, Inside, InPassword, SameMask;
    var f, g, base, first, others := TellApart(list, secret, authenticator, kind);
    assert HidesUnder(Context(f, secret, code, authenticator), list);
    assert HidesUnder(Context(g, secret, code, authenticator), list);
    OctetUnder(Context(f, secret, code, authenticator), base, base, list, p);
    OctetUnder(Context(g, secret, code, authenticator), first, others, list, p);
    BalancedAgrees(list, p, EncodeAll(list)[p], base, first, others);
  }

  lemma {:induction false} BalancedAgrees(list: seq<RadiusAttribute>, p: nat, plain: byte, base: Digest,
                                          first: Digest, others: Digest)
    requires p < OffsetOf(list, |list|)
    requires Balanced(list, p, plain, base, base) && Balanced(list, p, plain, first, others)
    requires var kind := if InPassword(list, p) then Inside(list, p) else InsideWritten(list, p);
      forall y: nat :: MaskAt(base, base, y) == MaskAt(first, others, y) <==> !SameMask(kind, y)
    ensures OriginsAgree(list, p)
  {
    hide OffsetOf, LoopOffset, FirstValue, Xor, MaskAt, SameMask;
    var inside, written := InPassword(list, p), IsWritten(list, p);
    var m, x := Inside(list, p), InsideWritten(list, p);
    if inside || written {
      MasksDecide(inside, written, plain, if written then FirstValue(list)[x] else 0, if inside then m else 0, x,
                  base, first, others);
    }
  }

  /** The same, for the two octets alone. */
  lemma {:induction false} MasksDecide(inside: bool, written: bool, plain: byte, source: byte, m: nat, x: nat,
                                       base: Digest, first: Digest, others: Digest)
    requires inside || written
    requires var kind := if inside then m else x;
      forall y: nat :: MaskAt(base, base, y) == MaskAt(first, others, y) <==> !SameMask(kind, y)
    requires (if written then Xor(source, MaskAt(base, base, x)) else plain)
          == (if inside then Xor(plain, MaskAt(base, base, m)) else plain)
    requires (if written then Xor(source, MaskAt(first, others, x)) else plain)
          == (if inside then Xor(plain, MaskAt(first, others, m)) else plain)
    ensures inside && written && SameMask(m, x) && plain == source
  {
    var bm, fm := MaskAt(base, base, m), MaskAt(first, others, m);
    var bx, fx := MaskAt(base, base, x), MaskAt(first, others, x);
    XorSolves(plain, bm, fm);
    XorSolves(source, bx, fx);
    XorUndoes(plain, bm);
    XorUndoes(source, bm);
    assert SameMask(m, m) && SameMask(x, x);
    assert SameMask(m, x) ==> bm == bx by { SameMaskSameOctet(base, base, m, x); }
    hide Xor, MaskAt, SameMask;
  }

  lemma {:induction false} SameMaskSameOctet(first: Digest, others: Digest, m: nat, x: nat)
    requires SameMask(m, x)
    ensures MaskAt(first, others, m) == MaskAt(first, others, x)
  {}

  // ----- From the origins of the octets to the list -----

  /** Where the loop writes, a password stands. */
  lemma {:induction false} WriteStandsAtPassword(list: seq<RadiusAttribute>, i: nat)
    requires AllWellFormed(list) && IsPassword(list, i) && FirstValue(list) != []
    requires forall p :: 0 <= p < OffsetOf(list, |list|) ==> OriginsAgree(list, p)
    ensures FullPasswordAt(list, LoopOffset(list, i))
  {
    hide OffsetOf, LoopOffset, FirstValue, AllWellFormed;
    var v := FirstValue(list);
    var p := LoopOffset(list, i) + 2;
    WritesFit(list, i);
    assert OriginsAgree(list, p);
    WriterIsLast(list, |v|, p, |list|, i);
    var w := Writer(list, |v|, p, |list|);
    OffsetsGrow(list, i, w);
    var h := Holder(list, p, |list|);
    assert IsPassword(list, h) && OffsetOf(list, h) == LoopOffset(list, i);
  }

  /** Where a password stands that is not empty, the loop writes. */
  lemma {:induction false} PasswordIsWritten(list: seq<RadiusAttribute>, j: nat)
    requires AllWellFormed(list) && IsPassword(list, j) && list[j].value != []
    requires forall p :: 0 <= p < OffsetOf(list, |list|) ==> OriginsAgree(list, p)
    ensures FirstValue(list) != [] && WrittenAt(list, OffsetOf(list, j))
  {
    hide OffsetOf, LoopOffset, FirstValue, AllWellFormed, Holder;
    var v, p := FirstValue(list), OffsetOf(list, j) + 2;
    PasswordLength(list, j);
    NextOffset(list, j);
    OffsetsGrow(list, j + 1, |list|);
    HolderIsUnique(list, p, j);
    assert InPassword(list, p) && OriginsAgree(list, p);
    var w := Writer(list, |v|, p, |list|);
    assert IsPassword(list, w) && LoopOffset(list, w) == OffsetOf(list, j);
  }

  /** And it has the value of the first. */
  lemma {:induction false} PasswordIsTheFirst(list: seq<RadiusAttribute>, j: nat)
    requires AllWellFormed(list) && IsPassword(list, j) && list[j].value != []
    requires forall p :: 0 <= p < OffsetOf(list, |list|) ==> OriginsAgree(list, p)
    ensures list[j].value == FirstValue(list)
  {
    var u, v := list[j].value, FirstValue(list);
    PasswordIsWritten(list, j);
    var i :| 0 <= i < |list| && IsPassword(list, i) && LoopOffset(list, i) == OffsetOf(list, j);
    forall m | 0 <= m < |u| ensures m < |v| && u[m] == v[m] {
      PasswordOctet(list, j, i, m);
    }
    if |u| < |v| {
      NoOverrun(list, j, i);
    }
    PasswordOctet(list, j, i, |u| - 1);
  }

  /** The write at a password's place is the last to reach its octets. */
  lemma {:induction false} PasswordOctet(list: seq<RadiusAttribute>, j: nat, i: nat, m: nat)
    requires AllWellFormed(list) && IsPassword(list, j) && m < |list[j].value|
    requires IsPassword(list, i) && LoopOffset(list, i) == OffsetOf(list, j)
    requires forall p :: 0 <= p < OffsetOf(list, |list|) ==> OriginsAgree(list, p)
    ensures m < |FirstValue(list)| && list[j].value[m] == FirstValue(list)[m]
  {
    hide OriginsAgree, AllWellFormed, FirstValue, OffsetOf, LoopOffset, Writer, RadiusAttribute.Length;
    var v, p := FirstValue(list), OffsetOf(list, j) + 2 + m;
    var w := PasswordOrigin(list, j, m);
    PasswordLength(list, j);
    WriteStandsAtPassword(list, w);
    var j' :| 0 <= j' < |list| && IsPassword(list, j') && list[j'].value != []
      && OffsetOf(list, j') == LoopOffset(list, w);
    NoneBetween(list, j, j', m);
    if m < |v| {
      WriterIsLast(list, |v|, p, |list|, i);
      LoopOffsetsGrow(list, i, w);
    }
  }

  /** An octet of a password comes from the like place of the first. */
  lemma {:induction false} PasswordOrigin(list: seq<RadiusAttribute>, j: nat, m: nat) returns (w: nat)
    requires AllWellFormed(list) && IsPassword(list, j) && m < |list[j].value|
    requires forall p :: 0 <= p < OffsetOf(list, |list|) ==> OriginsAgree(list, p)
    ensures IsPassword(list, w) && w == Writer(list, |FirstValue(list)|, OffsetOf(list, j) + 2 + m, |list|)
    ensures var x := OffsetOf(list, j) + 2 + m - LoopOffset(list, w) - 2;
      0 <= x < |FirstValue(list)| && list[j].value[m] == FirstValue(list)[x]
  {
    hide AllWellFormed, FirstValue, Holder, OffsetOf, LoopOffset, Writer, SameMask, RadiusAttribute.Length;
    var p := OffsetOf(list, j) + 2 + m;
    PasswordLength(list, j);
    NextOffset(list, j);
    OffsetsGrow(list, j + 1, |list|);
    HolderIsUnique(list, p, j);
    assert InPassword(list, p) && OriginsAgree(list, p);
    w := Writer(list, |FirstValue(list)|, p, |list|);
  }

  /** An attribute that starts no later than the m-th octet of a value starts no later
      than that value's own. */
  lemma {:induction false} NoneBetween(list: seq<RadiusAttribute>, j: nat, j': nat, m: nat)
    requires j < |list| && j' < |list| && 2 + m < list[j].Length() && OffsetOf(list, j') <= OffsetOf(list, j) + 2 + m
    ensures OffsetOf(list, j') <= OffsetOf(list, j)
  {
    hide OffsetOf;
    NextOffset(list, j);
    if j < j' {
      OffsetsGrow(list, j + 1, j');
    } else {
      OffsetsGrow(list, j', j);
    }
  }

  lemma {:induction false} LoopOffsetsGrow(list: seq<RadiusAttribute>, i: nat, j: nat)
    requires i <= j <= |list|
    ensures LoopOffset(list, i) <= LoopOffset(list, j)
  {
    OffsetsGrow(list, i, j);
  }

  /** A write that is longer than the password would reach the next header. */
  lemma {:induction false} NoOverrun(list: seq<RadiusAttribute>, j: nat, i: nat)
    requires AllWellFormed(list) && IsPassword(list, j) && IsPassword(list, i)
      && LoopOffset(list, i) == OffsetOf(list, j)
    requires forall p :: 0 <= p < OffsetOf(list, |list|) ==> OriginsAgree(list, p)
    ensures |FirstValue(list)| <= |list[j].value|
  {
    hide AllWellFormed, FirstValue, OffsetOf, LoopOffset, Holder, Writer, SameMask, RadiusAttribute.Length;
    var v, p := FirstValue(list), OffsetOf(list, j + 1);
    PasswordLength(list, j);
    NextOffset(list, j);
    WritesFit(list, i);
    if |list[j].value| < |v| {
      OffsetsGrow(list, j + 1, |list|);
      assert OriginsAgree(list, p);
      WriterIsLast(list, |v|, p, |list|, i);
      var h := Holder(list, p, |list|);
      if j + 1 < |list| {
        OffsetsGrow(list, j + 1, j + 2);
        HolderIsUnique(list, p, j + 1);
      }
      assert false;
    }
  }

  /** The loop hides every password under every hash if and only if the list lines up:
      whatever the secret, the code and the authenticator. */
  lemma {:induction false} HidingIsExact(secret: seq<byte>, code: byte, authenticator: Digest,
                                         list: seq<RadiusAttribute>)
    requires AllWellFormed(list) && |EncodeAll(list)| <= BODY_LIMIT
    ensures AlwaysHides(secret, code, authenticator, list) <==> LinesUp(list)
  {
    hide LinesUp, HiddenByLoop, EncodeAll, HiddenAll;
    if LinesUp(list) {
      forall md5: Hash ensures HidesUnder(Context(md5, secret, code, authenticator), list) {
        LinedUpIsHidden(Context(md5, secret, code, authenticator), list);
      }
    }
    if AlwaysHides(secret, code, authenticator, list) {
      hide AlwaysHides, OriginsAgree, EncodeAll, AllWellFormed;
      forall p | 0 <= p < OffsetOf(list, |list|) ensures OriginsAgree(list, p) {
        OriginsMustAgree(secret, code, authenticator, list, p);
      }
      OriginsLineUp(list);
    }
  }

  lemma {:induction false} OriginsLineUp(list: seq<RadiusAttribute>)
    requires AllWellFormed(list)
    requires forall p :: 0 <= p < OffsetOf(list, |list|) ==> OriginsAgree(list, p)
    ensures LinesUp(list)
  {
    hide OffsetOf, LoopOffset, FirstValue, OriginsAgree, AllWellFormed, FullPasswordAt, WrittenAt;
    forall j | 0 <= j < |list| && IsPassword(list, j) && list[j].value != []
      ensures list[j].value == FirstValue(list) && WrittenAt(list, OffsetOf(list, j))
    {
      PasswordIsTheFirst(list, j);
      PasswordIsWritten(list, j);
    }
    forall i | 0 <= i < |list| && IsPassword(list, i) && FirstValue(list) != []
      ensures FullPasswordAt(list, LoopOffset(list, i))
    {
      WriteStandsAtPassword(list, i);
    }
  }

  // ----- Some lists -----

  lemma {:induction false} AtMostOneLinesUp(list: seq<RadiusAttribute>)
    requires AtMostOnePassword(list)
    ensures LinesUp(list)
  {
    hide OffsetOf, LoopOffset;
    var k := FirstPassword(list);
    forall i | 0 <= i < |list| && IsPassword(list, i) ensures i == k {
      FirstPasswordIsFirst(list, 0, i);
    }
    if k < |list| {
      OffsetsMeet(list, k);
    }
  }

  /** Up to the first password the loop is where it believes to be. */
  lemma {:induction false} OffsetsMeet(list: seq<RadiusAttribute>, i: nat)
    requires i <= FirstPassword(list)
    ensures LoopOffset(list, i) == OffsetOf(list, i)
  {
    if i > 0 {
      OffsetsMeet(list, i - 1);
      if IsPassword(list, i - 1) {
        FirstPasswordIsFirst(list, 0, i - 1);
      }
    }
  }

  /** Further passwords do no harm when they are empty and nothing but passwords stands
      between. */
  lemma {:induction false} EmptyFollowersLineUp(list: seq<RadiusAttribute>, last: nat)
    requires FirstPassword(list) <= last < |list|
    requires forall i :: FirstPassword(list) < i <= last ==> IsPassword(list, i) && list[i].value == []
    requires forall i :: last < i < |list| ==> !IsPassword(list, i)
    ensures LinesUp(list)
  {
    hide OffsetOf, LoopOffset;
    var k := FirstPassword(list);
    OffsetsMeet(list, k);
    forall i | 0 <= i < |list| && IsPassword(list, i)
      ensures k <= i <= last && LoopOffset(list, i) == OffsetOf(list, k)
    {
      FirstPasswordIsFirst(list, 0, i);
      LoopStands(list, k, i);
    }
  }

  lemma {:induction false} LoopStands(list: seq<RadiusAttribute>, k: nat, i: nat)
    requires k <= i <= |list| && forall j :: k <= j < i ==> IsPassword(list, j)
    ensures LoopOffset(list, i) == LoopOffset(list, k)
  {
    if k < i {
      LoopStands(list, k, i - 1);
    }
  }

  function PasswordOf(v: seq<byte>): RadiusAttribute { RadiusAttribute(RA_USER_PASSWORD, v, 0) }

  /** Of two passwords of one block the second is sent as it is, whatever the hash. */
  lemma {:induction false} SecondStaysInClear(c: Context, u: seq<byte>, v: seq<byte>)
    requires |u| == |v| == 16
    ensures var list := [PasswordOf(u), PasswordOf(v)];
      AllWellFormed(list) && |HiddenByLoop(c, list)| == 36 && HiddenByLoop(c, list)[20..] == v && !LinesUp(list)
  {
    hide EncodeAll, HiddenAll, HiddenByLoop, Hide;
    var list := [PasswordOf(u), PasswordOf(v)];
    assert FirstPassword(list) == 0 && FirstValue(list) == u;
    assert list[0].Length() == 18 && list[1].Length() == 18;
    assert OffsetOf(list, 1) == OffsetOf(list, 0) + 18 && OffsetOf(list, 2) == OffsetOf(list, 1) + 18
      && OffsetOf(list, 0) == 0;
    assert LoopOffset(list, 0) == 0 && LoopOffset(list, 1) == LoopOffset(list, 0);
    assert IsPassword(list, 1) && list[1].value != [];
    SizesAgree(c, list);
    forall p | 20 <= p < 36 ensures HiddenByLoop(c, list)[p] == v[p - 20] {
      HolderIsUnique(list, p, 1);
      ExpectedAt(c, list, p);
      LeftAt(c, list, p);
      assert Writer(list, 16, p, 0) == -1 && Writer(list, 16, p, 1) == -1 && Writer(list, 16, p, 2) == -1;
    }
    NotWrittenAt(list);
  }

  lemma {:induction false} NotWrittenAt(list: seq<RadiusAttribute>)
    requires |list| == 2 && IsPassword(list, 0) && IsPassword(list, 1) && |list[1].value| > 0
      && |list[0].value| == |list[1].value|
    requires list[0].vendorId == 0
    ensures !LinesUp(list)
  {
    assert FirstPassword(list) == 0;
    assert LoopOffset(list, 0) == 0 && LoopOffset(list, 1) == 0 && OffsetOf(list, 1) > 0;
    assert !WrittenAt(list, OffsetOf(list, 1));
  }

  /** Three passwords can line up although the second is not empty: the write for the
      third lands on it. */
  lemma {:induction false} ThirdRepairsSecond(c: Context, u: seq<byte>, other: RadiusAttribute)
    requires |u| == 16 && other.WellFormed() && other.typ != RA_USER_PASSWORD && other.Length() == 18
    ensures var list := [PasswordOf(u), PasswordOf(u), other, PasswordOf([])];
      AllWellFormed(list) && LinesUp(list) && HidesUnder(c, list)
  {
    var list := [PasswordOf(u), PasswordOf(u), other, PasswordOf([])];
    assert FirstPassword(list) == 0;
    assert OffsetOf(list, 0) == 0 && OffsetOf(list, 1) == 18;
    assert LoopOffset(list, 0) == 0 && LoopOffset(list, 1) == 0 && LoopOffset(list, 2) == 0
      && LoopOffset(list, 3) == 18;
    assert IsPassword(list, 0) && IsPassword(list, 1) && IsPassword(list, 3);
    assert FullPasswordAt(list, 0) && FullPasswordAt(list, 18) && WrittenAt(list, 0) && WrittenAt(list, 18);
    LinedUpIsHidden(c, list);
  }
}
