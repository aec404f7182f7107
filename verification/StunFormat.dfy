/** The octets of STUN messages, offset by offset and type by type, as section 11 of
    RFC 3489 draws them. */
module StunFormat {
  import opened Options
  import opened Bytes
  import opened StunMessages
  import opened StunOutcomes

  // ----- What each attribute says -----

  predicate AddressIs(v: seq<byte>, a: Address) {
    |v| == 8 && a.pad == v[0] && a.family == v[1] && v[1] == 1 && a.port == Number16(v, 2) && a.addr == Number32(v, 4)
  }

  predicate NumberIs(v: seq<byte>, n: Word32) { |v| == 4 && n == Number32(v, 0) }

  predicate OctetsAre(v: seq<byte>, s: seq<byte>) { v == s }

  predicate ErrorIs(v: seq<byte>, e: ErrorCode) {
    |v| >= 4 && e.pad == Number16(v, 0) && e.errorClass == v[2] && e.number == v[3] && e.reason == v[4..]
  }

  /** Of the words of an attribute only the first half is read. */
  predicate WordsAre(v: seq<byte>, ws: seq<Word16>) {
    |v| == 4 * |ws| && forall i :: 0 <= i < |ws| ==> ws[i] == Number16(v, 2 * i)
  }

  lemma {:induction false} AddressIsRead(v: seq<byte>)
    requires IsAddress(v)
    ensures ParseAddress(v).Some? && AddressIs(v, ParseAddress(v).value)
  {
    hide Decode16, Decode32;
    NetworkOrder16(0, v[2..4]);
    NetworkOrder(0, v[4..8]);
  }

  lemma {:induction false} WordsAreRead(v: seq<byte>)
    requires |v| < 10 && |v| % 4 == 0
    ensures ParseUnknown(v).Some? && WordsAre(v, ParseUnknown(v).value)
  {
    hide Decode16;
    var ws := ParseUnknown(v).value;
    forall i | 0 <= i < |ws| ensures ws[i] == Number16(v, 2 * i) {
      NetworkOrder16(0, v[2 * i..2 * i + 2]);
    }
  }

  lemma {:induction false} ErrorIsRead(v: seq<byte>)
    requires |v| >= 4
    ensures ErrorIs(v, ErrorCode(Decode16(v[..2]), v[2], v[3], v[4..]))
  {
    hide Decode16;
    NetworkOrder16(0, v[..2]);
  }

  // ----- Which field each attribute goes to -----

  /** An attribute sets the field of its type, and no other. */
  ghost predicate Sets<T(!new)>(x: Tlv, typ: int, before: Option<T>, after: Option<T>, says: (seq<byte>, T) -> bool) {
    if x.typ as int == typ then after.Some? && says(x.value, after.value) else after == before
  }

  lemma {:induction false} AttributeSets(x: Tlv, m: StunMessage)
    requires Reads(x)
    ensures ParseAttribute(x.typ, x.value, m).Parsed?
    ensures var n := ParseAttribute(x.typ, x.value, m).msg;
      && n.msgType == m.msgType && n.msgLength == m.msgLength && n.id == m.id
      && Sets(x, 1, m.mappedAddress, n.mappedAddress, AddressIs)
      && Sets(x, 2, m.responseAddress, n.responseAddress, AddressIs)
      && Sets(x, 3, m.changeRequest, n.changeRequest, NumberIs)
      && Sets(x, 4, m.sourceAddress, n.sourceAddress, AddressIs)
      && Sets(x, 5, m.changedAddress, n.changedAddress, AddressIs)
      && Sets(x, 6, m.username, n.username, OctetsAre)
      && Sets(x, 7, m.password, n.password, OctetsAre)
      && Sets(x, 8, m.messageIntegrity, n.messageIntegrity, OctetsAre)
      && Sets(x, 9, m.errorCode, n.errorCode, ErrorIs)
      && Sets(x, 10, m.unknownAttributes, n.unknownAttributes, WordsAre)
      && Sets(x, 11, m.reflectedFrom, n.reflectedFrom, AddressIs)
  {
    hide ParseAddress, ParseUnknown, AddressIs, WordsAre, ErrorIs, Decode16, Number16, Number32, Decode32;
    var v := x.value;
    match x.typ
    case 1 | 2 | 4 | 5 | 11 => AddressIsRead(v);
    case 3 => NumberIsRead(v);
    case 9 => ErrorIsRead(v);
    case 10 => WordsAreRead(v);
    case _ =>
  }

  lemma {:induction false} NumberIsRead(v: seq<byte>)
    requires |v| == 4
    ensures NumberIs(v, Decode32(v))
  {
    hide Decode32;
    NetworkOrder(0, v);
  }

  // ----- A whole message -----

  /** The index of the last of the first k attributes of a type, or -1. */
  function LastOf(xs: seq<Tlv>, typ: int, k: nat): (i: int)
    requires k <= |xs|
    ensures -1 <= i < k
    ensures i >= 0 ==> xs[i].typ as int == typ
    ensures forall j :: i < j < k ==> xs[j].typ as int != typ
  {
    if k == 0 then -1 else if xs[k - 1].typ as int == typ then k - 1 else LastOf(xs, typ, k - 1)
  }

  /** A field holds what the last of the first k attributes of a type says, and nothing if
      there is none. */
  ghost predicate Holds<T(!new)>(xs: seq<Tlv>, typ: int, k: nat, field: Option<T>, says: (seq<byte>, T) -> bool)
    requires k <= |xs|
  {
    var i := LastOf(xs, typ, k);
    if i < 0 then field.None? else field.Some? && says(xs[i].value, field.value)
  }

  lemma {:induction false} HoldsNext<T(!new)>(xs: seq<Tlv>, typ: int, k: nat, before: Option<T>, after: Option<T>,
                                              says: (seq<byte>, T) -> bool)
    requires k < |xs| && Holds(xs, typ, k, before, says) && Sets(xs[k], typ, before, after, says)
    ensures Holds(xs, typ, k + 1, after, says)
  {}

  /** Each field of a message holds what the last attribute of its type says. */
  ghost predicate FieldsAre(xs: seq<Tlv>, k: nat, m: StunMessage)
    requires k <= |xs|
  {
    && Holds(xs, 1, k, m.mappedAddress, AddressIs)
    && Holds(xs, 2, k, m.responseAddress, AddressIs)
    && Holds(xs, 3, k, m.changeRequest, NumberIs)
    && Holds(xs, 4, k, m.sourceAddress, AddressIs)
    && Holds(xs, 5, k, m.changedAddress, AddressIs)
    && Holds(xs, 6, k, m.username, OctetsAre)
    && Holds(xs, 7, k, m.password, OctetsAre)
    && Holds(xs, 8, k, m.messageIntegrity, OctetsAre)
    && Holds(xs, 9, k, m.errorCode, ErrorIs)
    && Holds(xs, 10, k, m.unknownAttributes, WordsAre)
    && Holds(xs, 11, k, m.reflectedFrom, AddressIs)
  }

  lemma {:induction false} FieldsNext(xs: seq<Tlv>, k: nat, m: StunMessage, n: StunMessage)
    requires k < |xs| && FieldsAre(xs, k, m) && Reads(xs[k]) && ParseAttribute(xs[k].typ, xs[k].value, m) == Parsed(n)
    ensures FieldsAre(xs, k + 1, n) && n.msgType == m.msgType && n.msgLength == m.msgLength && n.id == m.id
  {
    hide Holds, Sets, ParseAttribute, Reads;
    AttributeSets(xs[k], m);
    HoldsNext(xs, 1, k, m.mappedAddress, n.mappedAddress, AddressIs);
    HoldsNext(xs, 2, k, m.responseAddress, n.responseAddress, AddressIs);
    HoldsNext(xs, 3, k, m.changeRequest, n.changeRequest, NumberIs);
    HoldsNext(xs, 4, k, m.sourceAddress, n.sourceAddress, AddressIs);
    HoldsNext(xs, 5, k, m.changedAddress, n.changedAddress, AddressIs);
    HoldsNext(xs, 6, k, m.username, n.username, OctetsAre);
    HoldsNext(xs, 7, k, m.password, n.password, OctetsAre);
    HoldsNext(xs, 8, k, m.messageIntegrity, n.messageIntegrity, OctetsAre);
    HoldsNext(xs, 9, k, m.errorCode, n.errorCode, ErrorIs);
    HoldsNext(xs, 10, k, m.unknownAttributes, n.unknownAttributes, WordsAre);
    HoldsNext(xs, 11, k, m.reflectedFrom, n.reflectedFrom, AddressIs);
  }

  lemma {:induction false} FieldsFrom(xs: seq<Tlv>, k: nat, m: StunMessage)
    requires k <= |xs| && ReadsAll(xs) && FieldsAre(xs, k, m)
    ensures ParseAttributes(Octets(xs[k..]), m).Parsed?
    ensures var n := ParseAttributes(Octets(xs[k..]), m).msg;
      FieldsAre(xs, |xs|, n) && n.msgType == m.msgType && n.msgLength == m.msgLength && n.id == m.id
    decreases |xs| - k
  {
    hide FieldsAre, ParseAttribute, ParseAttributes, Reads, Octets, Attribute;
    if k == |xs| {
      NothingLeft(xs, m);
    } else {
      var x := xs[k];
      AttributeOutcome(x, m);
      OctetsOfRest(xs, k);
      NextAttribute(x, Octets(xs[k + 1..]), m);
      var n := ParseAttribute(x.typ, x.value, m).msg;
      FieldsNext(xs, k, m, n);
      FieldsFrom(xs, k + 1, n);
    }
  }

  lemma {:induction false} NothingLeft(xs: seq<Tlv>, m: StunMessage)
    ensures ParseAttributes(Octets(xs[|xs|..]), m) == Parsed(m)
  {}

  lemma {:induction false} OctetsOfRest(xs: seq<Tlv>, k: nat)
    requires k < |xs|
    ensures Octets(xs[k..]) == Attribute(xs[k].typ, xs[k].value) + Octets(xs[k + 1..])
  {
    hide Attribute;
    assert xs[k..][0] == xs[k] && xs[k..][1..] == xs[k + 1..];
  }

  lemma {:induction false} NoFields(xs: seq<Tlv>, t: Word16, n: Word16, id: seq<byte>)
    ensures FieldsAre(xs, 0, NoMessage(t, n, id))
  {}

  /** Each field of a message that is read is what the last attribute of its type says. */
  lemma {:induction false} ReadByType(raw: seq<byte>, xs: seq<Tlv>)
    requires IsSized(raw) && IsMessage(raw[20..], xs)
    ensures Parse(raw).Parsed? && FieldsAre(xs, |xs|, Parse(raw).msg)
    ensures var m := Parse(raw).msg;
      m.msgType == Number16(raw, 0) && m.msgLength == Number16(raw, 2) == |raw| - 20 && m.id == raw[4..20]
  {
    hide ParseAttributes, FieldsAre, Decode16, Octets, ReadsAll;
    NetworkOrder16(0, raw[..2]);
    NetworkOrder16(0, raw[2..4]);
    NoFields(xs, Decode16(raw[..2]), Decode16(raw[2..4]), raw[4..20]);
    assert xs[0..] == xs;
    FieldsFrom(xs, 0, NoMessage(Decode16(raw[..2]), Decode16(raw[2..4]), raw[4..20]));
  }

  /** The octets of an attribute: its type, the length of its value, and the value. */
  lemma {:induction false} AttributeHasFormat(x: Tlv)
    ensures var s := Attribute(x.typ, x.value);
      Number16(s, 0) == x.typ && Number16(s, 2) == |x.value| && s[4..] == x.value
  {
    hide Encode16;
    var s := Attribute(x.typ, x.value);
    WrittenAt16(s, 0, x.typ);
    WrittenAt16(s, 2, |x.value|);
  }

  // ----- What is written -----

  predicate AddressPieceIs(s: seq<byte>, typ: int, o: Option<Address>) {
    if o.None? then s == [] else
      && |s| == 12 && Number16(s, 0) == typ && Number16(s, 2) == 8
      && s[4] == o.value.pad && s[5] == 1 && Number16(s, 6) == o.value.port && Number32(s, 8) == o.value.addr
  }

  predicate ChangePieceIs(s: seq<byte>, o: Option<Word32>) {
    if o.None? then s == [] else
      |s| == 8 && Number16(s, 0) == 3 && Number16(s, 2) == 4 && Number32(s, 4) == o.value
  }

  predicate TextPieceIs(s: seq<byte>, typ: int, o: Option<seq<byte>>) {
    if o.None? then s == [] else
      |s| == 4 + |o.value| && Number16(s, 0) == typ && Number16(s, 2) == |o.value| && s[4..] == o.value
  }

  /** The length says two more than there are. */
  predicate ErrorPieceIs(s: seq<byte>, o: Option<ErrorCode>) {
    if o.None? then s == [] else
      && |s| == 8 + |o.value.reason| && Number16(s, 0) == 9 && Number16(s, 2) == 6 + |o.value.reason|
      && Number16(s, 4) == o.value.pad && s[6] == o.value.errorClass && s[7] == o.value.number
      && s[8..] == o.value.reason
  }

  predicate UnknownPieceIs(s: seq<byte>, o: Option<seq<Word16>>) {
    if o.None? then s == [] else
      && |s| == 4 + 2 * |o.value| && Number16(s, 0) == 10 && Number16(s, 2) == 2 + 2 * |o.value|
      && forall i :: 0 <= i < |o.value| ==> Number16(s, 4 + 2 * i) == o.value[i]
  }

  lemma {:induction false} AddressPieceHasFormat(t: Word16, o: Option<Address>)
    ensures AddressPieceIs(AddressPiece(t, o), t, o)
  {
    hide Encode16, Encode32;
    if o.Some? {
      var s := AddressPiece(t, o);
      assert s[0..2] == Encode16(t) && s[2..4] == Encode16(8) && s[4] == o.value.pad && s[5] == 1;
      assert s[6..8] == Encode16(o.value.port) && s[8..12] == Encode32(o.value.addr);
      WrittenAt16(s, 0, t);
      WrittenAt16(s, 2, 8);
      WrittenAt16(s, 6, o.value.port);
      WrittenAt32(s, 8, o.value.addr);
    }
  }

  lemma {:induction false} ChangePieceHasFormat(o: Option<Word32>)
    ensures ChangePieceIs(ChangePiece(o), o)
  {
    hide Encode16, Encode32;
    if o.Some? {
      var s := ChangePiece(o);
      assert s[0..2] == Encode16(3) && s[2..4] == Encode16(4) && s[4..8] == Encode32(o.value);
      WrittenAt16(s, 0, 3);
      WrittenAt16(s, 2, 4);
      WrittenAt32(s, 4, o.value);
    }
  }

  lemma {:induction false} TextPieceHasFormat(t: Word16, o: Option<seq<byte>>)
    requires o.Some? ==> IsText(o.value)
    ensures TextPieceIs(TextPiece(t, o), t, o)
  {
    hide Encode16;
    if o.Some? {
      var s := TextPiece(t, o);
      assert s[0..2] == Encode16(t) && s[2..4] == Encode16(|o.value|) && s[4..] == o.value;
      WrittenAt16(s, 0, t);
      WrittenAt16(s, 2, |o.value|);
    }
  }

  lemma {:induction false} ErrorPieceHasFormat(o: Option<ErrorCode>)
    requires o.Some? ==> |o.value.reason| < STUN_MAX_STRING
    ensures ErrorPieceIs(ErrorPiece(o), o)
  {
    hide Encode16;
    if o.Some? {
      var s, e := ErrorPiece(o), o.value;
      assert s[0..2] == Encode16(9) && s[2..4] == Encode16(6 + |e.reason|) && s[4..6] == Encode16(e.pad);
      assert s[6] == e.errorClass && s[7] == e.number && s[8..] == e.reason;
      WrittenAt16(s, 0, 9);
      WrittenAt16(s, 2, 6 + |e.reason|);
      WrittenAt16(s, 4, e.pad);
    }
  }

  lemma {:induction false} WordsAt(ws: seq<Word16>, i: nat)
    requires i < |ws|
    ensures Words(ws)[2 * i..2 * i + 2] == Encode16(ws[i])
    decreases |ws|
  {
    hide Encode16;
    var n := |ws| - 1;
    if i < n {
      WordsAt(ws[..n], i);
      assert Words(ws)[2 * i..2 * i + 2] == Words(ws[..n])[2 * i..2 * i + 2];
    }
  }

  lemma {:induction false} UnknownPieceHasFormat(o: Option<seq<Word16>>)
    requires o.Some? ==> |o.value| <= 4
    ensures UnknownPieceIs(UnknownPiece(o), o)
  {
    hide Encode16, Words, Number16;
    if o.Some? {
      var s, ws := UnknownPiece(o), o.value;
      assert s[0..2] == Encode16(10) && s[2..4] == Encode16(2 + 2 * |ws|) && s[4..] == Words(ws);
      WrittenAt16(s, 0, 10);
      WrittenAt16(s, 2, 2 + 2 * |ws|);
      forall i | 0 <= i < |ws| ensures Number16(s, 4 + 2 * i) == ws[i] {
        WordsAt(ws, i);
        assert s[4 + 2 * i..4 + 2 * i + 2] == Words(ws)[2 * i..2 * i + 2];
        WrittenAt16(s, 4 + 2 * i, ws[i]);
      }
    }
  }

  /** The octets of a message: the header, the attributes in the order of the encoder, and
      under a key the hash of what stands before it, the length in the header still zero. */
  lemma {:induction false} MessageHasFormat(hmac: Hmac, m: StunMessage, key: seq<byte>)
    returns (ps: seq<seq<byte>>, zeroed: seq<byte>, hash: seq<byte>)
    requires m.Valid()
    ensures |ps| == 10
    ensures AddressPieceIs(ps[0], 1, m.mappedAddress) && AddressPieceIs(ps[1], 2, m.responseAddress)
    ensures ChangePieceIs(ps[2], m.changeRequest)
    ensures AddressPieceIs(ps[3], 4, m.sourceAddress) && AddressPieceIs(ps[4], 5, m.changedAddress)
    ensures TextPieceIs(ps[5], 6, m.username) && TextPieceIs(ps[6], 7, m.password)
    ensures ErrorPieceIs(ps[7], m.errorCode) && UnknownPieceIs(ps[8], m.unknownAttributes)
    ensures AddressPieceIs(ps[9], 11, m.reflectedFrom)
    ensures var body := ps[0] + ps[1] + ps[2] + ps[3] + ps[4] + ps[5] + ps[6] + ps[7] + ps[8] + ps[9];
      var s := Encoded(hmac, m, key);
      && |zeroed| == 20 + |body| && Number16(zeroed, 0) == m.msgType && Number16(zeroed, 2) == 0
      && zeroed[4..20] == m.id && zeroed[20..] == body
      && TextPieceIs(hash, 8, if |key| > 0 then Some(hmac(zeroed, key)) else None)
      && |s| == 20 + |body| + |hash| && Number16(s, 0) == m.msgType && Number16(s, 2) == |body| + |hash|
      && s[4..20] == m.id && s[20..] == body + hash
  {
    hide AddressPiece, ChangePiece, TextPiece, ErrorPiece, UnknownPiece, AddressPieceIs, ChangePieceIs, TextPieceIs,
         ErrorPieceIs, UnknownPieceIs, Encode16, Flatten, Number16;
    ps := Pieces(m);
    FlattenTen(ps);
    AddressPieceHasFormat(1, m.mappedAddress);
    AddressPieceHasFormat(2, m.responseAddress);
    ChangePieceHasFormat(m.changeRequest);
    AddressPieceHasFormat(4, m.sourceAddress);
    AddressPieceHasFormat(5, m.changedAddress);
    TextPieceHasFormat(6, m.username);
    TextPieceHasFormat(7, m.password);
    ErrorPieceHasFormat(m.errorCode);
    UnknownPieceHasFormat(m.unknownAttributes);
    AddressPieceHasFormat(11, m.reflectedFrom);
    zeroed := Header(m, 0) + Body(m);
    hash := Signed(hmac, m, key);
    HashHasFormat(hmac, m, key);
    HeaderHasFormat(m, 0, Body(m));
    HeaderHasFormat(m, |Body(m)| + |hash|, Body(m) + hash);
  }

  lemma {:induction false} HeaderHasFormat(m: StunMessage, length: Word16, rest: seq<byte>)
    requires |m.id| == 16
    ensures var s := Header(m, length) + rest;
      && |s| == 20 + |rest| && Number16(s, 0) == m.msgType && Number16(s, 2) == length
      && s[4..20] == m.id && s[20..] == rest
  {
    hide Encode16, Number16;
    var s := Header(m, length) + rest;
    assert s[0..2] == Encode16(m.msgType) && s[2..4] == Encode16(length);
    WrittenAt16(s, 0, m.msgType);
    WrittenAt16(s, 2, length);
  }

  lemma {:induction false} HashHasFormat(hmac: Hmac, m: StunMessage, key: seq<byte>)
    requires m.Valid()
    ensures TextPieceIs(Signed(hmac, m, key), 8, if |key| > 0 then Some(hmac(Header(m, 0) + Body(m), key)) else None)
  {
    hide Encode16, Body, Header, Number16;
    if |key| > 0 {
      var hash := hmac(Header(m, 0) + Body(m), key);
      var s := Signed(hmac, m, key);
      assert s == Encode16(8) + Encode16(20) + hash;
      assert s[0..2] == Encode16(8) && s[2..4] == Encode16(20) && s[4..] == hash;
      WrittenAt16(s, 0, 8);
      WrittenAt16(s, 2, 20);
    }
  }
}
