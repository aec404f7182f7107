/** Which STUN messages come back from the octets they are encoded as. */
module StunRoundTrip {
  import opened Options
  import opened Bytes
  import opened StunMessages

  // ----- One attribute -----

  lemma {:induction false} AttributeStep(t: Word16, n: Word16, v: seq<byte>, rest: seq<byte>, m: StunMessage)
    requires |v| == n
    ensures ParseAttributes(Encode16(t) + Encode16(n) + v + rest, m) ==
      match ParseAttribute(t, v, m)
      case Parsed(m') => ParseAttributes(rest, m')
      case fault => fault
  {
    hide ParseAttribute;
    var body := Encode16(t) + Encode16(n) + v + rest;
    assert body[..2] == Encode16(t) && body[2..4] == Encode16(n);
    Decode16Undoes(t);
    Decode16Undoes(n);
    assert body[4..4 + n as int] == v && body[4 + n as int..] == rest;
  }

  /** What an address comes back as: the family is always written as IPv4. */
  function Normal(o: Option<Address>): Option<Address> {
    if o.None? then None else Some(o.value.(family := IPV4_FAMILY))
  }

  lemma {:induction false} AddressComesBack(a: Address)
    ensures ParseAddress([a.pad, IPV4_FAMILY] + Encode16(a.port) + Encode32(a.addr)) == Normal(Some(a))
  {
    hide Encode16, Encode32, Decode16, Decode32;
    var v := [a.pad, IPV4_FAMILY] + Encode16(a.port) + Encode32(a.addr);
    assert v[2..4] == Encode16(a.port) && v[4..8] == Encode32(a.addr);
    Decode16Undoes(a.port);
    Decode32Undoes(a.addr);
  }

  lemma {:induction false} AddressStep(t: Word16, o: Option<Address>, rest: seq<byte>, m: StunMessage)
    ensures ParseAttributes(AddressPiece(t, o) + rest, m) ==
      if o.None? then ParseAttributes(rest, m) else
        match ParseAttribute(t, [o.value.pad, IPV4_FAMILY] + Encode16(o.value.port) + Encode32(o.value.addr), m)
        case Parsed(m') => ParseAttributes(rest, m')
        case fault => fault
  {
    hide ParseAttribute, Encode16, Encode32, ParseAttributes;
    if o.None? {
      assert AddressPiece(t, o) + rest == rest;
    } else {
      AttributeStep(t, 8, [o.value.pad, IPV4_FAMILY] + Encode16(o.value.port) + Encode32(o.value.addr), rest, m);
    }
  }

  lemma {:induction false} ChangeStep(o: Option<Word32>, rest: seq<byte>, m: StunMessage)
    ensures ParseAttributes(ChangePiece(o) + rest, m)
         == ParseAttributes(rest, if o.None? then m else m.(changeRequest := o))
  {
    hide Encode16, Encode32, Decode32, ParseAttributes;
    if o.None? {
      assert ChangePiece(o) + rest == rest;
    } else {
      AttributeStep(CHANGE_REQUEST, 4, Encode32(o.value), rest, m);
      Decode32Undoes(o.value);
    }
  }

  lemma {:induction false} TextStep(t: Word16, o: Option<seq<byte>>, rest: seq<byte>, m: StunMessage)
    requires (o.Some? ==> IsText(o.value)) && (t == USERNAME || t == PASSWORD)
    ensures ParseAttributes(TextPiece(t, o) + rest, m) == ParseAttributes(rest,
      if o.None? then m else if t == USERNAME then m.(username := o) else m.(password := o))
  {
    hide Encode16, ParseAttributes;
    if o.None? {
      assert TextPiece(t, o) + rest == rest;
    } else {
      AttributeStep(t, |o.value|, o.value, rest, m);
    }
  }

  // ----- All attributes -----

  /** What has been read once the first k pieces of m have. */
  function After(m: StunMessage, b: StunMessage, k: nat): StunMessage {
    StunMessage(b.msgType, b.msgLength, b.id,
      if k > 0 then Normal(m.mappedAddress) else None,
      if k > 1 then Normal(m.responseAddress) else None,
      if k > 2 then m.changeRequest else None,
      if k > 3 then Normal(m.sourceAddress) else None,
      if k > 4 then Normal(m.changedAddress) else None,
      if k > 5 then m.username else None,
      if k > 6 then m.password else None,
      None, None, None,
      if k > 9 then Normal(m.reflectedFrom) else None)
  }

  lemma {:induction false} PieceStep(m: StunMessage, b: StunMessage, k: nat, rest: seq<byte>)
    requires m.Valid() && k < 10 && (k == 7 ==> m.errorCode.None?) && (k == 8 ==> m.unknownAttributes.None?)
    ensures ParseAttributes(Pieces(m)[k] + rest, After(m, b, k)) == ParseAttributes(rest, After(m, b, k + 1))
  {
    hide AddressPiece, ChangePiece, TextPiece, ParseAttributes, Encode16, Encode32, ParseAddress;
    var now := After(m, b, k);
    if k == 0 || k == 1 || k == 3 || k == 4 || k == 9 {
      AddressPieceStep(m, b, k, rest);
    } else if k == 2 {
      ChangeStep(m.changeRequest, rest, now);
    } else if k == 5 {
      TextStep(USERNAME, m.username, rest, now);
    } else if k == 6 {
      TextStep(PASSWORD, m.password, rest, now);
    } else {
      assert Pieces(m)[k] == [] && [] + rest == rest;
    }
  }

  lemma {:induction false} AddressPieceStep(m: StunMessage, b: StunMessage, k: nat, rest: seq<byte>)
    requires m.Valid() && k in {0, 1, 3, 4, 9}
    ensures ParseAttributes(Pieces(m)[k] + rest, After(m, b, k)) == ParseAttributes(rest, After(m, b, k + 1))
  {
    hide AddressPiece, ChangePiece, TextPiece, ErrorPiece, UnknownPiece, ParseAttributes, Encode16, Encode32,
         ParseAddress;
    var t, o :=
      if k == 0 then MAPPED_ADDRESS else if k == 1 then RESPONSE_ADDRESS else if k == 3 then SOURCE_ADDRESS
      else if k == 4 then CHANGED_ADDRESS else REFLECTED_FROM,
      if k == 0 then m.mappedAddress else if k == 1 then m.responseAddress else if k == 3 then m.sourceAddress
      else if k == 4 then m.changedAddress else m.reflectedFrom;
    assert Pieces(m)[k] == AddressPiece(t, o);
    AddressStep(t, o, rest, After(m, b, k));
    if o.Some? {
      AddressComesBack(o.value);
    }
  }

  lemma {:induction false} PiecesFrom(m: StunMessage, b: StunMessage, j: nat, k: nat, rest: seq<byte>)
    requires m.Valid() && j <= k <= 10
    requires (k > 7 ==> m.errorCode.None?) && (k > 8 ==> m.unknownAttributes.None?)
    ensures ParseAttributes(Flatten(Pieces(m)[j..k]) + rest, After(m, b, j)) == ParseAttributes(rest, After(m, b, k))
    decreases k - j
  {
    hide Pieces, ParseAttributes, After;
    var ps := Pieces(m);
    if j == k {
      assert ps[j..k] == [] && Flatten([]) + rest == rest;
    } else {
      assert ps[j..k][0] == ps[j] && ps[j..k][1..] == ps[j + 1..k];
      var more := Flatten(ps[j + 1..k]) + rest;
      assert Flatten(ps[j..k]) + rest == ps[j] + more;
      PieceStep(m, b, j, more);
      PiecesFrom(m, b, j + 1, k, rest);
    }
  }

  // ----- Whole messages -----

  /** What a message comes back as. */
  function Expected(hmac: Hmac, m: StunMessage, key: seq<byte>): StunMessage
    requires m.Valid()
  {
    StunMessage(m.msgType, |Body(m)| + |Signed(hmac, m, key)|, m.id,
      Normal(m.mappedAddress), Normal(m.responseAddress), m.changeRequest, Normal(m.sourceAddress),
      Normal(m.changedAddress), m.username, m.password, Integrity(hmac, m, key), None, None, Normal(m.reflectedFrom))
  }

  lemma {:induction false} ParseHeader(m: StunMessage, length: Word16, body: seq<byte>)
    requires |m.id| == 16 && |body| == length
    ensures Parse(Header(m, length) + body) == ParseAttributes(body, NoMessage(m.msgType, length, m.id))
  {
    hide Encode16, Decode16, ParseAttributes;
    var raw := Header(m, length) + body;
    assert raw[..2] == Encode16(m.msgType) && raw[2..4] == Encode16(length) && raw[4..20] == m.id && raw[20..] == body;
    Decode16Undoes(m.msgType);
    Decode16Undoes(length);
  }

  lemma {:induction false} SignatureComesBack(hmac: Hmac, m: StunMessage, key: seq<byte>, now: StunMessage)
    requires m.Valid()
    ensures ParseAttributes(Signed(hmac, m, key), now) ==
      Parsed(if |key| > 0 then now.(messageIntegrity := Integrity(hmac, m, key)) else now)
  {
    hide Body;
    match Integrity(hmac, m, key)
    case None =>
    case Some(hash) =>
      assert ParseAttributes([], now.(messageIntegrity := Some(hash))) == Parsed(now.(messageIntegrity := Some(hash)));
      AttributeStep(MESSAGE_INTEGRITY, 20, hash, [], now);
      assert Attribute(MESSAGE_INTEGRITY, hash) == Encode16(MESSAGE_INTEGRITY) + Encode16(20) + hash + [];
  }

  /** Encoding and then parsing recovers every field, and the hash under the password. */
  lemma {:induction false} ParseUndoesEncode(hmac: Hmac, m: StunMessage, key: seq<byte>)
    requires m.Valid() && m.errorCode.None? && m.unknownAttributes.None?
    ensures Parse(Encoded(hmac, m, key)) == Parsed(Expected(hmac, m, key))
    ensures Expected(hmac, m, key).msgLength == |Encoded(hmac, m, key)| - HEADER_SIZE
  {
    hide ParseAttributes, Pieces, Signed, Integrity;
    var signed := Signed(hmac, m, key);
    var length := |Body(m)| + |signed|;
    ParseHeader(m, length, Body(m) + signed);
    var b := NoMessage(m.msgType, length, m.id);
    assert After(m, b, 0) == b;
    assert Pieces(m)[0..10] == Pieces(m);
    PiecesFrom(m, b, 0, 10, signed);
    SignatureComesBack(hmac, m, key, After(m, b, 10));
    NoKeyNoHash(hmac, m, key);
  }

  lemma {:induction false} NoKeyNoHash(hmac: Hmac, m: StunMessage, key: seq<byte>)
    requires m.Valid()
    ensures |key| == 0 ==> Integrity(hmac, m, key) == None
  {}

  // ----- Messages that do not come back -----

  /** An attribute that claims two octets more than it has takes them from what follows,
      and fails when nothing does. */
  lemma {:induction false} OverlongStep(t: Word16, v: seq<byte>, rest: seq<byte>, m: StunMessage)
    requires |v| + 2 < 0x1_0000 && (rest == [] || |rest| >= 2)
    ensures ParseAttributes(Encode16(t) + Encode16(|v| + 2) + v + rest, m) ==
      if rest == [] then Failed else
        match ParseAttribute(t, v + rest[..2], m)
        case Parsed(m') => ParseAttributes(rest[2..], m')
        case fault => fault
  {
    hide ParseAttribute;
    var body := Encode16(t) + Encode16(|v| + 2) + v + rest;
    if rest == [] {
      assert body[..2] == Encode16(t) && body[2..4] == Encode16(|v| + 2);
      Decode16Undoes(|v| + 2);
    } else {
      assert body == Encode16(t) + Encode16(|v| + 2) + (v + rest[..2]) + rest[2..];
      AttributeStep(t, |v| + 2, v + rest[..2], rest[2..], m);
    }
  }

  /** A length that is no hash's, where a hash is due. */
  lemma {:induction false} WrongTypeFails(t: Word16, n: Word16, rest: seq<byte>, m: StunMessage)
    requires t == 20 || (t == MESSAGE_INTEGRITY && n != 20)
    ensures ParseAttributes(Encode16(t) + Encode16(n) + rest, m) == Failed
  {
    var body := Encode16(t) + Encode16(n) + rest;
    assert body[..2] == Encode16(t) && body[2..4] == Encode16(n);
    Decode16Undoes(t);
    Decode16Undoes(n);
  }

  /** What follows an error or a list of unknown attributes, less two octets, never parses. */
  lemma {:induction false} ShiftedEndFails(hmac: Hmac, m: StunMessage, key: seq<byte>, now: StunMessage)
    requires m.Valid()
    ensures var rest := AddressPiece(REFLECTED_FROM, m.reflectedFrom) + Signed(hmac, m, key);
      rest != [] ==> |rest| >= 12 && ParseAttributes(rest[2..], now) == Failed
  {
    hide Body, ParseAttributes;
    var piece, signed := AddressPiece(REFLECTED_FROM, m.reflectedFrom), Signed(hmac, m, key);
    var rest := piece + signed;
    if m.reflectedFrom.Some? {
      var a := m.reflectedFrom.value;
      var n := a.pad as int * 0x100 + IPV4_FAMILY;
      assert rest[2..] == Encode16(8) + Encode16(n) + rest[6..];
      WrongTypeFails(MESSAGE_INTEGRITY, n, rest[6..], now);
    } else if |key| > 0 {
      assert piece == [] && rest == signed;
      var hash := Integrity(hmac, m, key).value;
      Encode16Undoes(hash[..2]);
      assert rest[2..] == Encode16(20) + Encode16(Decode16(hash[..2])) + hash[2..];
      WrongTypeFails(20, Decode16(hash[..2]), hash[2..], now);
    }
  }

  /** The one attribute of m that claims too much. */
  lemma {:induction false} Overlong(m: StunMessage) returns (t: Word16, v: seq<byte>)
    requires m.Valid() && (m.errorCode.Some? <==> m.unknownAttributes.None?)
    ensures |v| + 2 < 0x1_0000
    ensures ErrorPiece(m.errorCode) + UnknownPiece(m.unknownAttributes) == Encode16(t) + Encode16(|v| + 2) + v
  {
    if m.errorCode.Some? {
      var e := m.errorCode.value;
      t, v := ERROR_CODE, Encode16(e.pad) + [e.errorClass, e.number] + e.reason;
    } else {
      t, v := UNKNOWN_ATTRIBUTE, Words(m.unknownAttributes.value);
    }
  }

  /** The parser reaches the two faulty attributes with all before them read. */
  lemma {:induction false} ParseUpToFault(hmac: Hmac, m: StunMessage, key: seq<byte>)
    requires m.Valid()
    ensures var signed := Signed(hmac, m, key);
      var b := NoMessage(m.msgType, |Body(m)| + |signed|, m.id);
      Parse(Encoded(hmac, m, key)) == ParseAttributes(
        ErrorPiece(m.errorCode) + UnknownPiece(m.unknownAttributes)
        + (AddressPiece(REFLECTED_FROM, m.reflectedFrom) + signed), After(m, b, 7))
  {
    hide Parse, ParseAttributes, Signed, AddressPiece, ErrorPiece, UnknownPiece, After, Body, Pieces, Flatten, Header;
    var signed := Signed(hmac, m, key);
    var length := |Body(m)| + |signed|;
    var b := NoMessage(m.msgType, length, m.id);
    var rest := ErrorPiece(m.errorCode) + UnknownPiece(m.unknownAttributes)
      + (AddressPiece(REFLECTED_FROM, m.reflectedFrom) + signed);
    BodyIsShort(m);
    ParseHeader(m, length, Body(m) + signed);
    BodySplits(m);
    Regroup(Flatten(Pieces(m)[0..7]), ErrorPiece(m.errorCode), UnknownPiece(m.unknownAttributes),
            AddressPiece(REFLECTED_FROM, m.reflectedFrom), signed);
    AfterNone(m, b);
    PiecesFrom(m, b, 0, 7, rest);
  }

  lemma {:induction false} Regroup(a: seq<byte>, b: seq<byte>, c: seq<byte>, d: seq<byte>, e: seq<byte>)
    ensures a + b + c + d + e == a + (b + c + (d + e))
  {}

  /** Together with ParseUndoesEncode: of the messages without both an error and a list of
      unknown attributes, exactly those with neither can be parsed. */
  lemma {:induction false} OverlongDoesNotComeBack(hmac: Hmac, m: StunMessage, key: seq<byte>)
    requires m.Valid() && (m.errorCode.Some? <==> m.unknownAttributes.None?)
    ensures !Parse(Encoded(hmac, m, key)).Parsed?
  {
    hide Parse, ParseAttributes, ParseAttribute, Signed, AddressPiece, ErrorPiece, UnknownPiece, After, Body, Encoded,
         Encode16;
    var t, v := Overlong(m);
    var rest := AddressPiece(REFLECTED_FROM, m.reflectedFrom) + Signed(hmac, m, key);
    var now := After(m, NoMessage(m.msgType, |Body(m)| + |Signed(hmac, m, key)|, m.id), 7);
    ParseUpToFault(hmac, m, key);
    ShiftedEndFails(hmac, m, key, now);
    OverlongStep(t, v, rest, now);
    ShiftedEndFailsFor(hmac, m, key, ParseAttribute(t, v + if rest == [] then [] else rest[..2], now));
  }

  lemma {:induction false} AfterNone(m: StunMessage, b: StunMessage)
    requires b == NoMessage(b.msgType, b.msgLength, b.id)
    ensures After(m, b, 0) == b
  {}

  lemma {:induction false} ShiftedEndFailsFor(hmac: Hmac, m: StunMessage, key: seq<byte>, o: Outcome)
    requires m.Valid()
    ensures var rest := AddressPiece(REFLECTED_FROM, m.reflectedFrom) + Signed(hmac, m, key);
      rest != [] ==> |rest| >= 12 && (o.Parsed? ==> ParseAttributes(rest[2..], o.msg) == Failed)
  {
    ShiftedEndFails(hmac, m, key, if o.Parsed? then o.msg else m);
  }

  lemma {:induction false} BodySplits(m: StunMessage)
    requires m.Valid()
    ensures Body(m) == Flatten(Pieces(m)[0..7]) + ErrorPiece(m.errorCode) + UnknownPiece(m.unknownAttributes)
      + AddressPiece(REFLECTED_FROM, m.reflectedFrom)
  {
    hide AddressPiece, ErrorPiece, UnknownPiece, TextPiece, ChangePiece;
    var ps := Pieces(m);
    assert ps == ps[0..7] + ps[7..];
    FlattenAppends(ps[0..7], ps[7..]);
    var tail := ps[7..];
    assert Flatten(tail) == tail[0] + Flatten(tail[1..]) && Flatten(tail[1..]) == tail[1] + Flatten(tail[2..]);
    assert Flatten(tail[2..]) == tail[2] + Flatten(tail[3..]) && Flatten(tail[3..]) == [];
  }

  /** Of a list of unknown attributes only the first half of the words is read: it comes back
      just when it is empty. */
  lemma {:induction false} UnknownComesBack(ws: seq<Word16>)
    ensures ParseUnknown(Words(ws)) == Some(ws) <==> ws == []
  {
    assert Words([]) == [] && ParseUnknown([]).value == [];
    if ParseUnknown(Words(ws)) == Some(ws) {
      assert |ParseUnknown(Words(ws)).value| == |Words(ws)| / 4;
    }
  }

  // ----- The round trip is exact -----

  /** The octets it takes at least to change four of the fields of a message. */
  function Cost(a: StunMessage, b: StunMessage): nat {
    (if a.reflectedFrom == b.reflectedFrom then 0 else 12)
    + (if a.messageIntegrity == b.messageIntegrity then 0 else 24)
    + (if a.errorCode == b.errorCode then 0 else 8)
    + (if a.unknownAttributes == b.unknownAttributes then 0 else 4)
  }

  lemma {:induction false} AttributeCosts(t: Word16, v: seq<byte>, m: StunMessage)
    ensures var o := ParseAttribute(t, v, m); o.Parsed? ==> Cost(m, o.msg) <= 4 + |v|
  {
    hide Decode16, Decode32;
  }

  lemma {:induction false} CostsAdd(a: StunMessage, b: StunMessage, c: StunMessage)
    ensures Cost(a, c) <= Cost(a, b) + Cost(b, c)
  {}

  /** What is parsed does not change more than its octets pay for. */
  lemma {:induction false} ParsingCosts(body: seq<byte>, m: StunMessage)
    ensures var o := ParseAttributes(body, m); o.Parsed? ==> Cost(m, o.msg) <= |body|
    decreases |body|
  {
    if ParseAttributes(body, m).Parsed? && body != [] {
      hide ParseAttribute, Cost;
      var t, n: int := Decode16(body[..2]), Decode16(body[2..4]);
      var o := ParseAttribute(t, body[4..4 + n], m);
      AttributeCosts(t, body[4..4 + n], m);
      ParsingCosts(body[4 + n..], o.msg);
      CostsAdd(m, o.msg, ParseAttributes(body, m).msg);
    } else {
      assert Cost(m, m) == 0;
    }
  }

  /** A message as its reader should see it. */
  function Whole(hmac: Hmac, m: StunMessage, key: seq<byte>): StunMessage
    requires m.Valid()
  {
    Expected(hmac, m, key).(errorCode := m.errorCode, unknownAttributes := m.unknownAttributes)
  }

  /** The error code is read with two octets too many. */
  lemma {:induction false} ErrorReadWrong(e: ErrorCode, more: seq<byte>, now: StunMessage)
    requires |more| == 2 && |e.reason| < STUN_MAX_STRING
    ensures var o := ParseAttribute(ERROR_CODE, Encode16(e.pad) + [e.errorClass, e.number] + e.reason + more, now);
      o.Parsed? ==> o.msg.errorCode != Some(e) && o.msg == now.(errorCode := o.msg.errorCode)
  {
    hide Encode16, Decode16;
    var v := Encode16(e.pad) + [e.errorClass, e.number] + e.reason + more;
    assert |v[4..]| == |e.reason| + 2;
  }

  /** What is still to be read costs more than what is left. */
  lemma {:induction false} RestCosts(hmac: Hmac, m: StunMessage, key: seq<byte>, now: StunMessage)
    requires m.Valid() && m.errorCode.Some? && m.unknownAttributes.Some?
    requires now.errorCode != m.errorCode && now.unknownAttributes.None? && now.reflectedFrom.None?
      && now.messageIntegrity.None?
    ensures Cost(now, Whole(hmac, m, key))
         == 12 + |AddressPiece(REFLECTED_FROM, m.reflectedFrom)| + |Signed(hmac, m, key)|
    ensures |UnknownPiece(m.unknownAttributes)| <= 12
  {
    hide Body;
  }

  /** With both an error code and a list of unknown attributes, the octets behind the error
      do not suffice for what they would have to say. */
  lemma {:induction false} BothDoNotComeBack(hmac: Hmac, m: StunMessage, key: seq<byte>)
    requires m.Valid() && m.errorCode.Some? && m.unknownAttributes.Some?
    ensures Parse(Encoded(hmac, m, key)) != Parsed(Whole(hmac, m, key))
  {
    var e, unknown := m.errorCode.value, UnknownPiece(m.unknownAttributes);
    var v := Encode16(e.pad) + [e.errorClass, e.number] + e.reason;
    var end := AddressPiece(REFLECTED_FROM, m.reflectedFrom) + Signed(hmac, m, key);
    var now := After(m, NoMessage(m.msgType, |Body(m)| + |Signed(hmac, m, key)|, m.id), 7);
    var rest := unknown + end;
    assert ErrorPiece(m.errorCode) == Encode16(ERROR_CODE) + Encode16(|v| + 2) + v && |unknown| >= 4;
    hide Parse, ParseAttributes, ParseAttribute, Signed, AddressPiece, ErrorPiece, UnknownPiece, Body, Encoded,
         Encode16, Cost, Whole;
    ParseUpToFault(hmac, m, key);
    assert ErrorPiece(m.errorCode) + unknown + end == ErrorPiece(m.errorCode) + rest;
    OverlongStep(ERROR_CODE, v, rest, now);
    var o := ParseAttribute(ERROR_CODE, v + rest[..2], now);
    ErrorReadWrong(e, rest[..2], now);
    if o.Parsed? {
      RestCosts(hmac, m, key, o.msg);
      ParsingCosts(rest[2..], o.msg);
    }
  }

  /** Encoding and then parsing recovers a message if and only if it has neither an error
      code nor a list of unknown attributes. */
  lemma {:induction false} RoundTripIsExact(hmac: Hmac, m: StunMessage, key: seq<byte>)
    requires m.Valid()
    ensures Parse(Encoded(hmac, m, key)) == Parsed(Whole(hmac, m, key))
      <==> m.errorCode.None? && m.unknownAttributes.None?
  {
    hide Parse, Encoded, Body, Signed, Integrity;
    if m.errorCode.None? && m.unknownAttributes.None? {
      ParseUndoesEncode(hmac, m, key);
    } else if m.errorCode.Some? && m.unknownAttributes.Some? {
      BothDoNotComeBack(hmac, m, key);
    } else {
      OverlongDoesNotComeBack(hmac, m, key);
    }
  }
}
