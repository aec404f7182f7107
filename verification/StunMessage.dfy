/** STUN messages (section 11 of RFC 3489) as octets: what stund/stun.cxx writes, and what
    it makes of what it reads. */
module StunMessages {
  import opened Options
  import opened Bytes

  const MAPPED_ADDRESS := 1
  const RESPONSE_ADDRESS := 2
  const CHANGE_REQUEST := 3
  const SOURCE_ADDRESS := 4
  const CHANGED_ADDRESS := 5
  const USERNAME := 6
  const PASSWORD := 7
  const MESSAGE_INTEGRITY := 8
  const ERROR_CODE := 9
  const UNKNOWN_ATTRIBUTE := 10
  const REFLECTED_FROM := 11

  const IPV4_FAMILY := 1
  const STUN_MAX_STRING := 256
  const HEADER_SIZE := 20

  datatype Address = Address(pad: byte, family: byte, port: Word16, addr: Word32)
  datatype ErrorCode = ErrorCode(pad: Word16, errorClass: byte, number: byte, reason: seq<byte>)

  /** One flag and one field of the original are one option here. */
  datatype StunMessage = StunMessage(
    msgType: Word16, msgLength: Word16, id: seq<byte>,
    mappedAddress: Option<Address>, responseAddress: Option<Address>, changeRequest: Option<Word32>,
    sourceAddress: Option<Address>, changedAddress: Option<Address>,
    username: Option<seq<byte>>, password: Option<seq<byte>>, messageIntegrity: Option<seq<byte>>,
    errorCode: Option<ErrorCode>, unknownAttributes: Option<seq<Word16>>, reflectedFrom: Option<Address>)
  {
    /** The sizes of the fields of the original, and the assertion of encodeAtrString. */
    predicate Valid() {
      && |id| == 16
      && (username.Some? ==> IsText(username.value)) && (password.Some? ==> IsText(password.value))
      && (errorCode.Some? ==> |errorCode.value.reason| < STUN_MAX_STRING)
      && (unknownAttributes.Some? ==> |unknownAttributes.value| <= 4)
    }
  }

  predicate IsText(s: seq<byte>) { |s| < STUN_MAX_STRING && |s| % 4 == 0 }

  function NoMessage(msgType: Word16, msgLength: Word16, id: seq<byte>): StunMessage {
    StunMessage(msgType, msgLength, id, None, None, None, None, None, None, None, None, None, None, None)
  }

  // ----- Parsing -----

  /** Undefined: the code would copy outside its fields. */
  datatype Outcome = Failed | Undefined | Parsed(msg: StunMessage)

  function ParseAddress(v: seq<byte>): Option<Address> {
    if |v| != 8 || v[1] != IPV4_FAMILY then None
    else Some(Address(v[0], v[1], Decode16(v[2..4]), Decode32(v[4..8])))
  }

  function ParseUnknown(v: seq<byte>): Option<seq<Word16>> {
    if |v| >= 10 || |v| % 4 != 0 then None
    else Some(seq(|v| / 4, i requires 0 <= i < |v| / 4 => Decode16(v[2 * i..2 * i + 2])))
  }

  /** What the attribute of a type with a value does to the message read so far. */
  function ParseAttribute(t: Word16, v: seq<byte>, m: StunMessage): Outcome {
    var a := ParseAddress(v);
    if t == MAPPED_ADDRESS then if a.None? then Failed else Parsed(m.(mappedAddress := a))
    else if t == RESPONSE_ADDRESS then if a.None? then Failed else Parsed(m.(responseAddress := a))
    else if t == CHANGE_REQUEST then if |v| != 4 then Failed else Parsed(m.(changeRequest := Some(Decode32(v))))
    else if t == SOURCE_ADDRESS then if a.None? then Failed else Parsed(m.(sourceAddress := a))
    else if t == CHANGED_ADDRESS then if a.None? then Failed else Parsed(m.(changedAddress := a))
    else if t == USERNAME then if !IsText(v) then Failed else Parsed(m.(username := Some(v)))
    else if t == PASSWORD then if !IsText(v) then Failed else Parsed(m.(password := Some(v)))
    else if t == MESSAGE_INTEGRITY then if |v| != 20 then Failed else Parsed(m.(messageIntegrity := Some(v)))
    else if t == ERROR_CODE then
      if |v| >= 262 then Failed
      else if |v| < 4 || |v| >= 260 then Undefined
      else Parsed(m.(errorCode := Some(ErrorCode(Decode16(v[..2]), v[2], v[3], v[4..]))))
    else if t == UNKNOWN_ATTRIBUTE then
      if ParseUnknown(v).None? then Failed else Parsed(m.(unknownAttributes := ParseUnknown(v)))
    else if t == REFLECTED_FROM then if a.None? then Failed else Parsed(m.(reflectedFrom := a))
    else if t <= 0x7FFF then Failed else Parsed(m)
  }

  function ParseAttributes(body: seq<byte>, m: StunMessage): Outcome
    decreases |body|
  {
    if body == [] then Parsed(m)
    else if |body| < 4 then Failed
    else
      var t, n: int := Decode16(body[..2]), Decode16(body[2..4]);
      if n + 4 > |body| then Failed
      else
        match ParseAttribute(t, body[4..4 + n], m)
        case Parsed(m') => ParseAttributes(body[4 + n..], m')
        case fault => fault
  }

  function Parse(raw: seq<byte>): Outcome {
    if |raw| < HEADER_SIZE then Failed
    else
      var (t, n, id) := (Decode16(raw[..2]), Decode16(raw[2..4]), raw[4..20]);
      if n as int + HEADER_SIZE != |raw| then Failed
      else ParseAttributes(raw[20..], NoMessage(t, n, id))
  }

  // ----- Encoding -----

  function Attribute(t: Word16, v: seq<byte>): seq<byte>
    requires |v| < 0x1_0000
  {
    Encode16(t) + Encode16(|v|) + v
  }

  function AddressPiece(t: Word16, o: Option<Address>): (s: seq<byte>)
    ensures |s| == if o.None? then 0 else 12
  {
    if o.None? then [] else
      Attribute(t, [o.value.pad, IPV4_FAMILY] + Encode16(o.value.port) + Encode32(o.value.addr))
  }

  function ChangePiece(o: Option<Word32>): (s: seq<byte>)
    ensures |s| <= 8
  {
    if o.None? then [] else Attribute(CHANGE_REQUEST, Encode32(o.value))
  }

  function TextPiece(t: Word16, o: Option<seq<byte>>): (s: seq<byte>)
    requires o.Some? ==> IsText(o.value)
    ensures |s| < 260
  {
    if o.None? then [] else Attribute(t, o.value)
  }

  /** The length field counts two octets more than are written. */
  function ErrorPiece(o: Option<ErrorCode>): (s: seq<byte>)
    requires o.Some? ==> |o.value.reason| < STUN_MAX_STRING
    ensures |s| < 264
  {
    if o.None? then [] else
      var e := o.value;
      Encode16(ERROR_CODE) + Encode16(6 + |e.reason|) + (Encode16(e.pad) + [e.errorClass, e.number] + e.reason)
  }

  function Words(ws: seq<Word16>): (s: seq<byte>)
    ensures |s| == 2 * |ws|
  {
    if ws == [] then [] else Words(ws[..|ws| - 1]) + Encode16(ws[|ws| - 1])
  }

  /** The length field counts two octets more than are written. */
  function UnknownPiece(o: Option<seq<Word16>>): (s: seq<byte>)
    requires o.Some? ==> |o.value| <= 4
    ensures |s| <= 12
  {
    if o.None? then [] else Encode16(UNKNOWN_ATTRIBUTE) + Encode16(2 + 2 * |o.value|) + Words(o.value)
  }

  /** The attributes in the order of the encoder, each empty if it is not there. */
  function Pieces(m: StunMessage): (ps: seq<seq<byte>>)
    requires m.Valid()
    ensures |ps| == 10
  {
    [AddressPiece(MAPPED_ADDRESS, m.mappedAddress), AddressPiece(RESPONSE_ADDRESS, m.responseAddress),
     ChangePiece(m.changeRequest), AddressPiece(SOURCE_ADDRESS, m.sourceAddress),
     AddressPiece(CHANGED_ADDRESS, m.changedAddress), TextPiece(USERNAME, m.username),
     TextPiece(PASSWORD, m.password), ErrorPiece(m.errorCode), UnknownPiece(m.unknownAttributes),
     AddressPiece(REFLECTED_FROM, m.reflectedFrom)]
  }

  function Flatten(ps: seq<seq<byte>>): seq<byte> {
    if ps == [] then [] else ps[0] + Flatten(ps[1..])
  }

  type Hash20 = s: seq<byte> | |s| == 20 witness Zeros(20)

  /** HMAC with SHA-1, of a message under a key. */
  type Hmac = (seq<byte>, seq<byte>) -> Hash20

  function Header(m: StunMessage, length: Word16): seq<byte>
  {
    Encode16(m.msgType) + Encode16(length) + m.id
  }

  function Body(m: StunMessage): (s: seq<byte>)
    requires m.Valid()
    ensures |s| <= 1000
  {
    BodyIsShort(m);
    Flatten(Pieces(m))
  }

  lemma {:induction false} BodyIsShort(m: StunMessage)
    requires m.Valid()
    ensures |Flatten(Pieces(m))| <= 1000
  {
    var ps := Pieces(m);
    hide AddressPiece, ChangePiece, TextPiece, ErrorPiece, UnknownPiece, Pieces;
    FlattenTen(ps);
  }

  lemma {:induction false} FlattenTen(ps: seq<seq<byte>>)
    requires |ps| == 10
    ensures Flatten(ps) == ps[0] + ps[1] + ps[2] + ps[3] + ps[4] + ps[5] + ps[6] + ps[7] + ps[8] + ps[9]
  {
    FlattenFive(ps[..5]);
    FlattenFive(ps[5..]);
    FlattenAppends(ps[..5], ps[5..]);
    assert ps == ps[..5] + ps[5..];
  }

  lemma {:induction false} FlattenFive(ps: seq<seq<byte>>)
    requires |ps| == 5
    ensures Flatten(ps) == ps[0] + ps[1] + ps[2] + ps[3] + ps[4]
  {
    assert Flatten(ps) == ps[0] + Flatten(ps[1..]);
    assert Flatten(ps[1..]) == ps[1] + Flatten(ps[2..]);
    assert Flatten(ps[2..]) == ps[2] + Flatten(ps[3..]);
    assert Flatten(ps[3..]) == ps[3] + Flatten(ps[4..]);
    assert Flatten(ps[4..]) == ps[4] + Flatten(ps[5..]);
    assert Flatten(ps[5..]) == [];
  }

  lemma {:induction false} FlattenAppends(xs: seq<seq<byte>>, ys: seq<seq<byte>>)
    ensures Flatten(xs + ys) == Flatten(xs) + Flatten(ys)
    decreases |xs|
  {
    if xs == [] {
      assert xs + ys == ys;
    } else {
      assert (xs + ys)[0] == xs[0] && (xs + ys)[1..] == xs[1..] + ys;
      FlattenAppends(xs[1..], ys);
    }
  }

  /** The integrity attribute, computed while the length field is still zero. */
  function Integrity(hmac: Hmac, m: StunMessage, key: seq<byte>): Option<Hash20>
    requires m.Valid()
  {
    if |key| > 0 then Some(hmac(Header(m, 0) + Body(m), key)) else None
  }

  function Signed(hmac: Hmac, m: StunMessage, key: seq<byte>): (s: seq<byte>)
    requires m.Valid()
    ensures |s| <= 24
  {
    match Integrity(hmac, m, key)
    case None => []
    case Some(hash) => Attribute(MESSAGE_INTEGRITY, hash)
  }

  function Encoded(hmac: Hmac, m: StunMessage, key: seq<byte>): seq<byte>
    requires m.Valid()
  {
    Header(m, |Body(m)| + |Signed(hmac, m, key)|) + (Body(m) + Signed(hmac, m, key))
  }
}
