/** RADIUS attributes and the list of them that a message carries (section 5 of RFC 2865;
    radius/RadiusAttribute.cxx, and decodeAttributes of radius/RadiusMessage.cxx). */
module RadiusAttributes {
  import opened Bytes
  import opened RadiusPassword

  const RA_USER_PASSWORD := 2
  const RA_NAS_IP_ADDRESS := 4
  const RA_VENDOR_SPECIFIC := 26

  const RP_ACCESS_REQUEST := 1
  const RP_ACCESS_ACCEPT := 2
  const RP_ACCESS_REJECT := 3
  const RP_ACCOUNTING_REQUEST := 4
  const RP_ACCOUNTING_RESPONSE := 5
  const RP_ACCESS_CHALLENGE := 11

  datatype RadiusAttribute = RadiusAttribute(typ: byte, value: seq<byte>, vendorId: Word32) {
    /** What the constructors establish. */
    predicate WellFormed() {
      && (typ == RA_VENDOR_SPECIFIC <==> vendorId != 0)
      && (typ == RA_USER_PASSWORD ==> |value| % 16 == 0)
    }

    /** RadiusAttribute::length() */
    function Length(): nat { |value| + 2 + if vendorId == 0 then 0 else 4 }

    /** The value fits the one-octet length, and a vendor's value is long enough for
        decodeAttributes. */
    predicate Encodable() {
      WellFormed() && Length() <= 255 && (typ == RA_VENDOR_SPECIFIC ==> |value| >= 3)
    }

    function Header(): seq<byte> {
      if typ == RA_VENDOR_SPECIFIC then
        [typ, (|value| + 6) % 0x100] + Encode32(vendorId)
      else
        [typ, (|value| + 2) % 0x100]
    }

    function Bytes(): (s: seq<byte>)
      ensures WellFormed() ==> |s| == Length()
    {
      Header() + value
    }
  }

  function Padded(value: seq<byte>): (p: seq<byte>)
    ensures |p| % 16 == 0 && value <= p && |p| < |value| + 16
    ensures forall i :: |value| <= i < |p| ==> p[i] == 0
  {
    if |value| % 16 == 0 then value else value + Zeros(16 - |value| % 16)
  }

  /** RadiusMaxAttributeLength, the size of the buffer in which a password is padded. */
  const MAX_ATTRIBUTE_LENGTH := 255

  /** A password is padded with zeros to a multiple of 16 octets.  Not ok: the padded
      password leaves the buffer, as it does from 241 octets on. */
  method NewAttribute(typ: byte, value: seq<byte>, vendorId: Word32) returns (ok: bool, attr: RadiusAttribute)
    requires typ == RA_VENDOR_SPECIFIC <==> vendorId != 0
    ensures ok <==> (typ == RA_USER_PASSWORD && |value| % 16 != 0 ==> |value| <= 240)
    ensures ok ==> attr == RadiusAttribute(typ, if typ == RA_USER_PASSWORD then Padded(value) else value, vendorId)
    ensures ok ==> attr.WellFormed()
  {
    attr := RadiusAttribute(typ, value, vendorId);
    if typ == RA_USER_PASSWORD {
      if |value| % 16 != 0 {
        var length := |value|;
        if length + (16 - length % 16) > MAX_ATTRIBUTE_LENGTH {
          return false, attr;
        }
        var value16 := value + Zeros(16 - length % 16);
        attr := attr.(value := value16[..(length + 16) / 16 * 16]);
      }
    }
    ok := true;
  }

  /** RadiusAttribute::encode appends to a growing buffer. */
  method Encode(attr: RadiusAttribute) returns (msgDat: seq<byte>)
    ensures msgDat == attr.Bytes()
  {
    msgDat := [attr.typ];
    if attr.typ == RA_VENDOR_SPECIFIC {
      var msgLen := (|attr.value| + 6) % 0x100;
      msgDat := msgDat + [msgLen];
      msgDat := msgDat + Encode32(attr.vendorId);
      msgDat := msgDat + attr.value;
    } else {
      var msgLen := (|attr.value| + 2) % 0x100;
      msgDat := msgDat + [msgLen];
      msgDat := msgDat + attr.value;
    }
  }

  // ----- Attribute lists -----

  function EncodeAll(attrs: seq<RadiusAttribute>): seq<byte> {
    if attrs == [] then [] else attrs[0].Bytes() + EncodeAll(attrs[1..])
  }

  /** What is private to one exchange: the hash, the shared secret, and the request's code
      and authenticator. */
  datatype Context = Context(md5: Hash, secret: seq<byte>, code: byte, authenticator: Digest)

  /** The attribute as it travels: a password is hidden. */
  function Hidden(c: Context, attr: RadiusAttribute): (h: RadiusAttribute)
    requires attr.WellFormed()
    ensures h.WellFormed() && h.Length() == attr.Length()
  {
    if attr.typ == RA_USER_PASSWORD then
      attr.(value := Hide(c.md5, c.secret, c.authenticator, attr.value))
    else
      attr
  }

  function Revealed(c: Context, attr: RadiusAttribute): (h: RadiusAttribute)
    requires attr.WellFormed()
    ensures h.WellFormed() && h.Length() == attr.Length()
  {
    if attr.typ == RA_USER_PASSWORD then
      attr.(value := Reveal(c.md5, c.secret, c.authenticator, attr.value))
    else
      attr
  }

  predicate AllWellFormed(attrs: seq<RadiusAttribute>) {
    forall a :: a in attrs ==> a.WellFormed()
  }

  function HiddenAll(c: Context, attrs: seq<RadiusAttribute>): (hs: seq<RadiusAttribute>)
    requires AllWellFormed(attrs)
    ensures |hs| == |attrs| && AllWellFormed(hs)
  {
    if attrs == [] then [] else
      assert attrs[0] in attrs && forall a :: a in attrs[1..] ==> a in attrs;
      [Hidden(c, attrs[0])] + HiddenAll(c, attrs[1..])
  }

  /** How decoding ends: the list, an exception, or a failed assertion (a vendor id of
      zero in a vendor-specific attribute). */
  datatype Decoded = Attributes(list: seq<RadiusAttribute>) | Invalid | Aborted

  /** The attribute at the head of a body, before a password is revealed. */
  function HeadAttribute(body: seq<byte>): RadiusAttribute
    requires |body| >= 2 && 2 <= body[1] as int <= |body|
    requires body[0] == RA_VENDOR_SPECIFIC ==> body[1] > 8
  {
    if body[0] == RA_VENDOR_SPECIFIC then
      RadiusAttribute(body[0], body[6..body[1]], Decode32(body[2..6]))
    else
      RadiusAttribute(body[0], body[2..body[1]], 0)
  }

  /** Whether decoding gets past the attribute at the head of a body. */
  function HeadFault(c: Context, body: seq<byte>): Decoded
    requires body != []
    ensures HeadFault(c, body).Attributes? ==>
      |body| >= 2 && 2 <= body[1] as int <= |body| && (body[0] == RA_VENDOR_SPECIFIC ==> body[1] > 8)
      && HeadAttribute(body).Encodable()
  {
    if |body| < 2 || body[1] < 2 || body[1] as int > |body| then Invalid
    else if body[0] == RA_VENDOR_SPECIFIC then
      if body[1] <= 8 then Invalid
      else if Decode32(body[2..6]) == 0 then Aborted
      else Attributes([])
    else if body[0] == RA_USER_PASSWORD && (c.code != RP_ACCESS_REQUEST || (body[1] - 2) % 16 != 0) then Invalid
    else Attributes([])
  }

  function Decode(c: Context, body: seq<byte>): Decoded
    decreases |body|
  {
    if body == [] then Attributes([])
    else if !HeadFault(c, body).Attributes? then HeadFault(c, body)
    else
      match Decode(c, body[body[1]..])
      case Attributes(rest) => Attributes([Revealed(c, HeadAttribute(body))] + rest)
      case fault => fault
  }

  // ----- Decoding is exact -----

  lemma {:induction false} HeadOfEncoding(a: RadiusAttribute, rest: seq<byte>)
    requires a.Encodable()
    ensures var body := a.Bytes() + rest;
      && |body| >= 2 && body[1] as int == a.Length() <= |body| && body[0] == a.typ
      && HeadAttribute(body) == a && body[body[1]..] == rest
  {
    var body := a.Bytes() + rest;
    assert body[..2] == a.Header()[..2];
    if a.typ == RA_VENDOR_SPECIFIC {
      Decode32Undoes(a.vendorId);
      assert body[2..6] == Encode32(a.vendorId);
    }
    assert body[|a.Header()|..body[1]] == a.value;
    assert body[body[1]..] == rest;
  }

  lemma {:induction false} EncodingOfHead(body: seq<byte>)
    requires |body| >= 2 && 2 <= body[1] as int <= |body|
    requires body[0] == RA_VENDOR_SPECIFIC ==> body[1] > 8 && Decode32(body[2..6]) != 0
    ensures HeadAttribute(body).Bytes() == body[..body[1]]
  {
    if body[0] == RA_VENDOR_SPECIFIC {
      Encode32Undoes(body[2..6]);
    }
  }

  lemma {:induction false} HiddenRevealed(c: Context, a: RadiusAttribute)
    requires a.WellFormed()
    ensures Hidden(c, Revealed(c, a)) == a && Revealed(c, Hidden(c, a)) == a
  {
    if a.typ == RA_USER_PASSWORD {
      HideUndoesReveal(c.md5, c.secret, c.authenticator, a.value);
      RevealUndoesHide(c.md5, c.secret, c.authenticator, a.value);
    }
  }

  /** The lists that can travel: each attribute fits, and a password only in an
      Access-Request. */
  predicate Admissible(c: Context, attrs: seq<RadiusAttribute>)
    ensures Admissible(c, attrs) ==> AllWellFormed(attrs)
  {
    forall a :: a in attrs ==> a.Encodable() && (a.typ == RA_USER_PASSWORD ==> c.code == RP_ACCESS_REQUEST)
  }

  function Prepend(a: RadiusAttribute, d: Decoded): Decoded {
    match d
    case Attributes(rest) => Attributes([a] + rest)
    case fault => fault
  }

  lemma {:induction false} DecodeStep(c: Context, a: RadiusAttribute, rest: seq<byte>)
    requires a.Encodable() && (a.typ == RA_USER_PASSWORD ==> c.code == RP_ACCESS_REQUEST)
    ensures Decode(c, a.Bytes() + rest) == Prepend(Revealed(c, a), Decode(c, rest))
  {
    HeadOfEncoding(a, rest);
    var body := a.Bytes() + rest;
    assert HeadFault(c, body).Attributes?;
  }

  /** Decoding a body that was encoded gives the list back, its passwords revealed. */
  lemma {:induction false} DecodeUndoesEncode(c: Context, attrs: seq<RadiusAttribute>)
    requires Admissible(c, attrs)
    ensures Decode(c, EncodeAll(HiddenAll(c, attrs))) == Attributes(attrs)
    decreases |attrs|
  {
    hide Decode, HiddenAll, EncodeAll, Hidden, Revealed, RadiusAttribute.Encodable;
    if attrs == [] {
      DecodeNothing(c);
    } else {
      var a, rest := attrs[0], attrs[1..];
      assert a in attrs && forall x :: x in rest ==> x in attrs;
      HiddenTravels(c, a);
      DecodeStep(c, Hidden(c, a), EncodeAll(HiddenAll(c, rest)));
      HiddenRevealed(c, a);
      DecodeUndoesEncode(c, rest);
      assert [a] + rest == attrs;
      EncodeHiddenCons(c, a, rest);
    }
  }

  lemma {:induction false} DecodeNothing(c: Context)
    ensures EncodeAll(HiddenAll(c, [])) == [] && Decode(c, []) == Attributes([])
  {}

  lemma {:induction false} HiddenTravels(c: Context, a: RadiusAttribute)
    requires a.Encodable()
    ensures Hidden(c, a).Encodable() && Hidden(c, a).typ == a.typ
  {
    hide Hide;
  }

  lemma {:induction false} EncodeHiddenCons(c: Context, a: RadiusAttribute, rest: seq<RadiusAttribute>)
    requires a.WellFormed() && AllWellFormed(rest)
    ensures EncodeAll(HiddenAll(c, [a] + rest)) == Hidden(c, a).Bytes() + EncodeAll(HiddenAll(c, rest))
  {
    assert ([a] + rest)[1..] == rest;
    assert ([Hidden(c, a)] + HiddenAll(c, rest))[1..] == HiddenAll(c, rest);
  }

  /** A body that decodes is exactly the encoding of its list: the lengths partition it,
      and nothing is lost or made up. */
  lemma {:induction false} EncodeUndoesDecode(c: Context, body: seq<byte>)
    requires Decode(c, body).Attributes?
    ensures Admissible(c, Decode(c, body).list)
    ensures EncodeAll(HiddenAll(c, Decode(c, body).list)) == body
    decreases |body|
  {
    hide Decode, Hidden, Revealed, HeadAttribute, HeadFault, EncodeAll, HiddenAll, RadiusAttribute.Bytes,
         RadiusAttribute.Encodable;
    if body == [] {
      DecodeNothing(c);
    } else {
      DecodeUnfolds(c, body);
      var head, tail := HeadAttribute(body), body[body[1]..];
      var a, rest := Revealed(c, head), Decode(c, tail).list;
      EncodeUndoesDecode(c, tail);
      HiddenRevealed(c, head);
      assert body[..body[1]] + tail == body;
      EncodeHiddenCons(c, a, rest);
      AdmissibleCons(c, a, rest);
    }
  }

  lemma {:induction false} AdmissibleCons(c: Context, a: RadiusAttribute, rest: seq<RadiusAttribute>)
    requires a.Encodable() && (a.typ == RA_USER_PASSWORD ==> c.code == RP_ACCESS_REQUEST) && Admissible(c, rest)
    ensures Admissible(c, [a] + rest)
  {
    hide RadiusAttribute.Encodable;
  }

  lemma {:induction false} DecodeUnfolds(c: Context, body: seq<byte>)
    requires body != [] && Decode(c, body).Attributes?
    ensures HeadFault(c, body).Attributes?
    ensures var head, tail := HeadAttribute(body), body[body[1]..];
      && Decode(c, tail).Attributes? && Decode(c, body).list == [Revealed(c, head)] + Decode(c, tail).list
      && head.WellFormed() && head.Bytes() == body[..body[1]]
      && Revealed(c, head).Encodable() && (Revealed(c, head).typ == RA_USER_PASSWORD ==> c.code == RP_ACCESS_REQUEST)
  {
    hide Reveal, RadiusAttribute.Bytes;
    EncodingOfHead(body);
  }

  /** Both directions at once. */
  lemma {:induction false} DecodeIsExact(c: Context, body: seq<byte>, attrs: seq<RadiusAttribute>)
    ensures Decode(c, body) == Attributes(attrs) <==>
      Admissible(c, attrs) && body == EncodeAll(HiddenAll(c, attrs))
  {
    if Decode(c, body) == Attributes(attrs) {
      EncodeUndoesDecode(c, body);
    }
    if Admissible(c, attrs) && body == EncodeAll(HiddenAll(c, attrs)) {
      DecodeUndoesEncode(c, attrs);
    }
  }
}
