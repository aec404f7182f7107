/** The octets of RADIUS messages, offset by offset, as RFC 2865 and RFC 2866 draw them. */
module RadiusFormat {
  import opened Bytes
  import opened RadiusPassword
  import opened RadiusAttributes
  import opened RadiusMessages

  /** The numbers that RFC 2865 and RFC 2866 assign. */
  lemma {:induction false} AssignedNumbers(code: byte)
    ensures RA_USER_PASSWORD == 2 && RA_NAS_IP_ADDRESS == 4 && RA_VENDOR_SPECIFIC == 26
    ensures RP_ACCESS_REQUEST == 1 && RP_ACCOUNTING_REQUEST == 4
    ensures IsResponse(code) <==> code == 2 || code == 3 || code == 5 || code == 11
  {}

  // ----- Attributes -----

  /** Section 5 of RFC 2865: type, length and value; section 5.26: with a vendor's number in
      front of the value. */
  predicate AttributeIs(s: seq<byte>, a: RadiusAttribute) {
    && |s| >= 2 && s[0] == a.typ && s[1] as int == |s|
    && if a.typ == 26 then
         |s| >= 6 && Number32(s, 2) == a.vendorId && s[6..] == a.value
       else
         s[2..] == a.value
  }

  /** Which attributes can travel. */
  lemma {:induction false} EncodableIsExact(a: RadiusAttribute)
    ensures a.Encodable() <==>
      && (a.typ == 26 <==> a.vendorId != 0)
      && (a.typ == 2 ==> |a.value| % 16 == 0)
      && (if a.typ == 26 then 3 <= |a.value| <= 249 else |a.value| <= 253)
  {}

  lemma {:induction false} AttributeHasFormat(a: RadiusAttribute)
    requires a.Encodable()
    ensures AttributeIs(a.Bytes(), a)
  {
    hide Encode32;
    var s := a.Bytes();
    if a.typ == RA_VENDOR_SPECIFIC {
      assert s[2..6] == Encode32(a.vendorId) && s[6..] == a.value;
      WrittenAt32(s, 2, a.vendorId);
    } else {
      assert s[2..] == a.value;
    }
  }

  /** A body is attributes one after the other. */
  predicate BodyIs(s: seq<byte>, attrs: seq<RadiusAttribute>)
    decreases |attrs|
  {
    if attrs == [] then s == [] else
      && |s| >= 2 && 2 <= s[1] as int <= |s|
      && AttributeIs(s[..s[1]], attrs[0]) && BodyIs(s[s[1]..], attrs[1..])
  }

  lemma {:induction false} BodyHasFormat(attrs: seq<RadiusAttribute>)
    requires forall i :: 0 <= i < |attrs| ==> attrs[i].Encodable()
    ensures BodyIs(EncodeAll(attrs), attrs)
    decreases |attrs|
  {
    hide AttributeIs, RadiusAttribute.Encodable, RadiusAttribute.Bytes;
    if attrs != [] {
      var a, rest := attrs[0], EncodeAll(attrs[1..]);
      AttributeHasFormat(a);
      AttributeSize(a);
      BodyHasFormat(attrs[1..]);
      var s := a.Bytes() + rest;
      assert s[..s[1]] == a.Bytes() && s[s[1]..] == rest;
    }
  }

  lemma {:induction false} AttributeSize(a: RadiusAttribute)
    requires a.Encodable()
    ensures |a.Bytes()| >= 2 && a.Bytes()[1] as int == |a.Bytes()|
  {}

  /** Of the attributes that travel, those of type 2 have their value hidden, and no other
      is changed. */
  lemma {:induction false} HiddenIsExact(c: Context, attrs: seq<RadiusAttribute>, i: nat)
    requires AllWellFormed(attrs) && i < |attrs|
    ensures var h, a := HiddenAll(c, attrs)[i], attrs[i];
      && h.typ == a.typ && h.vendorId == a.vendorId
      && if a.typ == 2 then IsChain(c.md5, c.secret, c.authenticator, a.value, h.value) else h.value == a.value
    decreases i
  {
    hide Hide, IsChain;
    assert attrs[0] in attrs && forall a :: a in attrs[1..] ==> a in attrs;
    if i == 0 {
      if attrs[0].typ == RA_USER_PASSWORD {
        HideIsChain(c.md5, c.secret, c.authenticator, attrs[0].value);
      }
    } else {
      HiddenIsExact(c, attrs[1..], i - 1);
    }
  }

  // ----- Packets -----

  /** Section 3 of RFC 2865: code, identifier, length, authenticator and attributes. */
  predicate PacketIs(s: seq<byte>, code: byte, id: byte, authenticator: Digest, body: seq<byte>) {
    && |s| == 20 + |body| && s[0] == code && s[1] == id && Number16(s, 2) == |s|
    && s[4..20] == authenticator && s[20..] == body
  }

  lemma {:induction false} WireHasFormat(code: byte, id: byte, authenticator: Digest, body: seq<byte>)
    requires HEADER_SIZE + |body| <= RADIUS_MAX_PACKET_SIZE
    ensures PacketIs(Wire(code, id, authenticator, body), code, id, authenticator, body)
  {
    hide Encode16;
    var s := Wire(code, id, authenticator, body);
    WrittenAt16(s, 2, |s|);
  }

  /** What has the format of a packet is the packet. */
  lemma {:induction false} FormatIsWire(s: seq<byte>, code: byte, id: byte, authenticator: Digest, body: seq<byte>)
    requires HEADER_SIZE + |body| <= RADIUS_MAX_PACKET_SIZE && PacketIs(s, code, id, authenticator, body)
    ensures s == Wire(code, id, authenticator, body)
  {
    hide Decode16, Encode16;
    NetworkOrder16(0, s[2..4]);
    WireOfRaw(s);
  }

  /** The response and the accounting authenticators: the digest of the packet that carries
      a given authenticator, and the secret behind it. */
  lemma {:induction false} SignatureIsDigest(md5: Hash, secret: seq<byte>, code: byte, id: byte,
                                             authenticator: Digest, body: seq<byte>, s: seq<byte>)
    requires HEADER_SIZE + |body| <= RADIUS_MAX_PACKET_SIZE && PacketIs(s, code, id, authenticator, body)
    ensures Signature(md5, secret, code, id, authenticator, body) == md5(s + secret)
  {
    hide Wire, PacketIs;
    FormatIsWire(s, code, id, authenticator, body);
  }

  /** What is accepted: a packet of 20 to 4096 octets, as long as it says, whose body is the
      encoding of attributes that can travel; and, when it is an accounting request, with
      room for the secret, signed over a zero authenticator. */
  lemma {:induction false} AcceptedIsExact(md5: Hash, secret: seq<byte>, raw: seq<byte>, attrs: seq<RadiusAttribute>)
    ensures (Receive(md5, secret, raw).Accepted? && Receive(md5, secret, raw).attrs == attrs) <==>
      && 20 <= |raw| <= 4096 && Number16(raw, 2) == |raw|
      && var c := Context(md5, secret, raw[0], raw[4..20]);
      && (forall a :: a in attrs ==> a.Encodable() && (a.typ == 2 ==> raw[0] == 1))
      && Admissible(c, attrs) && raw[20..] == EncodeAll(HiddenAll(c, attrs))
      && (raw[0] == 4 ==>
            && |raw| + |secret| <= 4096
            && raw[4..20] == md5(raw[..4] + Zeros(16) + raw[20..] + secret))
  {
    if 20 <= |raw| <= 4096 {
      var c := Context(md5, secret, raw[0], raw[4..20]);
      DecodeIsExact(c, raw[20..], attrs);
      NetworkOrder16(0, raw[2..4]);
      if Number16(raw, 2) == |raw| {
        var s := raw[..4] + Zeros(16) + raw[20..];
        ZeroedIsPacket(raw, s);
        SignatureIsDigest(md5, secret, raw[0], raw[1], Zeros(16), raw[20..], s);
      }
      hide Decode, EncodeAll, HiddenAll, Signature, RadiusAttribute.Encodable, Decode16;
    }
  }

  lemma {:induction false} ZeroedIsPacket(raw: seq<byte>, s: seq<byte>)
    requires 20 <= |raw| && Number16(raw, 2) == |raw| && s == raw[..4] + Zeros(16) + raw[20..]
    ensures PacketIs(s, raw[0], raw[1], Zeros(16), raw[20..])
  {}
}
