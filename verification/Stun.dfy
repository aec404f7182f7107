/** stunEncodeMessage and stunParseMessage of stund/stun.cxx. */
module Stun {
  import opened Options
  import opened Bytes
  import opened StunMessages

  // ----- Encoding -----

  /** encode: memcpy at a write pointer, which advances. */
  method Append(buf: array<byte>, ptr: nat, s: seq<byte>) returns (next: nat)
    requires ptr + |s| <= buf.Length
    modifies buf
    ensures next == ptr + |s| && buf[..next] == old(buf[..ptr]) + s
  {
    Put(buf, ptr, s);
    next := ptr + |s|;
    assert buf[..next] == buf[..ptr] + buf[ptr..next];
  }

  lemma {:induction false} SixAppended(s: seq<byte>, a: seq<byte>, b: seq<byte>, x: byte, y: byte, c: seq<byte>,
                                       d: seq<byte>)
    ensures s + a + b + [x] + [y] + c + d == s + (a + b + ([x, y] + c + d))
  {}

  lemma {:induction false} ErrorAppended(s: seq<byte>, a: seq<byte>, b: seq<byte>, c: seq<byte>, x: byte, y: byte,
                                         d: seq<byte>)
    ensures s + a + b + c + [x] + [y] + d == s + (a + b + (c + [x, y] + d))
  {}

  method EncodeAddress(buf: array<byte>, ptr: nat, t: Word16, o: Option<Address>) returns (next: nat)
    requires ptr + |AddressPiece(t, o)| <= buf.Length
    modifies buf
    ensures next == ptr + |AddressPiece(t, o)| && buf[..next] == old(buf[..ptr]) + AddressPiece(t, o)
  {
    hide Encode16, Encode32;
    next := ptr;
    if o.Some? {
      SixAppended(buf[..ptr], Encode16(t), Encode16(8), o.value.pad, IPV4_FAMILY, Encode16(o.value.port),
                  Encode32(o.value.addr));
      next := Append(buf, next, Encode16(t));
      next := Append(buf, next, Encode16(8));
      next := Append(buf, next, [o.value.pad]);
      next := Append(buf, next, [IPV4_FAMILY]);
      next := Append(buf, next, Encode16(o.value.port));
      next := Append(buf, next, Encode32(o.value.addr));
    }
  }

  method EncodeChange(buf: array<byte>, ptr: nat, o: Option<Word32>) returns (next: nat)
    requires ptr + |ChangePiece(o)| <= buf.Length
    modifies buf
    ensures next == ptr + |ChangePiece(o)| && buf[..next] == old(buf[..ptr]) + ChangePiece(o)
  {
    next := ptr;
    if o.Some? {
      next := Append(buf, next, Encode16(CHANGE_REQUEST));
      next := Append(buf, next, Encode16(4));
      next := Append(buf, next, Encode32(o.value));
    }
  }

  method EncodeText(buf: array<byte>, ptr: nat, t: Word16, o: Option<seq<byte>>) returns (next: nat)
    requires (o.Some? ==> IsText(o.value)) && ptr + |TextPiece(t, o)| <= buf.Length
    modifies buf
    ensures next == ptr + |TextPiece(t, o)| && buf[..next] == old(buf[..ptr]) + TextPiece(t, o)
  {
    next := ptr;
    if o.Some? {
      next := Append(buf, next, Encode16(t));
      next := Append(buf, next, Encode16(|o.value|));
      next := Append(buf, next, o.value);
    }
  }

  method EncodeError(buf: array<byte>, ptr: nat, o: Option<ErrorCode>) returns (next: nat)
    requires (o.Some? ==> |o.value.reason| < STUN_MAX_STRING) && ptr + |ErrorPiece(o)| <= buf.Length
    modifies buf
    ensures next == ptr + |ErrorPiece(o)| && buf[..next] == old(buf[..ptr]) + ErrorPiece(o)
  {
    next := ptr;
    if o.Some? {
      ghost var e := o.value;
      ErrorAppended(buf[..ptr], Encode16(ERROR_CODE), Encode16(6 + |e.reason|), Encode16(e.pad), e.errorClass,
                    e.number, e.reason);
      hide Encode16;
      next := Append(buf, next, Encode16(ERROR_CODE));
      next := Append(buf, next, Encode16(6 + |o.value.reason|));
      next := Append(buf, next, Encode16(o.value.pad));
      next := Append(buf, next, [o.value.errorClass]);
      next := Append(buf, next, [o.value.number]);
      next := Append(buf, next, o.value.reason);
    }
  }

  method EncodeUnknown(buf: array<byte>, ptr: nat, o: Option<seq<Word16>>) returns (next: nat)
    requires (o.Some? ==> |o.value| <= 4) && ptr + |UnknownPiece(o)| <= buf.Length
    modifies buf
    ensures next == ptr + |UnknownPiece(o)| && buf[..next] == old(buf[..ptr]) + UnknownPiece(o)
  {
    next := ptr;
    if o.Some? {
      next := Append(buf, next, Encode16(UNKNOWN_ATTRIBUTE));
      next := Append(buf, next, Encode16(2 + 2 * |o.value|));
      ghost var head := Encode16(UNKNOWN_ATTRIBUTE) + Encode16(2 + 2 * |o.value|);
      for i := 0 to |o.value|
        invariant next == ptr + 4 + 2 * i && buf[..next] == old(buf[..ptr]) + (head + Words(o.value[..i]))
      {
        next := Append(buf, next, Encode16(o.value[i]));
        assert o.value[..i + 1][..i] == o.value[..i];
      }
      assert o.value[..|o.value|] == o.value;
    }
  }

  /** The attributes in order, behind what the buffer starts with: first the five before
      the texts, then the others. */
  method EncodeFirst(buf: array<byte>, start: nat, msg: StunMessage) returns (ptr: nat)
    requires msg.Valid() && start + |Flatten(Pieces(msg)[..5])| <= buf.Length
    modifies buf
    ensures ptr == start + |Flatten(Pieces(msg)[..5])| && buf[..ptr] == old(buf[..start]) + Flatten(Pieces(msg)[..5])
  {
    hide AddressPiece, ChangePiece, TextPiece, ErrorPiece, UnknownPiece, Flatten;
    var ps := Pieces(msg)[..5];
    FlattenFive(ps);
    FiveAppended(buf[..start], ps[0], ps[1], ps[2], ps[3], ps[4]);
    ptr := start;
    ptr := EncodeAddress(buf, ptr, MAPPED_ADDRESS, msg.mappedAddress);
    ptr := EncodeAddress(buf, ptr, RESPONSE_ADDRESS, msg.responseAddress);
    ptr := EncodeChange(buf, ptr, msg.changeRequest);
    ptr := EncodeAddress(buf, ptr, SOURCE_ADDRESS, msg.sourceAddress);
    ptr := EncodeAddress(buf, ptr, CHANGED_ADDRESS, msg.changedAddress);
  }

  method EncodeSecond(buf: array<byte>, start: nat, msg: StunMessage) returns (ptr: nat)
    requires msg.Valid() && start + |Flatten(Pieces(msg)[5..])| <= buf.Length
    modifies buf
    ensures ptr == start + |Flatten(Pieces(msg)[5..])| && buf[..ptr] == old(buf[..start]) + Flatten(Pieces(msg)[5..])
  {
    hide AddressPiece, ChangePiece, TextPiece, ErrorPiece, UnknownPiece, Flatten;
    var ps := Pieces(msg)[5..];
    FlattenFive(ps);
    FiveAppended(buf[..start], ps[0], ps[1], ps[2], ps[3], ps[4]);
    ptr := start;
    ptr := EncodeText(buf, ptr, USERNAME, msg.username);
    ptr := EncodeText(buf, ptr, PASSWORD, msg.password);
    ptr := EncodeError(buf, ptr, msg.errorCode);
    ptr := EncodeUnknown(buf, ptr, msg.unknownAttributes);
    ptr := EncodeAddress(buf, ptr, REFLECTED_FROM, msg.reflectedFrom);
  }

  lemma {:induction false} FiveAppended(s: seq<byte>, a: seq<byte>, b: seq<byte>, c: seq<byte>, d: seq<byte>,
                                        e: seq<byte>)
    ensures s + a + b + c + d + e == s + (a + b + c + d + e)
  {}

  method EncodeBody(buf: array<byte>, start: nat, msg: StunMessage) returns (ptr: nat)
    requires msg.Valid() && start + |Body(msg)| <= buf.Length
    modifies buf
    ensures ptr == start + |Body(msg)| && buf[..ptr] == old(buf[..start]) + Body(msg)
  {
    hide Pieces, Flatten;
    ghost var ps, head := Pieces(msg), buf[..start];
    assert ps == ps[..5] + ps[5..];
    FlattenAppends(ps[..5], ps[5..]);
    ptr := EncodeFirst(buf, start, msg);
    ptr := EncodeSecond(buf, ptr, msg);
    assert head + Flatten(ps[..5]) + Flatten(ps[5..]) == head + (Flatten(ps[..5]) + Flatten(ps[5..]));
  }

  /** The integrity attribute covers the message with a length field of zero; the length
      is written last. */
  method EncodeMessage(hmac: Hmac, msg: StunMessage, buf: array<byte>, key: seq<byte>) returns (size: nat)
    requires msg.Valid() && |Encoded(hmac, msg, key)| <= buf.Length
    modifies buf
    ensures size == |Encoded(hmac, msg, key)| && buf[..size] == Encoded(hmac, msg, key)
  {
    hide Body, Signed, Header, Encode16, Splice, Encoded;
    EncodedSize(hmac, msg, key);
    var ptr := EncodeHeader(buf, msg);
    var lengthp := 2;
    ghost var header, body, signed := Header(msg, 0), Body(msg), Signed(hmac, msg, key);
    ptr := EncodeBody(buf, ptr, msg);
    assert buf[..ptr] == header + body;
    ptr := EncodeSignature(hmac, buf, ptr, msg, key);
    assert buf[..ptr] == header + (body + signed);
    SplicePrefix(buf[..], header + (body + signed), lengthp, Encode16(ptr - HEADER_SIZE));
    Put(buf, lengthp, Encode16(ptr - HEADER_SIZE));
    PatchedHeader(msg, body + signed, ptr - HEADER_SIZE);
    assert buf[..ptr] == buf[..][..ptr];
    return ptr;
  }

  /** The header, whose length is not known yet. */
  method EncodeHeader(buf: array<byte>, msg: StunMessage) returns (ptr: nat)
    requires |msg.id| == 16 && HEADER_SIZE <= buf.Length
    modifies buf
    ensures ptr == HEADER_SIZE && buf[..ptr] == Header(msg, 0)
  {
    ptr := Append(buf, 0, Encode16(msg.msgType));
    ptr := Append(buf, ptr, Encode16(0));
    ptr := Append(buf, ptr, msg.id);
  }

  method EncodeSignature(hmac: Hmac, buf: array<byte>, start: nat, msg: StunMessage, key: seq<byte>) returns (ptr: nat)
    requires msg.Valid() && start + |Signed(hmac, msg, key)| <= buf.Length
    requires buf[..start] == Header(msg, 0) + Body(msg)
    modifies buf
    ensures ptr == start + |Signed(hmac, msg, key)| && buf[..ptr] == old(buf[..start]) + Signed(hmac, msg, key)
  {
    hide Body, Header;
    ptr := start;
    if |key| > 0 {
      var hash := hmac(buf[..ptr], key);
      ptr := Append(buf, ptr, Encode16(MESSAGE_INTEGRITY));
      ptr := Append(buf, ptr, Encode16(20));
      ptr := Append(buf, ptr, hash);
    }
  }

  lemma {:induction false} EncodedSize(hmac: Hmac, msg: StunMessage, key: seq<byte>)
    requires msg.Valid()
    ensures var body, signed := Body(msg), Signed(hmac, msg, key);
      && |Header(msg, 0)| == HEADER_SIZE
      && |Encoded(hmac, msg, key)| == HEADER_SIZE + |body| + |signed|
      && Encoded(hmac, msg, key) == Header(msg, |body| + |signed|) + (body + signed)
  {
    hide Body, Signed;
  }

  lemma {:induction false} PatchedHeader(msg: StunMessage, rest: seq<byte>, length: Word16)
    requires |msg.id| == 16
    ensures Splice(Header(msg, 0) + rest, 2, Encode16(length)) == Header(msg, length) + rest
  {}

  // ----- Parsing -----

  /** stunParseAtrAddress. */
  method ParseAtrAddress(v: seq<byte>) returns (r: Option<Address>)
    ensures r == ParseAddress(v)
  {
    if |v| != 8 {
      return None;
    }
    var pad, family := v[0], v[1];
    if family == IPV4_FAMILY {
      var nport, naddr := v[2..4], v[4..8];
      return Some(Address(pad, family, Decode16(nport), Decode32(naddr)));
    }
    return None;
  }

  /** stunParseAtrUnknown: only the first half of the words is looked at. */
  method ParseAtrUnknown(v: seq<byte>) returns (r: Option<seq<Word16>>)
    ensures r == ParseUnknown(v)
  {
    if |v| >= 10 {
      return None;
    }
    if |v| % 4 != 0 {
      return None;
    }
    var types: seq<Word16> := [];
    for i := 0 to |v| / 4
      invariant |types| == i && forall k :: 0 <= k < i ==> types[k] == Decode16(v[2 * k..2 * k + 2])
    {
      types := types + [Decode16(v[2 * i..2 * i + 2])];
    }
    assert types == ParseUnknown(v).value;
    return Some(types);
  }

  /** One case of the switch. */
  method ParseOne(t: Word16, v: seq<byte>, m: StunMessage) returns (r: Outcome)
    ensures r == ParseAttribute(t, v, m)
  {
    if t == MAPPED_ADDRESS || t == RESPONSE_ADDRESS || t == SOURCE_ADDRESS || t == CHANGED_ADDRESS
      || t == REFLECTED_FROM {
      var a := ParseAtrAddress(v);
      if a.None? {
        return Failed;
      }
      return Parsed(
        if t == MAPPED_ADDRESS then m.(mappedAddress := a)
        else if t == RESPONSE_ADDRESS then m.(responseAddress := a)
        else if t == SOURCE_ADDRESS then m.(sourceAddress := a)
        else if t == CHANGED_ADDRESS then m.(changedAddress := a)
        else m.(reflectedFrom := a));
    } else if t == CHANGE_REQUEST {
      if |v| != 4 {
        return Failed;
      }
      return Parsed(m.(changeRequest := Some(Decode32(v))));
    } else if t == USERNAME || t == PASSWORD {
      if |v| >= STUN_MAX_STRING || |v| % 4 != 0 {
        return Failed;
      }
      return Parsed(if t == USERNAME then m.(username := Some(v)) else m.(password := Some(v)));
    } else if t == MESSAGE_INTEGRITY {
      if |v| != 20 {
        return Failed;
      }
      return Parsed(m.(messageIntegrity := Some(v)));
    } else if t == ERROR_CODE {
      if |v| >= 262 {
        return Failed;
      }
      if |v| < 4 || |v| >= 260 {
        return Undefined;
      }
      return Parsed(m.(errorCode := Some(ErrorCode(Decode16(v[..2]), v[2], v[3], v[4..]))));
    } else if t == UNKNOWN_ATTRIBUTE {
      var types := ParseAtrUnknown(v);
      if types.None? {
        return Failed;
      }
      return Parsed(m.(unknownAttributes := types));
    } else {
      if t <= 0x7FFF {
        return Failed;
      }
      return Parsed(m);
    }
  }

  /** Walks the attributes while `size` octets are left.  The loop ends on every input. */
  method ParseMessage(raw: seq<byte>) returns (r: Outcome)
    ensures r == Parse(raw)
  {
    hide ParseAttribute;
    if HEADER_SIZE > |raw| {
      return Failed;
    }
    var msgType, msgLength, id := Decode16(raw[..2]), Decode16(raw[2..4]), raw[4..20];
    if msgLength as int + HEADER_SIZE != |raw| {
      return Failed;
    }
    var msg := NoMessage(msgType, msgLength, id);
    var body, size: int := HEADER_SIZE, msgLength;
    ghost var whole := ParseAttributes(raw[20..], msg);
    while size > 0
      invariant HEADER_SIZE <= body <= |raw| && size == |raw| - body
      invariant whole == ParseAttributes(raw[body..], msg)
      decreases size
    {
      ghost var rest := raw[body..];
      if size < 4 {
        // Its length is read from behind the message, and is too large whatever it is.
        return Failed;
      }
      assert raw[body..body + 2] == rest[..2] && raw[body + 2..body + 4] == rest[2..4];
      var atrType, attrLen: int := Decode16(raw[body..body + 2]), Decode16(raw[body + 2..body + 4]);
      if attrLen + 4 > size {
        return Failed;
      }
      body := body + 4;
      size := size - 4;
      assert raw[body..body + attrLen] == rest[4..4 + attrLen];
      var one := ParseOne(atrType, raw[body..body + attrLen], msg);
      if !one.Parsed? {
        return one;
      }
      msg := one.msg;
      body := body + attrLen;
      size := size - attrLen;
      assert raw[body..] == rest[4 + attrLen..];
    }
    return Parsed(msg);
  }
}
