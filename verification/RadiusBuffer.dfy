/** class RadiusMessage of radius/RadiusMessage.cxx: the packet buffer and the attribute
    list, kept in step while a message is built, signed, verified and read. */
module RadiusBuffer {
  import opened Bytes
  import opened RadiusPassword
  import opened RadiusAttributes
  import opened RadiusMessages
  import opened RadiusHiding

  class RadiusMessage {
    const md5: Hash
    const buffer: array<byte>
    var requestAuthenticator: Digest
    var attributes: seq<RadiusAttribute>

    /** What the buffer holds, taken apart. */
    ghost var code: byte
    ghost var id: byte
    ghost var authenticator: Digest
    ghost var body: seq<byte>

    ghost predicate Valid()
      reads this, buffer
    {
      && buffer.Length == RADIUS_MAX_PACKET_SIZE
      && HoldsWire(buffer[..], code, id, authenticator, body)
      && AllWellFormed(attributes)
    }

    /** The attribute list is what the body says. */
    ghost predicate InStep()
      reads this
    {
      body == EncodeAll(attributes)
    }

    /** The attribute list accounts for every octet of the body, though a password in it may
        be hidden. */
    ghost predicate InSize()
      reads this
    {
      |body| == OffsetOf(attributes, |attributes|)
    }

    lemma {:induction false} InStepIsInSize()
      requires Valid() && InStep()
      ensures InSize()
    {
      hide EncodeAll;
      OffsetIsLength(attributes, |attributes|);
      assert attributes[..|attributes|] == attributes;
    }

    ghost function Ctx(secret: seq<byte>): Context
      reads this
    {
      Context(md5, secret, code, authenticator)
    }

    /** ntohs of the length field. */
    function MsgLen(): (n: nat)
      requires Valid()
      reads this, buffer
      ensures n == HEADER_SIZE + |body|
    {
      Decode16Undoes(HEADER_SIZE + |body|);
      assert buffer[2..4] == buffer[..][..HEADER_SIZE + |body|][2..4];
      Decode16(buffer[2..4])
    }

    /** A request to be composed. */
    constructor Request(md5: Hash, code: byte)
      requires code == RP_ACCOUNTING_REQUEST || code == RP_ACCESS_REQUEST
      ensures Valid() && InStep() && fresh(buffer)
      ensures this.md5 == md5 && this.code == code && id == 0 && authenticator == Zeros(16)
      ensures attributes == [] && requestAuthenticator == Zeros(16)
    {
      this.md5 := md5;
      buffer := new byte[RADIUS_MAX_PACKET_SIZE];
      requestAuthenticator := Zeros(16);
      attributes := [];
      this.code, id, authenticator, body := code, 0, Zeros(16), [];
      new;
      Put(buffer, 0, Wire(code, 0, Zeros(16), []));
    }

    /** A response to be composed. */
    constructor Response(md5: Hash, code: byte, requestId: byte, requestAuth: Digest)
      requires IsResponse(code)
      ensures Valid() && InStep() && fresh(buffer)
      ensures this.md5 == md5 && this.code == code && id == requestId && authenticator == Zeros(16)
      ensures attributes == [] && requestAuthenticator == requestAuth
    {
      this.md5 := md5;
      buffer := new byte[RADIUS_MAX_PACKET_SIZE];
      requestAuthenticator := requestAuth;
      attributes := [];
      this.code, id, authenticator, body := code, requestId, Zeros(16), [];
      new;
      Put(buffer, 0, Wire(code, requestId, Zeros(16), []));
    }

    method SetIdentifier(newId: byte)
      requires Valid()
      modifies buffer, this`id
      ensures Valid() && id == newId
    {
      ReplaceIdentifier(buffer[..], code, id, authenticator, body, newId);
      Put(buffer, 1, [newId]);
      id := newId;
    }

    /** Appends an attribute to the packet and to the list, if it fits. */
    method Add(attr: RadiusAttribute) returns (ok: bool)
      requires Valid() && attr.WellFormed()
      modifies buffer, this`body, this`attributes
      ensures Valid()
      ensures ok <==> HEADER_SIZE + |old(body)| + attr.Length() <= RADIUS_MAX_PACKET_SIZE
      ensures body == old(body) + if ok then attr.Bytes() else []
      ensures attributes == old(attributes) + if ok then [attr] else []
      ensures old(InStep()) ==> InStep()
    {
      hide Wire, EncodeAll, Splice, RadiusAttribute.Header, RadiusAttribute.Length, Encode16;
      var attrLen := attr.Length();
      var currLen := MsgLen();
      if currLen + attrLen > RADIUS_MAX_PACKET_SIZE {
        return false;
      }
      EncodeOne(attr);
      EncodeAllAppends(attributes, [attr]);
      var bytes := Encode(attr);
      GrowWire(buffer[..], code, id, authenticator, body, bytes);
      Put(buffer, currLen, bytes);
      Put(buffer, 2, Encode16(currLen + attrLen));
      body := body + bytes;
      attributes := attributes + [attr];
      return true;
    }

    // ----- Signing -----

    /** The first attribute of a type. */
    method Get(t: byte) returns (found: bool, k: nat)
      ensures found ==> k < |attributes| && IsFirst(attributes, t, k)
      ensures !found ==> forall i :: 0 <= i < |attributes| ==> attributes[i].typ != t
    {
      k := 0;
      while k < |attributes|
        invariant k <= |attributes|
        invariant forall i :: 0 <= i < k ==> attributes[i].typ != t
      {
        if attributes[k].typ == t {
          return true, k;
        }
        k := k + 1;
      }
      return false, 0;
    }

    /** Writes an authenticator into the packet. */
    method SetAuthenticator(auth: Digest)
      requires Valid()
      modifies buffer, this`authenticator
      ensures Valid() && authenticator == auth
    {
      ReplaceAuthenticator(buffer[..], code, id, authenticator, body, auth);
      Put(buffer, 4, auth);
      authenticator := auth;
    }

    /** The digest of the packet as it stands, with the secret behind it. */
    method DigestWithSecret(secret: seq<byte>) returns (digest: Digest)
      requires Valid() && HEADER_SIZE + |body| + |secret| <= RADIUS_MAX_PACKET_SIZE
      modifies buffer
      ensures Valid() && digest == Signature(md5, secret, code, id, authenticator, body)
    {
      var msgLen := MsgLen();
      WriteBehind(buffer[..], code, id, authenticator, body, secret);
      Put(buffer, msgLen, secret);
      assert buffer[..msgLen + |secret|] == buffer[..][..msgLen + |secret|];
      digest := md5(buffer[..msgLen + |secret|]);
    }

    /** The authenticator of an access request comes from the clock, the address of the
        server and the identifier; without an address it stays as it is.  Not ok: the three
        do not fit the buffer they are hashed in. */
    method CalcAccessRequestAuthenticator(now: seq<byte>) returns (ok: bool)
      requires Valid() && |now| == 4
      modifies buffer, this`authenticator, this`requestAuthenticator
      ensures ok <==> forall k :: 0 <= k < |attributes| && IsFirst(attributes, RA_NAS_IP_ADDRESS, k) ==>
        |attributes[k].value| <= 251
      ensures ok ==> Valid()
      ensures ok && (forall a :: a in attributes ==> a.typ != RA_NAS_IP_ADDRESS) ==>
        authenticator == old(authenticator) && requestAuthenticator == old(requestAuthenticator)
      ensures ok ==> forall k :: 0 <= k < |attributes| && IsFirst(attributes, RA_NAS_IP_ADDRESS, k) ==>
        authenticator == requestAuthenticator == md5(now + attributes[k].value + [id])
    {
      ok := true;
      var found, k := Get(RA_NAS_IP_ADDRESS);
      if found {
        var hashInput := now;
        hashInput := hashInput + attributes[k].value;
        assert buffer[1] == buffer[..][..HEADER_SIZE + |body|][1] == id;
        hashInput := hashInput + [buffer[1]];
        if |hashInput| > HASH_INPUT_SIZE {
          return false;
        }
        requestAuthenticator := md5(hashInput);
        SetAuthenticator(requestAuthenticator);
      }
    }

    method CalcResponseAuthenticator(secret: seq<byte>)
      requires Valid() && HEADER_SIZE + |body| + |secret| <= RADIUS_MAX_PACKET_SIZE
      modifies buffer, this`authenticator
      ensures Valid() && authenticator == Signature(md5, secret, code, id, requestAuthenticator, body)
    {
      SetAuthenticator(requestAuthenticator);
      var auth := DigestWithSecret(secret);
      SetAuthenticator(auth);
    }

    method CalcAccountingRequestAuthenticator(secret: seq<byte>)
      requires Valid() && HEADER_SIZE + |body| + |secret| <= RADIUS_MAX_PACKET_SIZE
      modifies buffer, this`authenticator, this`requestAuthenticator
      ensures Valid() && authenticator == requestAuthenticator == Signature(md5, secret, code, id, Zeros(16), body)
    {
      SetAuthenticator(Zeros(16));
      requestAuthenticator := DigestWithSecret(secret);
      SetAuthenticator(requestAuthenticator);
    }

    /** Replaces the first password in the packet, not in the list, wherever the loop takes
        an attribute to be a password's; it may be hidden already.  Not ok: the password does
        not fit the buffer it is hidden in. */
    method HideUserPassword(secret: seq<byte>) returns (ok: bool)
      requires Valid() && InSize() && |secret| < 256
      modifies buffer, this`body
      ensures ok <==> |FirstValue(attributes)| <= 256
      ensures ok ==> Valid() && InSize() && body == HiddenOver(Ctx(secret), attributes, old(body))
    {
      hide EncodeAll, HiddenAll, Hide, Wire, LinesUp, Overwritten, OffsetOf, IsChain;
      var found, k := Get(RA_USER_PASSWORD);
      if !found {
        NoPasswordNoChange(Ctx(secret), attributes, body);
        return true;
      }
      FirstIsFirstPassword(attributes, k);
      assert attributes[k] in attributes && attributes[k].WellFormed();
      var password := attributes[k].value;
      if |password| > HIDDEN_PASSWORD_SIZE {
        return false;
      }
      var hiddenPassword := new byte[HIDDEN_PASSWORD_SIZE];
      assert buffer[4..20] == buffer[..][..HEADER_SIZE + |body|][4..20] == authenticator;
      EncodeUserPassword(md5, secret, buffer[4..20], password, hiddenPassword);
      var hidden := hiddenPassword[..|password|];
      assert hidden == Hide(md5, secret, authenticator, password);
      ReplacePassword(hidden);
      ok := true;
    }

    /** memcpy of a value into the body. */
    method ReplaceValue(at: nat, value: seq<byte>)
      requires Valid() && at + |value| <= |body|
      modifies buffer, this`body
      ensures Valid() && body == Splice(old(body), at, value)
    {
      ReplaceInBody(buffer[..], code, id, authenticator, body, at, value);
      Put(buffer, HEADER_SIZE + at, value);
      body := Splice(body, at, value);
    }

    /** The loop that looks for the password's octets: its offset does not advance at a
        password. */
    method ReplacePassword(hidden: seq<byte>)
      requires Valid() && InSize() && |hidden| == |FirstValue(attributes)|
      modifies buffer, this`body
      ensures Valid() && InSize() && body == Overwritten(attributes, hidden, old(body), |attributes|)
    {
      hide EncodeAll, Splice, Spliced, FirstValue, OffsetOf, LoopOffset, HoldsWire;
      ghost var plain, list := body, attributes;
      var offset := HEADER_SIZE;
      LoopStarts(list, hidden, plain);
      for i := 0 to |attributes|
        invariant Valid() && body == Overwritten(list, hidden, plain, i) && offset == HEADER_SIZE + LoopOffset(list, i)
      {
        LoopStep(list, hidden, plain, i);
        if attributes[i].typ == RA_USER_PASSWORD {
          ReplaceValue(offset - HEADER_SIZE + 2, hidden);
        } else {
          offset := offset + attributes[i].Length();
        }
      }
    }

    predicate IsKnown(c: byte) {
      IsResponse(c) || c == RP_ACCESS_REQUEST || c == RP_ACCOUNTING_REQUEST
    }

    /** The last step before a packet is sent; it can be repeated.  Not ok: an access request
        whose address or password does not fit the buffers of the two steps. */
    method CalcAuthenticator(secret: seq<byte>, now: seq<byte>) returns (ok: bool)
      requires Valid() && IsKnown(code) && |now| == 4 && |secret| < 256
      requires code == RP_ACCESS_REQUEST ==> InSize()
      requires code != RP_ACCESS_REQUEST ==> HEADER_SIZE + |body| + |secret| <= RADIUS_MAX_PACKET_SIZE
      modifies buffer, this`authenticator, this`requestAuthenticator, this`body
      ensures ok <==> (code == RP_ACCESS_REQUEST ==>
        AddressFits(attributes) && |FirstValue(attributes)| <= 256)
      ensures ok ==> Valid()
      ensures ok && code == RP_ACCESS_REQUEST ==> InSize() && body == HiddenOver(Ctx(secret), attributes, old(body))
      ensures ok && code == RP_ACCESS_REQUEST && (forall a :: a in attributes ==> a.typ != RA_NAS_IP_ADDRESS) ==>
        authenticator == old(authenticator)
      ensures ok && code == RP_ACCESS_REQUEST ==>
        forall k :: 0 <= k < |attributes| && IsFirst(attributes, RA_NAS_IP_ADDRESS, k) ==>
          authenticator == md5(now + attributes[k].value + [id])
      ensures code != RP_ACCESS_REQUEST ==> body == old(body)
      ensures code == RP_ACCOUNTING_REQUEST ==> authenticator == Signature(md5, secret, code, id, Zeros(16), body)
      ensures IsResponse(code) ==>
        authenticator == Signature(md5, secret, code, id, old(requestAuthenticator), body)
    {
      hide FirstValue, OffsetOf, HiddenOver;
      ok := true;
      assert buffer[0] == buffer[..][..HEADER_SIZE + |body|][0] == code;
      if buffer[0] == RP_ACCESS_REQUEST {
        ok := CalcAccessRequestAuthenticator(now);
        if ok {
          ok := HideUserPassword(secret);
        }
      } else if IsResponse(buffer[0]) {
        CalcResponseAuthenticator(secret);
      } else {
        CalcAccountingRequestAuthenticator(secret);
      }
    }

    // ----- Verifying -----

    /** Compares the authenticator received with the one recomputed, which it leaves in
        the packet. */
    method VerifyAccountingRequestAuthenticator(secret: seq<byte>) returns (ok: bool)
      requires Valid() && code == RP_ACCOUNTING_REQUEST
      requires HEADER_SIZE + |body| + |secret| <= RADIUS_MAX_PACKET_SIZE
      modifies buffer, this`authenticator, this`requestAuthenticator
      ensures Valid() && authenticator == Signature(md5, secret, code, id, Zeros(16), body)
      ensures ok <==> old(authenticator) == authenticator
    {
      assert buffer[4..20] == buffer[..][..HEADER_SIZE + |body|][4..20] == authenticator;
      var auth := buffer[4..20];
      CalcAccountingRequestAuthenticator(secret);
      assert buffer[4..20] == buffer[..][..HEADER_SIZE + |body|][4..20] == authenticator;
      return auth == buffer[4..20];
    }

    /** Accepts a response just when it was signed for this request. */
    method VerifyResponseAuthenticator(reqAuth: Digest, secret: seq<byte>) returns (ok: bool)
      requires Valid() && IsResponse(code) && code != RP_ACCESS_CHALLENGE
      requires HEADER_SIZE + |body| + |secret| <= RADIUS_MAX_PACKET_SIZE
      modifies buffer, this`authenticator, this`requestAuthenticator
      ensures Valid() && authenticator == Signature(md5, secret, code, id, reqAuth, body)
      ensures ok <==> old(authenticator) == authenticator
    {
      requestAuthenticator := reqAuth;
      assert buffer[4..20] == buffer[..][..HEADER_SIZE + |body|][4..20] == authenticator;
      var respAuth := buffer[4..20];
      CalcResponseAuthenticator(secret);
      assert buffer[4..20] == buffer[..][..HEADER_SIZE + |body|][4..20] == authenticator;
      return respAuth == buffer[4..20];
    }

    // ----- Reading -----

    lemma {:induction false} BufferHolds()
      requires Valid()
      ensures buffer[0] == code && buffer[1] == id && buffer[4..20] == authenticator
      ensures buffer[HEADER_SIZE..HEADER_SIZE + |body|] == body
    {
      var n := HEADER_SIZE + |body|;
      assert buffer[0] == buffer[..][..n][0] && buffer[1] == buffer[..][..n][1];
      assert buffer[4..20] == buffer[..][..n][4..20];
      assert buffer[HEADER_SIZE..n] == buffer[..][..n][HEADER_SIZE..];
    }

    lemma {:induction false} BodyFits()
      requires Valid()
      ensures HEADER_SIZE + |body| <= buffer.Length
    {}

    /** What the octets from an offset on are, seen from that offset. */
    lemma {:induction false} BufferShows(start: nat, lo: nat, hi: nat)
      requires Valid() && HEADER_SIZE <= start && lo <= hi && start + hi <= HEADER_SIZE + |body|
      ensures buffer[start + lo..start + hi] == body[start - HEADER_SIZE..][lo..hi]
    {
      hide HoldsWire, Valid;
      BodyFits();
      BufferHolds();
      var n := HEADER_SIZE + |body|;
      assert buffer[..][HEADER_SIZE..n] == buffer[HEADER_SIZE..n];
      SliceOfBody(buffer[..], HEADER_SIZE, body, start - HEADER_SIZE, lo, hi);
    }

    /** One round of the walk: the attribute that starts at an offset in the packet. */
    method DecodeOne(secret: seq<byte>, start: nat, totalLen: nat) returns (r: Decoded, next: nat)
      requires Valid() && |secret| < 256 && HEADER_SIZE <= start < totalLen == HEADER_SIZE + |body|
      ensures var rest := body[start - HEADER_SIZE..];
        var head := HeadFault(Ctx(secret), rest);
        if head.Attributes? then
          r == Attributes([Revealed(Ctx(secret), HeadAttribute(rest))]) && next == start + rest[1]
        else
          r == head
    {
      ghost var c, rest := Ctx(secret), body[start - HEADER_SIZE..];
      BufferHolds();
      BufferShows(start, 0, |rest|);
      var attrType := buffer[start];
      // The last octet of the packet may stand alone; what is read behind it never makes
      // an acceptable length.
      var attrLen := if start + 1 < buffer.Length then buffer[start + 1] else 0;
      next := start + attrLen;
      if attrLen < 2 || next > totalLen {
        HeadTooShort(c, rest);
        return Invalid, next;
      }
      assert attrType == rest[0] && attrLen == rest[1] && 2 <= rest[1] as int <= |rest|;
      HeadCases(c, rest);
      BufferShows(start, 2, attrLen);
      assert next <= buffer.Length;
      hide Valid, HeadFault, HeadAttribute, Revealed;
      if attrType == RA_VENDOR_SPECIFIC {
        r := DecodeVendor(start, next);
      } else if attrType == RA_USER_PASSWORD {
        r := DecodePassword(secret, start, next);
      } else {
        var _, attr := NewAttribute(attrType, buffer[start + 2..next], 0);
        r := Attributes([attr]);
      }
    }

    /** A vendor's attribute: the vendor's id stands in front of the value. */
    method DecodeVendor(start: nat, next: nat) returns (r: Decoded)
      requires Valid() && HEADER_SIZE <= start && start + 2 <= next <= HEADER_SIZE + |body|
      ensures var rest, n := body[start - HEADER_SIZE..], next - start;
        if n <= 8 then r == Invalid
        else if Decode32(rest[2..6]) == 0 then r == Decoded.Aborted
        else r == Attributes([RadiusAttribute(RA_VENDOR_SPECIFIC, rest[6..n], Decode32(rest[2..6]))])
    {
      if next - start > 8 {
        BufferShows(start, 2, 6);
        BufferShows(start, 6, next - start);
        hide Valid, Decode32;
        var vendorId := Decode32(buffer[start + 2..start + 6]);
        if vendorId == 0 {
          return Decoded.Aborted;
        }
        var _, attr := NewAttribute(RA_VENDOR_SPECIFIC, buffer[start + 6..next], vendorId);
        r := Attributes([attr]);
      } else {
        return Invalid;
      }
    }

    /** A password, revealed. */
    method DecodePassword(secret: seq<byte>, start: nat, next: nat) returns (r: Decoded)
      requires Valid() && |secret| < 256 && HEADER_SIZE <= start && start + 2 <= next <= HEADER_SIZE + |body|
      requires next - start < 256
      ensures var value := body[start - HEADER_SIZE..][2..next - start];
        if code != RP_ACCESS_REQUEST || |value| % 16 != 0 then r == Invalid
        else r == Attributes([RadiusAttribute(RA_USER_PASSWORD, Reveal(md5, secret, authenticator, value), 0)])
    {
      hide Valid, Reveal, HoldsWire;
      BodyFits();
      BufferHolds();
      BufferShows(start, 2, next - start);
      if buffer[0] != RP_ACCESS_REQUEST {
        return Invalid;
      }
      var n := next - start - 2;
      if n % 16 != 0 {
        return Invalid;
      }
      var password := RevealPassword(secret, buffer[4..20], buffer[start + 2..next]);
      var _, attr := NewAttribute(RA_USER_PASSWORD, password, 0);
      r := Attributes([attr]);
    }

    /** A hidden password, revealed in a buffer of its own. */
    method RevealPassword(secret: seq<byte>, auth: Digest, hidden: seq<byte>) returns (password: seq<byte>)
      requires |secret| < 256 && |hidden| % 16 == 0 && |hidden| <= 256
      ensures password == Reveal(md5, secret, auth, hidden)
    {
      hide Reveal, IsChain;
      var decodedPassword := new byte[256];
      DecodeUserPassword(md5, secret, auth, hidden, decodedPassword);
      password := decodedPassword[..|hidden|];
      assert password == decodedPassword[..][..|hidden|];
    }

    /** One round of the walk: another attribute for the list, or the end of decoding. */
    method DecodeNext(secret: seq<byte>, parsed: nat, totalLen: nat) returns (d: Decoded, next: nat)
      requires Valid() && |secret| < 256 && HEADER_SIZE <= parsed < totalLen == HEADER_SIZE + |body|
      modifies this`attributes
      ensures Valid()
      ensures var before := PrependAll(old(attributes), Decode(Ctx(secret), body[parsed - HEADER_SIZE..]));
        if d.Attributes? then
          && parsed < next <= totalLen
          && before == PrependAll(attributes, Decode(Ctx(secret), body[next - HEADER_SIZE..]))
        else
          before == d
    {
      hide HoldsWire, Decode, HeadFault, HeadAttribute, Revealed, PrependAll;
      ghost var rest := body[parsed - HEADER_SIZE..];
      DecodeRound(Ctx(secret), attributes, rest);
      d, next := DecodeOne(secret, parsed, totalLen);
      if d.Attributes? {
        assert rest[rest[1]..] == body[next - HEADER_SIZE..];
        attributes := attributes + d.list;
      }
    }

    /** Walks the attributes; stops at the first that is not in order. */
    method DecodeAttributes(secret: seq<byte>) returns (r: Decoded)
      requires Valid() && attributes == [] && |secret| < 256
      modifies this`attributes
      ensures Valid() && r == Decode(Ctx(secret), body)
      ensures r.Attributes? ==> attributes == r.list
    {
      hide HoldsWire, Decode, PrependAll;
      var totalLen := MsgLen();
      ghost var c, msg := Ctx(secret), body;
      DecodeStarts(c, msg);
      var parsed := HEADER_SIZE;
      while parsed < totalLen
        invariant HEADER_SIZE <= parsed <= totalLen
        invariant Decode(c, msg) == PrependAll(attributes, Decode(c, msg[parsed - HEADER_SIZE..]))
        invariant AllWellFormed(attributes)
      {
        var d, next := DecodeNext(secret, parsed, totalLen);
        if !d.Attributes? {
          return d;
        }
        parsed := next;
      }
      assert parsed == totalLen && msg[parsed - HEADER_SIZE..] == [];
      DecodeEnds(c, attributes);
      r := Attributes(attributes);
    }

    /** What is sent once the authenticator is in place is read back, with the same secret,
        as the list that was composed. */
    lemma {:induction false} SentIsReceived(secret: seq<byte>)
      requires Valid() && body == EncodeAll(HiddenAll(Ctx(secret), attributes))
      requires Admissible(Ctx(secret), attributes)
      requires code == RP_ACCOUNTING_REQUEST ==> HEADER_SIZE + |body| + |secret| <= RADIUS_MAX_PACKET_SIZE
      requires code == RP_ACCOUNTING_REQUEST ==> authenticator == Signature(md5, secret, code, id, Zeros(16), body)
      ensures Receive(md5, secret, buffer[..HEADER_SIZE + |body|]) == Accepted(code, id, authenticator, attributes)
    {
      ReceiveUndoesWire(Ctx(secret), id, attributes);
      assert buffer[..HEADER_SIZE + |body|] == buffer[..][..HEADER_SIZE + |body|];
    }

    /** An object to read a packet into. */
    constructor Unread(md5: Hash)
      ensures Valid() && fresh(buffer) && this.md5 == md5 && attributes == []
    {
      this.md5 := md5;
      buffer := new byte[RADIUS_MAX_PACKET_SIZE];
      requestAuthenticator := Zeros(16);
      attributes := [];
      code, id, authenticator, body := 0, 0, Zeros(16), [];
      new;
      Put(buffer, 0, Wire(0, 0, Zeros(16), []));
    }

    /** The constructor from octets received. */
    method ReadRaw(raw: seq<byte>, secret: seq<byte>) returns (r: Received)
      requires Valid() && attributes == [] && |secret| < 256
      modifies buffer, this
      ensures r == Receive(md5, secret, raw)
      ensures r.Accepted? ==>
        && Valid() && attributes == r.attrs
        && code == r.code && id == r.id && authenticator == r.authenticator && body == raw[HEADER_SIZE..]
    {
      hide Decode;
      var msgLen := |raw|;
      if msgLen < HEADER_SIZE || msgLen > RADIUS_MAX_PACKET_SIZE {
        return Rejected;
      }
      Put(buffer, 0, raw);
      assert buffer[..][0..msgLen] == buffer[..][..msgLen] == raw;
      assert buffer[2..4] == buffer[..][..msgLen][2..4] == raw[2..4];
      hide Wire, Splice, Decode16, Signature;
      if msgLen != Decode16(buffer[2..4]) {
        return Rejected;
      }
      WireOfRaw(raw);
      code, id, authenticator, body := raw[0], raw[1], raw[4..20], raw[HEADER_SIZE..];
      assert HoldsWire(buffer[..], code, id, authenticator, body);
      hide HoldsWire;
      var d := DecodeAttributes(secret);
      match d {
        case Invalid => return Rejected;
        case Aborted => return Received.Aborted;
        case Attributes(attrs) =>
      }
      BufferHolds();
      if buffer[0] == RP_ACCOUNTING_REQUEST {
        if msgLen + |secret| > RADIUS_MAX_PACKET_SIZE {
          return Received.Aborted;
        }
        var ok := VerifyAccountingRequestAuthenticator(secret);
        if !ok {
          return Rejected;
        }
      }
      r := Accepted(raw[0], raw[1], raw[4..20], attributes);
    }
  }

  /** The attributes already decoded, in front of what the rest of the body gives. */
  function PrependAll(list: seq<RadiusAttribute>, d: Decoded): Decoded {
    match d
    case Attributes(rest) => Attributes(list + rest)
    case fault => fault
  }

  lemma {:induction false} DecodeStarts(c: Context, body: seq<byte>)
    ensures Decode(c, body) == PrependAll([], Decode(c, body[0..]))
  {
    hide Decode;
    assert body[0..] == body;
    if Decode(c, body).Attributes? {
      assert [] + Decode(c, body).list == Decode(c, body).list;
    }
  }

  lemma {:induction false} DecodeEnds(c: Context, list: seq<RadiusAttribute>)
    ensures PrependAll(list, Decode(c, [])) == Attributes(list)
  {
    assert list + [] == list;
  }

  /** One attribute more has been decoded, or decoding ends. */
  lemma {:induction false} DecodeRound(c: Context, list: seq<RadiusAttribute>, body: seq<byte>)
    requires body != []
    ensures var head := HeadFault(c, body);
      PrependAll(list, Decode(c, body)) ==
        if head.Attributes? then
          PrependAll(list + [Revealed(c, HeadAttribute(body))], Decode(c, body[body[1]..]))
        else
          head
  {
    hide HeadFault, HeadAttribute, Revealed;
    if HeadFault(c, body).Attributes? {
      var a, d := Revealed(c, HeadAttribute(body)), Decode(c, body[body[1]..]);
      if d.Attributes? {
        assert list + ([a] + d.list) == list + [a] + d.list;
      }
    }
  }

  lemma {:induction false} HeadTooShort(c: Context, body: seq<byte>)
    requires body != [] && (|body| < 2 || body[1] < 2 || body[1] as int > |body|)
    ensures HeadFault(c, body) == Invalid
  {}

  /** The attribute at the head of a body, by its type. */
  lemma {:induction false} HeadCases(c: Context, body: seq<byte>)
    requires |body| >= 2 && 2 <= body[1] as int <= |body|
    ensures var n, head := body[1], HeadFault(c, body);
      if body[0] == RA_VENDOR_SPECIFIC then
        if n <= 8 then head == Invalid
        else if Decode32(body[2..6]) == 0 then head == Decoded.Aborted
        else head.Attributes?
             && Revealed(c, HeadAttribute(body))
               == RadiusAttribute(RA_VENDOR_SPECIFIC, body[6..n], Decode32(body[2..6]))
      else if body[0] == RA_USER_PASSWORD then
        if c.code != RP_ACCESS_REQUEST || |body[2..n]| % 16 != 0 then head == Invalid
        else head.Attributes?
             && Revealed(c, HeadAttribute(body))
                == RadiusAttribute(RA_USER_PASSWORD, Reveal(c.md5, c.secret, c.authenticator, body[2..n]), 0)
      else
        head.Attributes? && Revealed(c, HeadAttribute(body)) == RadiusAttribute(body[0], body[2..n], 0)
  {
    hide Decode32, Reveal;
  }

  lemma {:induction false} NoPasswordNoChange(c: Context, list: seq<RadiusAttribute>, body: seq<byte>)
    requires AllWellFormed(list) && forall i :: 0 <= i < |list| ==> list[i].typ != RA_USER_PASSWORD
    ensures HiddenOver(c, list, body) == body && FirstValue(list) == []
  {
    hide Hide;
    NothingOverwritten(list, Hide(c.md5, c.secret, c.authenticator, FirstValue(list)), body, |list|);
    assert !IsPassword(list, FirstPassword(list));
  }

  lemma {:induction false} NothingOverwritten(list: seq<RadiusAttribute>, hidden: seq<byte>, body: seq<byte>, i: nat)
    requires i <= |list| && forall i :: 0 <= i < |list| ==> list[i].typ != RA_USER_PASSWORD
    ensures Overwritten(list, hidden, body, i) == body
  {
    if i > 0 {
      NothingOverwritten(list, hidden, body, i - 1);
    }
  }

  lemma {:induction false} FirstIsFirstPassword(list: seq<RadiusAttribute>, k: nat)
    requires k < |list| && IsFirst(list, RA_USER_PASSWORD, k)
    ensures FirstPassword(list) == k && FirstValue(list) == list[k].value
  {
    FirstPasswordIsFirst(list, 0, k);
    assert IsPassword(list, FirstPassword(list));
  }

  lemma {:induction false} LoopStarts(list: seq<RadiusAttribute>, hidden: seq<byte>, plain: seq<byte>)
    ensures Overwritten(list, hidden, plain, 0) == plain && LoopOffset(list, 0) == 0
  {}

  lemma {:induction false} LoopStep(list: seq<RadiusAttribute>, hidden: seq<byte>, plain: seq<byte>, i: nat)
    requires AllWellFormed(list) && i < |list| && |hidden| == |FirstValue(list)| && |plain| == OffsetOf(list, |list|)
    ensures var body, at := Overwritten(list, hidden, plain, i), LoopOffset(list, i);
      if list[i].typ == RA_USER_PASSWORD then
        && at + 2 + |hidden| <= |body| && LoopOffset(list, i + 1) == at
        && Overwritten(list, hidden, plain, i + 1) == Splice(body, at + 2, hidden)
      else
        Overwritten(list, hidden, plain, i + 1) == body && LoopOffset(list, i + 1) == at + list[i].Length()
  {
    hide Splice, FirstValue, AllWellFormed;
    if IsPassword(list, i) {
      WritesFit(list, i);
    }
  }

  /** The buffer of the hash has room for the clock, the address and the identifier. */
  const HASH_INPUT_SIZE := 256

  /** And the buffer of the hidden password. */
  const HIDDEN_PASSWORD_SIZE := 256

  /** The address leaves room for the four octets of the clock and the identifier. */
  predicate AddressFits(attrs: seq<RadiusAttribute>) {
    forall k :: 0 <= k < |attrs| && IsFirst(attrs, RA_NAS_IP_ADDRESS, k) ==> |attrs[k].value| <= 251
  }

  predicate IsFirst(attrs: seq<RadiusAttribute>, t: byte, k: nat)
    requires k < |attrs|
  {
    attrs[k].typ == t && forall i :: 0 <= i < k ==> attrs[i].typ != t
  }

  lemma {:induction false} SliceOfBody(s: seq<byte>, at: nat, body: seq<byte>, k: nat, lo: nat, hi: nat)
    requires at + |body| <= |s| && s[at..at + |body|] == body && lo <= hi && k + hi <= |body|
    ensures s[at + k + lo..at + k + hi] == body[k..][lo..hi]
  {
    SliceOfSlice(s, at, at + |body|, k + lo, k + hi);
    SliceOfSlice(body, k, |body|, lo, hi);
    assert body[k..|body|] == body[k..];
  }

  // ----- What a write does to the packet -----

  predicate HoldsWire(buf: seq<byte>, code: byte, id: byte, authenticator: Digest, body: seq<byte>) {
    && HEADER_SIZE + |body| <= RADIUS_MAX_PACKET_SIZE == |buf|
    && buf[..HEADER_SIZE + |body|] == Wire(code, id, authenticator, body)
  }

  lemma {:induction false} GrowWire(buf: seq<byte>, code: byte, id: byte, authenticator: Digest, body: seq<byte>,
                                    s: seq<byte>)
    requires HoldsWire(buf, code, id, authenticator, body)
    requires HEADER_SIZE + |body| + |s| <= RADIUS_MAX_PACKET_SIZE
    ensures var n := HEADER_SIZE + |body|;
      HoldsWire(Splice(Splice(buf, n, s), 2, Encode16(n + |s|)), code, id, authenticator, body + s)
  {
    var n := HEADER_SIZE + |body|;
    var b1 := Splice(buf, n, s);
    var b2 := Splice(b1, 2, Encode16(n + |s|));
    var w := Wire(code, id, authenticator, body);
    assert b1[..n + |s|] == w + s;
    assert b2[..n + |s|] == b1[..2] + Encode16(n + |s|) + b1[4..n + |s|];
    assert (w + s)[4..] == authenticator + (body + s);
    assert w[..2] == [code, id];
  }

  lemma {:induction false} ReplaceAuthenticator(buf: seq<byte>, code: byte, id: byte, authenticator: Digest,
                                                body: seq<byte>, auth: Digest)
    requires HoldsWire(buf, code, id, authenticator, body)
    ensures HoldsWire(Splice(buf, 4, auth), code, id, auth, body)
  {
    var n, w, b := HEADER_SIZE + |body|, Wire(code, id, authenticator, body), Splice(buf, 4, auth);
    assert b[..n] == b[..4] + auth + b[20..n];
    assert b[..4] == w[..4] && b[20..n] == w[20..];
    assert w[..4] == [code, id] + Encode16(n);
  }

  lemma {:induction false} ReplaceIdentifier(buf: seq<byte>, code: byte, id: byte, authenticator: Digest,
                                             body: seq<byte>, newId: byte)
    requires HoldsWire(buf, code, id, authenticator, body)
    ensures HoldsWire(Splice(buf, 1, [newId]), code, newId, authenticator, body)
  {
    var n, w, b := HEADER_SIZE + |body|, Wire(code, id, authenticator, body), Splice(buf, 1, [newId]);
    assert b[..n] == b[..1] + [newId] + b[2..n];
    assert b[..1] == w[..1] && b[2..n] == w[2..];
    assert w[2..] == Encode16(n) + authenticator + body;
  }

  lemma {:induction false} ReplaceInBody(buf: seq<byte>, code: byte, id: byte, authenticator: Digest, body: seq<byte>,
                                         offset: nat, s: seq<byte>)
    requires HoldsWire(buf, code, id, authenticator, body) && offset + |s| <= |body|
    ensures HoldsWire(Splice(buf, HEADER_SIZE + offset, s), code, id, authenticator, Splice(body, offset, s))
  {
    hide Encode16;
    var w := Wire(code, id, authenticator, body);
    var head := w[..HEADER_SIZE];
    assert w == head + body && head == [code, id] + Encode16(HEADER_SIZE + |body|) + authenticator;
    SpliceBehind(buf, head, body, offset, s);
  }

  lemma {:induction false} SpliceBehind(buf: seq<byte>, head: seq<byte>, body: seq<byte>, offset: nat, s: seq<byte>)
    requires |head| + |body| <= |buf| && buf[..|head| + |body|] == head + body && offset + |s| <= |body|
    ensures Splice(buf, |head| + offset, s)[..|head| + |body|] == head + Splice(body, offset, s)
  {
    SplicePrefix(buf, head + body, |head| + offset, s);
    assert Splice(head + body, |head| + offset, s) == head + Splice(body, offset, s);
  }

  /** Octets behind the packet are not part of it. */
  lemma {:induction false} WriteBehind(buf: seq<byte>, code: byte, id: byte, authenticator: Digest, body: seq<byte>,
                                       s: seq<byte>)
    requires HoldsWire(buf, code, id, authenticator, body)
    requires HEADER_SIZE + |body| + |s| <= RADIUS_MAX_PACKET_SIZE
    ensures var n := HEADER_SIZE + |body|;
      && HoldsWire(Splice(buf, n, s), code, id, authenticator, body)
      && Splice(buf, n, s)[..n + |s|] == Wire(code, id, authenticator, body) + s
  {}
}
