/** A message from the object that composes it to the object that reads it. */
module RadiusExchange {
  import opened Bytes
  import opened RadiusPassword
  import opened RadiusAttributes
  import opened RadiusMessages
  import opened RadiusHiding
  import opened RadiusBuffer

  /** The list can travel in a message of a kind, under a secret. */
  predicate CanTravel(code: byte, attrs: seq<RadiusAttribute>, secret: seq<byte>) {
    && |secret| < 256 && (forall a :: a in attrs ==> a.Encodable())
    && (forall a :: a in attrs && a.typ == RA_USER_PASSWORD ==> code == RP_ACCESS_REQUEST)
    && HEADER_SIZE + OffsetOf(attrs, |attrs|) <= RADIUS_MAX_PACKET_SIZE
    && (code != RP_ACCESS_REQUEST ==> HEADER_SIZE + OffsetOf(attrs, |attrs|) + |secret| <= RADIUS_MAX_PACKET_SIZE)
  }

  /** Adds every attribute of a list. */
  method AddAll(m: RadiusMessage, attrs: seq<RadiusAttribute>)
    requires m.Valid() && m.InStep() && m.attributes == [] && AllWellFormed(attrs)
    requires HEADER_SIZE + OffsetOf(attrs, |attrs|) <= RADIUS_MAX_PACKET_SIZE
    modifies m.buffer, m`body, m`attributes
    ensures m.Valid() && m.InStep() && m.attributes == attrs && |m.body| == OffsetOf(attrs, |attrs|)
  {
    hide EncodeAll, RadiusAttribute.Length, RadiusAttribute.WellFormed, RadiusMessage.Valid;
    OffsetIsLength(attrs, 0);
    for k := 0 to |attrs|
      invariant m.Valid() && m.InStep() && m.attributes == attrs[..k] && |m.body| == OffsetOf(attrs, k)
    {
      OffsetIsLength(attrs, k + 1);
      OffsetsGrow(attrs, k + 1, |attrs|);
      NextOffset(attrs, k);
      var ok := m.Add(attrs[k]);
      assert ok && attrs[..k] + [attrs[k]] == attrs[..k + 1];
    }
    assert attrs[..|attrs|] == attrs;
  }

  lemma {:induction false} FirstFits(attrs: seq<RadiusAttribute>)
    requires forall a :: a in attrs ==> a.Encodable()
    ensures AllWellFormed(attrs) && |FirstValue(attrs)| <= 256
  {
    var k := FirstPassword(attrs);
    if k < |attrs| {
      assert attrs[k] in attrs;
    }
  }

  lemma {:induction false} NothingHidden(c: Context, attrs: seq<RadiusAttribute>)
    requires AllWellFormed(attrs) && HasNoPassword(attrs)
    ensures EncodeAll(HiddenAll(c, attrs)) == EncodeAll(attrs)
  {
    NothingToHide(c, attrs);
  }

  /** A request is accepted by whoever shares the secret, with the list it was made of; also
      when its authenticator has been calculated before, at another time.  Not ok: the
      address does not fit the buffer it is hashed in. */
  method Request(md5: Hash, code: byte, id: byte, attrs: seq<RadiusAttribute>, secret: seq<byte>,
                 times: seq<seq<byte>>)
    returns (ok: bool, r: Received)
    requires code == RP_ACCOUNTING_REQUEST || code == RP_ACCESS_REQUEST
    requires CanTravel(code, attrs, secret) && LinesUp(attrs)
    requires times != [] && forall i :: 0 <= i < |times| ==> |times[i]| == 4
    ensures ok <==> (code == RP_ACCESS_REQUEST ==> AddressFits(attrs))
    ensures ok ==> r.Accepted? && r.code == code && r.id == id && r.attrs == attrs
  {
    hide EncodeAll, HiddenAll, HiddenOver, LinesUp, RadiusMessage.Valid, FirstValue, AllWellFormed,
         RadiusAttribute.Encodable, AddressFits, OffsetOf;
    FirstFits(attrs);
    var m := new RadiusMessage.Request(md5, code);
    m.SetIdentifier(id);
    AddAll(m, attrs);
    m.InStepIsInSize();
    ok := m.CalcAuthenticator(secret, times[0]);
    if !ok {
      return false, Rejected;
    }
    ghost var plain := EncodeAll(attrs);
    assert code == RP_ACCESS_REQUEST ==> m.body == HiddenOver(m.Ctx(secret), attrs, plain);
    for i := 1 to |times|
      invariant ok && m.Valid() && m.InSize() && m.attributes == attrs && m.md5 == md5 && m.code == code && m.id == id
      invariant code == RP_ACCESS_REQUEST ==> m.body == HiddenOver(m.Ctx(secret), attrs, plain)
      invariant code != RP_ACCESS_REQUEST ==> m.body == plain
      invariant code != RP_ACCESS_REQUEST ==> m.authenticator == Signature(md5, secret, code, id, Zeros(16), m.body)
    {
      ghost var before := m.Ctx(secret);
      ok := m.CalcAuthenticator(secret, times[i]);
      HidingForgets(before, m.Ctx(secret), attrs, plain);
    }
    if code == RP_ACCESS_REQUEST {
      LinedUpIsHidden(m.Ctx(secret), attrs);
    } else {
      NothingHidden(m.Ctx(secret), attrs);
    }
    var n := new RadiusMessage.Unread(md5);
    r := Deliver(m, n, secret);
  }

  /** A response is accepted, and found to be signed for the request it answers. */
  method Response(md5: Hash, code: byte, id: byte, requestAuth: Digest, attrs: seq<RadiusAttribute>, secret: seq<byte>,
                  now: seq<byte>)
    returns (r: Received, verified: bool)
    requires IsResponse(code) && code != RP_ACCESS_CHALLENGE
    requires CanTravel(code, attrs, secret) && |now| == 4
    ensures r.Accepted? && r.code == code && r.id == id && r.attrs == attrs && verified
  {
    hide EncodeAll, HiddenAll, HiddenByLoop, RadiusMessage.Valid, FirstValue, AllWellFormed, RadiusAttribute.Encodable;
    FirstFits(attrs);
    var m := new RadiusMessage.Response(md5, code, id, requestAuth);
    AddAll(m, attrs);
    var _ := m.CalcAuthenticator(secret, now);
    NothingHidden(m.Ctx(secret), attrs);
    var n := new RadiusMessage.Unread(md5);
    r := Deliver(m, n, secret);
    verified := n.VerifyResponseAuthenticator(requestAuth, secret);
  }

  /** What is ready to send, read by another object. */
  method Deliver(m: RadiusMessage, n: RadiusMessage, secret: seq<byte>) returns (r: Received)
    requires m.Valid() && |secret| < 256 && Admissible(m.Ctx(secret), m.attributes)
    requires m.body == EncodeAll(HiddenAll(m.Ctx(secret), m.attributes))
    requires m.code == RP_ACCOUNTING_REQUEST ==>
      && HEADER_SIZE + |m.body| + |secret| <= RADIUS_MAX_PACKET_SIZE
      && m.authenticator == Signature(m.md5, secret, m.code, m.id, Zeros(16), m.body)
    requires n.Valid() && n.attributes == [] && n.md5 == m.md5 && n != m && n.buffer != m.buffer
    modifies n, n.buffer
    ensures r == Accepted(m.code, m.id, m.authenticator, m.attributes) && n.Valid()
    ensures n.code == m.code && n.id == m.id && n.authenticator == m.authenticator && n.body == m.body
  {
    m.SentIsReceived(secret);
    m.BufferHolds();
    r := n.ReadRaw(m.buffer[..m.MsgLen()], secret);
  }
}
