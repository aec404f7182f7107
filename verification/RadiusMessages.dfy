/** RADIUS messages (section 3 of RFC 2865, section 3 of RFC 2866; radius/RadiusMessage.cxx):
    building, signing, verifying and reading them back. */
module RadiusMessages {
  import opened Bytes
  import opened RadiusPassword
  import opened RadiusAttributes

  const RADIUS_MAX_PACKET_SIZE := 4096
  const HEADER_SIZE := 20

  /** A whole packet: code, identifier, length, authenticator, attributes. */
  function Wire(code: byte, id: byte, authenticator: Digest, body: seq<byte>): (w: seq<byte>)
    requires HEADER_SIZE + |body| <= RADIUS_MAX_PACKET_SIZE
    ensures |w| == HEADER_SIZE + |body|
    ensures w[0] == code && w[1] == id && w[2..4] == Encode16(|w|) && w[4..20] == authenticator && w[20..] == body
  {
    [code, id] + Encode16(HEADER_SIZE + |body|) + authenticator + body
  }

  /** The digest over a packet that carries a given authenticator, and the secret. */
  function Signature(md5: Hash, secret: seq<byte>, code: byte, id: byte, authenticator: Digest, body: seq<byte>): Digest
    requires HEADER_SIZE + |body| <= RADIUS_MAX_PACKET_SIZE
  {
    md5(Wire(code, id, authenticator, body) + secret)
  }

  predicate IsResponse(code: byte) {
    code == RP_ACCESS_ACCEPT || code == RP_ACCESS_REJECT || code == RP_ACCOUNTING_RESPONSE
      || code == RP_ACCESS_CHALLENGE
  }

  /** What becomes of octets received. */
  datatype Received =
    | Accepted(code: byte, id: byte, authenticator: Digest, attrs: seq<RadiusAttribute>)
    | Rejected
    | Aborted

  /** The constructor from raw data.  A failed assertion ends the process: a vendor id of
      zero, or an accounting request that leaves no room for the secret behind it. */
  function Receive(md5: Hash, secret: seq<byte>, raw: seq<byte>): Received {
    if |raw| < HEADER_SIZE || |raw| > RADIUS_MAX_PACKET_SIZE || Decode16(raw[2..4]) != |raw| then
      Rejected
    else
      var (code, id, authenticator: Digest, body) := (raw[0], raw[1], raw[4..20], raw[20..]);
      match Decode(Context(md5, secret, code, authenticator), body)
      case Invalid => Rejected
      case Aborted => Received.Aborted
      case Attributes(attrs) =>
        if code == RP_ACCOUNTING_REQUEST && |raw| + |secret| > RADIUS_MAX_PACKET_SIZE then
          Received.Aborted
        else if code == RP_ACCOUNTING_REQUEST && authenticator != Signature(md5, secret, code, id, Zeros(16), body) then
          Rejected
        else
          Accepted(code, id, authenticator, attrs)
  }

  /** A packet is taken from its own encoding, its passwords revealed; an accounting
      request only with the right signature. */
  lemma {:induction false} ReceiveUndoesWire(c: Context, id: byte, attrs: seq<RadiusAttribute>)
    requires Admissible(c, attrs)
    requires var body := EncodeAll(HiddenAll(c, attrs));
      && HEADER_SIZE + |body| <= RADIUS_MAX_PACKET_SIZE
      && (c.code == RP_ACCOUNTING_REQUEST ==>
            && HEADER_SIZE + |body| + |c.secret| <= RADIUS_MAX_PACKET_SIZE
            && c.authenticator == Signature(c.md5, c.secret, c.code, id, Zeros(16), body))
    ensures var body := EncodeAll(HiddenAll(c, attrs));
      Receive(c.md5, c.secret, Wire(c.code, id, c.authenticator, body)) == Accepted(c.code, id, c.authenticator, attrs)
  {
    var body := EncodeAll(HiddenAll(c, attrs));
    DecodeUndoesEncode(c, attrs);
    Decode16Undoes(HEADER_SIZE + |body|);
  }

  /** Whatever is accepted was the encoding of what came out, with nothing left over. */
  lemma {:induction false} AcceptedWasWire(md5: Hash, secret: seq<byte>, raw: seq<byte>)
    requires Receive(md5, secret, raw).Accepted?
    ensures var Accepted(code, id, authenticator, attrs) := Receive(md5, secret, raw);
      var c := Context(md5, secret, code, authenticator);
      && Admissible(c, attrs)
      && HEADER_SIZE + |EncodeAll(HiddenAll(c, attrs))| <= RADIUS_MAX_PACKET_SIZE
      && raw == Wire(code, id, authenticator, EncodeAll(HiddenAll(c, attrs)))
  {
    hide Receive, Wire, Decode, EncodeAll, HiddenAll, Admissible;
    AcceptedShows(md5, secret, raw);
    WireOfRaw(raw);
    var c := Context(md5, secret, raw[0], raw[4..20]);
    EncodeUndoesDecode(c, raw[20..]);
  }

  lemma {:induction false} AcceptedShows(md5: Hash, secret: seq<byte>, raw: seq<byte>)
    requires Receive(md5, secret, raw).Accepted?
    ensures HEADER_SIZE <= |raw| <= RADIUS_MAX_PACKET_SIZE && Decode16(raw[2..4]) == |raw|
    ensures var Accepted(code, id, authenticator, attrs) := Receive(md5, secret, raw);
      && code == raw[0] && id == raw[1] && authenticator == raw[4..20]
      && Decode(Context(md5, secret, code, authenticator), raw[20..]) == Attributes(attrs)
  {
    hide Decode, Signature, Decode16;
  }

  lemma {:induction false} WireOfRaw(raw: seq<byte>)
    requires HEADER_SIZE <= |raw| <= RADIUS_MAX_PACKET_SIZE && Decode16(raw[2..4]) == |raw|
    ensures raw == Wire(raw[0], raw[1], raw[4..20], raw[20..])
  {
    hide Encode16, Decode16;
    Encode16Undoes(raw[2..4]);
    assert raw == raw[..2] + raw[2..4] + raw[4..20] + raw[20..];
  }

  // ----- The one password of a request -----

  predicate HasNoPassword(attrs: seq<RadiusAttribute>) {
    forall a :: a in attrs ==> a.typ != RA_USER_PASSWORD
  }

  /** The password, if any, is at index k. */
  predicate OnlyPasswordAt(attrs: seq<RadiusAttribute>, k: nat) {
    k < |attrs| && attrs[k].typ == RA_USER_PASSWORD && HasNoPassword(attrs[..k]) && HasNoPassword(attrs[k + 1..])
  }

  predicate AtMostOnePassword(attrs: seq<RadiusAttribute>) {
    forall i, j :: 0 <= i < j < |attrs| ==> attrs[i].typ != RA_USER_PASSWORD || attrs[j].typ != RA_USER_PASSWORD
  }

  lemma {:induction false} EncodeAllAppends(xs: seq<RadiusAttribute>, ys: seq<RadiusAttribute>)
    ensures EncodeAll(xs + ys) == EncodeAll(xs) + EncodeAll(ys)
    decreases |xs|
  {
    if xs == [] {
      assert xs + ys == ys;
    } else {
      var a, rest := xs[0], xs[1..];
      assert (xs + ys)[0] == a && (xs + ys)[1..] == rest + ys;
      var bytes := a.Bytes();
      assert EncodeAll(xs + ys) == bytes + EncodeAll(rest + ys);
      assert EncodeAll(xs) == bytes + EncodeAll(rest);
      hide EncodeAll, RadiusAttribute.Bytes;
      EncodeAllAppends(rest, ys);
      Associates(bytes, EncodeAll(rest), EncodeAll(ys));
    }
  }

  lemma {:induction false} HiddenAllAppends(c: Context, xs: seq<RadiusAttribute>, ys: seq<RadiusAttribute>)
    requires AllWellFormed(xs) && AllWellFormed(ys)
    ensures HiddenAll(c, xs + ys) == HiddenAll(c, xs) + HiddenAll(c, ys)
    decreases |xs|
  {
    hide HiddenAll, Hidden, RadiusAttribute.WellFormed;
    if xs == [] {
      assert xs + ys == ys;
      HiddenNone(c);
    } else {
      var a, rest := xs[0], xs[1..];
      assert a in xs && forall x :: x in rest ==> x in xs;
      assert xs == [a] + rest && xs + ys == [a] + (rest + ys);
      HiddenAllAppends(c, rest, ys);
      HiddenCons(c, a, rest);
      HiddenCons(c, a, rest + ys);
      assert [Hidden(c, a)] + (HiddenAll(c, rest) + HiddenAll(c, ys))
        == [Hidden(c, a)] + HiddenAll(c, rest) + HiddenAll(c, ys);
    }
  }

  lemma {:induction false} HiddenNone(c: Context)
    ensures HiddenAll(c, []) == []
  {}

  lemma {:induction false} HiddenCons(c: Context, a: RadiusAttribute, rest: seq<RadiusAttribute>)
    requires a.WellFormed() && AllWellFormed(rest)
    ensures HiddenAll(c, [a] + rest) == [Hidden(c, a)] + HiddenAll(c, rest)
  {
    hide Hidden, RadiusAttribute.WellFormed;
    assert ([a] + rest)[1..] == rest;
  }

  lemma {:induction false} NothingToHide(c: Context, attrs: seq<RadiusAttribute>)
    requires AllWellFormed(attrs) && HasNoPassword(attrs)
    ensures HiddenAll(c, attrs) == attrs
    decreases |attrs|
  {
    if attrs != [] {
      assert attrs[0] in attrs && forall a :: a in attrs[1..] ==> a in attrs;
      NothingToHide(c, attrs[1..]);
    }
  }

  lemma {:induction false} EncodeAllAround(xs: seq<RadiusAttribute>, a: RadiusAttribute, ys: seq<RadiusAttribute>)
    ensures EncodeAll(xs + [a] + ys) == EncodeAll(xs) + a.Bytes() + EncodeAll(ys)
  {
    EncodeAllAppends(xs + [a], ys);
    EncodeAllAppends(xs, [a]);
    assert EncodeAll([a]) == a.Bytes() + EncodeAll([]);
  }

  lemma {:induction false} HiddenAllAround(c: Context, xs: seq<RadiusAttribute>, a: RadiusAttribute,
                                           ys: seq<RadiusAttribute>)
    requires AllWellFormed(xs) && a.WellFormed() && AllWellFormed(ys)
    requires HasNoPassword(xs) && HasNoPassword(ys)
    ensures AllWellFormed(xs + [a] + ys)
    ensures HiddenAll(c, xs + [a] + ys) == xs + [Hidden(c, a)] + ys
  {
    HiddenAllAppends(c, xs + [a], ys);
    HiddenAllAppends(c, xs, [a]);
    HiddenCons(c, a, []);
    HiddenNone(c);
    assert [a] + [] == [a];
    NothingToHide(c, xs);
    NothingToHide(c, ys);
  }

  /** Hiding the one password rewrites the octets of its value and no others. */
  lemma {:induction false} HidingOnePassword(c: Context, attrs: seq<RadiusAttribute>, k: nat)
    requires AllWellFormed(attrs) && OnlyPasswordAt(attrs, k) && attrs[k].WellFormed()
    ensures var before := EncodeAll(attrs[..k]) + attrs[k].Header();
      && EncodeAll(attrs) == before + attrs[k].value + EncodeAll(attrs[k + 1..])
      && EncodeAll(HiddenAll(c, attrs))
         == before + Hide(c.md5, c.secret, c.authenticator, attrs[k].value) + EncodeAll(attrs[k + 1..])
  {
    hide EncodeAll, HiddenAll, Hide;
    var (xs, a, ys) := (attrs[..k], attrs[k], attrs[k + 1..]);
    assert attrs == xs + [a] + ys;
    assert (forall x :: x in xs ==> x in attrs) && forall y :: y in ys ==> y in attrs;
    var h := Hidden(c, a);
    assert h.Header() == a.Header();
    HiddenAllAround(c, xs, a, ys);
    EncodeAllAround(xs, a, ys);
    EncodeAllAround(xs, h, ys);
  }
}
