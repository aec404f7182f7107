/** Which octets stund/stun.cxx reads as a message, and for which it copies outside its
    fields. */
module StunOutcomes {
  import opened Bytes
  import opened StunMessages
  import opened StunRoundTrip

  /** A value whose length fits its field. */
  type Value = v: seq<byte> | |v| < 0x1_0000

  /** An attribute as it travels. */
  datatype Tlv = Tlv(typ: Word16, value: Value)

  predicate IsAddress(v: seq<byte>) { |v| == 8 && v[1] == 1 }

  /** The sizes and families that the parser takes; of the types it does not know, only the
      optional ones. */
  predicate Reads(x: Tlv) {
    var n := |x.value|;
    match x.typ
    case 1 | 2 | 4 | 5 | 11 => IsAddress(x.value)
    case 3 => n == 4
    case 6 | 7 => n < 256 && n % 4 == 0
    case 8 => n == 20
    case 9 => 4 <= n < 260
    case 10 => n < 10 && n % 4 == 0
    case t => t > 0x7FFF
  }

  /** An error code whose reason has a negative length, or two octets more than its field. */
  predicate Overruns(x: Tlv) {
    x.typ == ERROR_CODE && (|x.value| < 4 || |x.value| == 260 || |x.value| == 261)
  }

  lemma {:induction false} AttributeOutcome(x: Tlv, m: StunMessage)
    ensures ParseAttribute(x.typ, x.value, m).Parsed? <==> Reads(x)
    ensures ParseAttribute(x.typ, x.value, m) == Undefined <==> Overruns(x)
  {
    hide Decode16, Decode32;
  }

  function Octets(xs: seq<Tlv>): seq<byte> {
    if xs == [] then [] else Attribute(xs[0].typ, xs[0].value) + Octets(xs[1..])
  }

  predicate ReadsAll(xs: seq<Tlv>) { forall i :: 0 <= i < |xs| ==> Reads(xs[i]) }

  /** The octets are attributes that the parser takes, and no more. */
  predicate IsMessage(body: seq<byte>, xs: seq<Tlv>) {
    ReadsAll(xs) && body == Octets(xs)
  }

  /** The octets are attributes that the parser takes, then an error code that overruns. */
  predicate IsOverrun(body: seq<byte>, xs: seq<Tlv>, x: Tlv, rest: seq<byte>) {
    ReadsAll(xs) && Overruns(x) && body == Octets(xs) + (Attribute(x.typ, x.value) + rest)
  }

  lemma {:induction false} OctetsCons(x: Tlv, xs: seq<Tlv>)
    requires Reads(x) && ReadsAll(xs)
    ensures ReadsAll([x] + xs) && Octets([x] + xs) == Attribute(x.typ, x.value) + Octets(xs)
  {
    hide Reads, Attribute;
    assert ([x] + xs)[1..] == xs;
  }

  lemma {:induction false} NextAttribute(x: Tlv, rest: seq<byte>, m: StunMessage)
    ensures ParseAttributes(Attribute(x.typ, x.value) + rest, m) ==
      match ParseAttribute(x.typ, x.value, m)
      case Parsed(m') => ParseAttributes(rest, m')
      case fault => fault
  {
    hide ParseAttribute, ParseAttributes;
    AttributeStep(x.typ, |x.value|, x.value, rest, m);
  }

  // ----- From the octets to the outcome -----

  lemma {:induction false} MessageParses(xs: seq<Tlv>, rest: seq<byte>, m: StunMessage) returns (m': StunMessage)
    requires ReadsAll(xs)
    ensures ParseAttributes(Octets(xs) + rest, m) == ParseAttributes(rest, m')
    decreases |xs|
  {
    hide ParseAttribute, ParseAttributes, Attribute, Reads;
    if xs == [] {
      assert Octets(xs) + rest == rest;
      m' := m;
    } else {
      var x, tail := xs[0], xs[1..];
      AttributeOutcome(x, m);
      Associates(Attribute(x.typ, x.value), Octets(tail), rest);
      NextAttribute(x, Octets(tail) + rest, m);
      m' := MessageParses(tail, rest, ParseAttribute(x.typ, x.value, m).msg);
    }
  }

  // ----- From the outcome to the octets -----

  /** The attribute at the head of octets that do not fail. */
  lemma {:induction false} HeadAttribute(body: seq<byte>, m: StunMessage) returns (x: Tlv, rest: seq<byte>)
    requires body != [] && ParseAttributes(body, m) != Failed
    ensures body == Attribute(x.typ, x.value) + rest && |rest| < |body|
    ensures Reads(x) || Overruns(x)
  {
    hide ParseAttribute, ParseAttributes;
    NotFailed(body, m);
    var n: int := Decode16(body[2..4]);
    x, rest := Tlv(Decode16(body[..2]), body[4..4 + n]), body[4 + n..];
    Encode16Undoes(body[..2]);
    Encode16Undoes(body[2..4]);
    assert body == body[..2] + body[2..4] + body[4..4 + n] + body[4 + n..];
    NextAttribute(x, rest, m);
    AttributeOutcome(x, m);
  }

  lemma {:induction false} NotFailed(body: seq<byte>, m: StunMessage)
    requires body != [] && ParseAttributes(body, m) != Failed
    ensures |body| >= 4 && Decode16(body[2..4]) as int + 4 <= |body|
  {
    hide ParseAttribute, Decode16;
  }

  lemma {:induction false} ParsedShows(body: seq<byte>, m: StunMessage) returns (xs: seq<Tlv>)
    requires ParseAttributes(body, m).Parsed?
    ensures IsMessage(body, xs)
    decreases |body|
  {
    hide ParseAttribute, ParseAttributes, Attribute, Reads, Overruns;
    if body == [] {
      xs := [];
    } else {
      var x, rest := HeadAttribute(body, m);
      NextAttribute(x, rest, m);
      AttributeOutcome(x, m);
      var tail := ParsedShows(rest, ParseAttribute(x.typ, x.value, m).msg);
      OctetsCons(x, tail);
      xs := [x] + tail;
    }
  }

  lemma {:induction false} UndefinedShows(body: seq<byte>, m: StunMessage)
    returns (xs: seq<Tlv>, x: Tlv, rest: seq<byte>)
    requires ParseAttributes(body, m) == Undefined
    ensures IsOverrun(body, xs, x, rest)
    decreases |body|
  {
    hide ParseAttribute, ParseAttributes, Attribute, Reads, Overruns;
    NothingIsParsed(m);
    var y, more := HeadAttribute(body, m);
    NextAttribute(y, more, m);
    AttributeOutcome(y, m);
    if Overruns(y) {
      xs, x, rest := [], y, more;
      assert Octets(xs) + (Attribute(x.typ, x.value) + rest) == body;
    } else {
      var tail;
      tail, x, rest := UndefinedShows(more, ParseAttribute(y.typ, y.value, m).msg);
      OctetsCons(y, tail);
      xs := [y] + tail;
      Associates(Attribute(y.typ, y.value), Octets(tail), Attribute(x.typ, x.value) + rest);
    }
  }

  lemma {:induction false} NothingIsParsed(m: StunMessage)
    ensures ParseAttributes([], m) == Parsed(m)
  {}

  // ----- The outcome is exact -----

  /** The header is there and its length field counts what follows. */
  predicate IsSized(raw: seq<byte>) {
    |raw| >= HEADER_SIZE && Decode16(raw[2..4]) as int + HEADER_SIZE == |raw|
  }

  lemma {:induction false} ParseShows(raw: seq<byte>) returns (m: StunMessage)
    ensures Parse(raw) == if IsSized(raw) then ParseAttributes(raw[20..], m) else Failed
  {
    hide ParseAttributes, Decode16;
    m := if IsSized(raw) then NoMessage(Decode16(raw[..2]), Decode16(raw[2..4]), raw[4..20]) else NoMessage(0, 0, []);
  }

  /** A message is read exactly when its length is right and the octets behind the header
      are attributes that the parser takes. */
  lemma {:induction false} ParsedIsExact(raw: seq<byte>)
    ensures Parse(raw).Parsed? <==> IsSized(raw) && exists xs :: IsMessage(raw[20..], xs)
  {
    hide Parse, ParseAttributes, IsMessage, IsSized;
    var m := ParseShows(raw);
    SizedHasHeader(raw);
    if Parse(raw).Parsed? {
      var xs := ParsedShows(raw[20..], m);
    }
    if IsSized(raw) && exists xs :: IsMessage(raw[20..], xs) {
      var xs :| IsMessage(raw[20..], xs);
      MessageIsParsed(raw[20..], xs, m);
    }
  }

  lemma {:induction false} SizedHasHeader(raw: seq<byte>)
    ensures IsSized(raw) ==> |raw| >= 20
  {}

  lemma {:induction false} MessageIsParsed(body: seq<byte>, xs: seq<Tlv>, m: StunMessage)
    requires IsMessage(body, xs)
    ensures ParseAttributes(body, m).Parsed?
  {
    hide ParseAttributes, Octets, ReadsAll;
    var m' := MessageParses(xs, [], m);
    assert Octets(xs) + [] == body;
    NothingIsParsed(m');
  }

  /** The original copies outside its fields exactly when an error code of fewer than 4
      octets, or of 260 or 261, follows attributes that the parser takes. */
  lemma {:induction false} UndefinedIsExact(raw: seq<byte>)
    ensures Parse(raw) == Undefined <==> IsSized(raw) && exists xs, x, rest :: IsOverrun(raw[20..], xs, x, rest)
  {
    hide Parse, ParseAttributes, IsOverrun, IsSized;
    var m := ParseShows(raw);
    SizedHasHeader(raw);
    if Parse(raw) == Undefined {
      var xs, x, rest := UndefinedShows(raw[20..], m);
    }
    if IsSized(raw) && exists xs, x, rest :: IsOverrun(raw[20..], xs, x, rest) {
      var xs, x, rest :| IsOverrun(raw[20..], xs, x, rest);
      OverrunIsUndefined(raw[20..], xs, x, rest, m);
    }
  }

  lemma {:induction false} OverrunIsUndefined(body: seq<byte>, xs: seq<Tlv>, x: Tlv, rest: seq<byte>, m: StunMessage)
    requires IsOverrun(body, xs, x, rest)
    ensures ParseAttributes(body, m) == Undefined
  {
    hide ParseAttribute, ParseAttributes, Octets, ReadsAll, Attribute;
    var m' := MessageParses(xs, Attribute(x.typ, x.value) + rest, m);
    NextAttribute(x, rest, m');
    AttributeOutcome(x, m');
  }
}
