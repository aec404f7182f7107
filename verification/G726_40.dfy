/** libmedia/CodecG726_40.cxx: eight codes of five bits in five octets. */
module G726At40 {
  import opened G726Coding

  type Code5 = c: bv8 | c < 32

  // ----- Eight codes of five bits are one number of 40 bits, least significant first -----

  function Word5(c: seq<Code5>): bv40
    requires |c| == 8
  {
    (c[0] as bv40) | ((c[1] as bv40) << 5) | ((c[2] as bv40) << 10) | ((c[3] as bv40) << 15)
    | ((c[4] as bv40) << 20) | ((c[5] as bv40) << 25) | ((c[6] as bv40) << 30) | ((c[7] as bv40) << 35)
  }

  function Octets5(w: bv40): (b: seq<bv8>)
    ensures |b| == 5
  {
    [(w & 0xff) as bv8, ((w >> 8) & 0xff) as bv8, ((w >> 16) & 0xff) as bv8, ((w >> 24) & 0xff) as bv8,
     ((w >> 32) & 0xff) as bv8]
  }

  function Word5OfOctets(b: seq<bv8>): bv40
    requires |b| == 5
  {
    (b[0] as bv40) | ((b[1] as bv40) << 8) | ((b[2] as bv40) << 16) | ((b[3] as bv40) << 24) | ((b[4] as bv40) << 32)
  }

  function Codes5(w: bv40): (c: seq<Code5>)
    ensures |c| == 8
  {
    [(w & 31) as bv8, ((w >> 5) & 31) as bv8, ((w >> 10) & 31) as bv8, ((w >> 15) & 31) as bv8,
     ((w >> 20) & 31) as bv8, ((w >> 25) & 31) as bv8, ((w >> 30) & 31) as bv8, ((w >> 35) & 31) as bv8]
  }

  lemma {:induction false} WordBits(w: bv40)
    ensures w == (w & 31) | (((w >> 5) & 31) << 5) | (((w >> 10) & 31) << 10) | (((w >> 15) & 31) << 15) |
      (((w >> 20) & 31) << 20) | (((w >> 25) & 31) << 25) | (((w >> 30) & 31) << 30) |
      (((w >> 35) & 31) << 35)
    ensures w == (w & 0xff) | (((w >> 8) & 0xff) << 8) | (((w >> 16) & 0xff) << 16) |
      (((w >> 24) & 0xff) << 24) | (((w >> 32) & 0xff) << 32)
  {}

  lemma {:induction false} CodesOfWord5(c: seq<Code5>)
    requires |c| == 8
    ensures Codes5(Word5(c)) == c
  {}

  lemma {:induction false} OctetsOfWord5(w: bv40)
    ensures Word5OfOctets(Octets5(w)) == w && Word5(Codes5(w)) == w
  {
    WordBits(w);
  }

  lemma {:induction false} WordOfOctets5(b: seq<bv8>)
    requires |b| == 5
    ensures Octets5(Word5OfOctets(b)) == b
  {}

  // ----- Whole groups -----

  function Pack5(codes: seq<Code5>): (b: seq<bv8>)
    requires |codes| % 8 == 0
    ensures |b| == |codes| / 8 * 5
  {
    if codes == [] then [] else
      var n := |codes| - 8;
      Pack5(codes[..n]) + Octets5(Word5(codes[n..]))
  }

  function Unpack5(b: seq<bv8>): (codes: seq<Code5>)
    requires |b| % 5 == 0
    ensures |codes| == |b| / 5 * 8
  {
    if b == [] then [] else
      var n := |b| - 5;
      Unpack5(b[..n]) + Codes5(Word5OfOctets(b[n..]))
  }

  lemma {:induction false} PackNone5()
    ensures Pack5([]) == []
  {}

  lemma {:induction false} PackMore5(codes: seq<Code5>, c: seq<Code5>)
    requires |codes| % 8 == 0 && |c| == 8
    ensures Pack5(codes + c) == Pack5(codes) + Octets5(Word5(c))
  {
    assert (codes + c)[..|codes|] == codes && (codes + c)[|codes|..] == c;
  }

  lemma {:induction false} UnpackMore5(b: seq<bv8>, o: seq<bv8>)
    requires |b| % 5 == 0 && |o| == 5
    ensures Unpack5(b + o) == Unpack5(b) + Codes5(Word5OfOctets(o))
  {
    assert (b + o)[..|b|] == b && (b + o)[|b|..] == o;
  }

  /** Unpacking gives back the codes packed... */
  lemma {:induction false} UnpackUndoesPack5(codes: seq<Code5>)
    requires |codes| % 8 == 0
    ensures |Pack5(codes)| % 5 == 0 && Unpack5(Pack5(codes)) == codes
  {
    hide Pack5, Unpack5, Octets5, Word5, Codes5, Word5OfOctets;
    if codes != [] {
      var before, c := codes[..|codes| - 8], codes[|codes| - 8..];
      assert codes == before + c;
      PackMore5(before, c);
      UnpackUndoesPack5(before);
      UnpackMore5(Pack5(before), Octets5(Word5(c)));
      OctetsOfWord5(Word5(c));
      CodesOfWord5(c);
    }
  }

  /** ... and every octet string of whole groups is the packing of its codes. */
  lemma {:induction false} PackUndoesUnpack5(b: seq<bv8>)
    requires |b| % 5 == 0
    ensures |Unpack5(b)| % 8 == 0 && Pack5(Unpack5(b)) == b
  {
    hide Pack5, Unpack5, Octets5, Word5, Codes5, Word5OfOctets;
    if b != [] {
      var before, o := b[..|b| - 5], b[|b| - 5..];
      assert b == before + o;
      UnpackMore5(before, o);
      PackUndoesUnpack5(before);
      PackMore5(Unpack5(before), Codes5(Word5OfOctets(o)));
      OctetsOfWord5(Word5OfOctets(o));
      WordOfOctets5(o);
    }
  }

  /** Decoding hears exactly the codes that encoding emitted; eight samples take five octets. */
  lemma {:induction false} DecoderHearsCodes<S(!new)>(coder: (S, Sample) -> (S, Code5), s: S, data: seq<Sample>)
    requires |data| % 8 == 0
    ensures var codes := Run(coder, s, data).1;
      && 8 * |Pack5(codes)| == 5 * |data|
      && Unpack5(Pack5(codes)) == codes
  {
    UnpackUndoesPack5(Run(coder, s, data).1);
  }

  /** The octets as the code assembles them. */
  function Assemble5(c0: bv8, c1: bv8, c2: bv8, c3: bv8, c4: bv8, c5: bv8, c6: bv8, c7: bv8): seq<bv8> {
    [c0 | ((c1 & 0x7) << 5),
     (c1 >> 3) | (c2 << 2) | ((c3 & 0x1) << 7),
     (c3 >> 1) | ((c4 & 0xF) << 4),
     (c4 >> 4) | (c5 << 1) | ((c6 & 0x3) << 6),
     (c6 >> 2) | (c7 << 3)]
  }

  lemma {:induction false} Assembling5(c0: bv8, c1: bv8, c2: bv8, c3: bv8, c4: bv8, c5: bv8, c6: bv8, c7: bv8)
    ensures Assemble5(c0, c1, c2, c3, c4, c5, c6, c7) == [
      c0 | ((c1 & 0x7) << 5),
      (c1 >> 3) | (c2 << 2) | ((c3 & 0x1) << 7),
      (c3 >> 1) | ((c4 & 0xF) << 4),
      (c4 >> 4) | (c5 << 1) | ((c6 & 0x3) << 6),
      (c6 >> 2) | (c7 << 3)]
  {}

  lemma {:induction false} AssembledIsPacked5(c: seq<Code5>)
    requires |c| == 8
    ensures Assemble5(c[0], c[1], c[2], c[3], c[4], c[5], c[6], c[7]) == Octets5(Word5(c))
  {}

  lemma {:induction false} GroupIsPacked5(codes: seq<Code5>, g: nat)
    requires |codes| % 8 == 0 && 8 * g + 8 <= |codes|
    ensures Pack5(codes)[5 * g..5 * g + 5] == Octets5(Word5(codes[8 * g..8 * g + 8]))
    decreases |codes|
  {
    hide Pack5, Octets5, Word5;
    var before, c := codes[..|codes| - 8], codes[|codes| - 8..];
    assert codes == before + c;
    PackMore5(before, c);
    SliceOfSum(Pack5(before), Octets5(Word5(c)), 5 * g, 5);
    SliceOfSum(before, c, 8 * g, 8);
    if 8 * g < |codes| - 8 {
      GroupIsPacked5(before, g);
    }
  }

  /** Each group of eight codes, wherever it stands, makes five octets, the low bits of the
      first code first. */
  lemma {:induction false} PackedGroup5(codes: seq<Code5>, g: nat)
    requires |codes| % 8 == 0 && 8 * g + 8 <= |codes|
    ensures var (b, c) := (Pack5(codes)[5 * g..5 * g + 5], codes[8 * g..8 * g + 8]);
      && b[0] == c[0] | ((c[1] & 0x7) << 5)
      && b[1] == (c[1] >> 3) | ((c[2] as bv8) << 2) | ((c[3] & 0x1) << 7)
      && b[2] == (c[3] >> 1) | ((c[4] & 0xF) << 4)
      && b[3] == (c[4] >> 4) | ((c[5] as bv8) << 1) | ((c[6] & 0x3) << 6)
      && b[4] == (c[6] >> 2) | ((c[7] as bv8) << 3)
  {
    hide Pack5, Octets5, Word5, Assemble5;
    var c := codes[8 * g..8 * g + 8];
    GroupIsPacked5(codes, g);
    AssembledIsPacked5(c);
    Assembling5(c[0], c[1], c[2], c[3], c[4], c[5], c[6], c[7]);
  }

  /** The codes as the code takes them apart. */
  function TakeApart5(b0: bv8, b1: bv8, b2: bv8, b3: bv8, b4: bv8): seq<Code5> {
    [b0 & 0x1f,
     ((b0 >> 5) | ((b1 & 0x3) << 3)) & 0x1f,
     (b1 >> 2) & 0x1f,
     ((b1 >> 7) | ((b2 & 0xf) << 1)) & 0x1f,
     ((b2 >> 4) | ((b3 & 0x1) << 4)) & 0x1f,
     (b3 >> 1) & 0x1f,
     ((b3 >> 6) | ((b4 & 0x7) << 2)) & 0x1f,
     (b4 >> 3) & 0x1f]
  }

  lemma {:induction false} TakenApartIsUnpacked5(b: seq<bv8>)
    requires |b| == 5
    ensures TakeApart5(b[0], b[1], b[2], b[3], b[4]) == Codes5(Word5OfOctets(b))
  {}

  lemma {:induction false} UnpackedGroup5(b: seq<bv8>, g: nat)
    requires |b| % 5 == 0 && 5 * g + 5 <= |b|
    ensures Unpack5(b)[8 * g..8 * g + 8] == TakeApart5(b[5 * g], b[5 * g + 1], b[5 * g + 2], b[5 * g + 3], b[5 * g + 4])
    decreases |b|
  {
    hide Codes5, Word5OfOctets, TakeApart5, Unpack5;
    var before, o := b[..|b| - 5], b[|b| - 5..];
    assert b == before + o;
    UnpackMore5(before, o);
    SliceOfSum(Unpack5(before), Codes5(Word5OfOctets(o)), 8 * g, 8);
    if 5 * g == |b| - 5 {
      TakenApartIsUnpacked5(o);
    } else {
      UnpackedGroup5(before, g);
    }
  }

  lemma {:induction false} EightCodes(codes: seq<Code5>, j: nat, b0: bv8, b1: bv8, b2: bv8, b3: bv8, b4: bv8)
    requires j + 8 <= |codes| && codes[j..j + 8] == TakeApart5(b0, b1, b2, b3, b4)
    ensures codes[j] == b0 & 0x1f
    ensures codes[j + 1] == ((b0 >> 5) | ((b1 & 0x3) << 3)) & 0x1f
    ensures codes[j + 2] == (b1 >> 2) & 0x1f
    ensures codes[j + 3] == ((b1 >> 7) | ((b2 & 0xf) << 1)) & 0x1f
    ensures codes[j + 4] == ((b2 >> 4) | ((b3 & 0x1) << 4)) & 0x1f
    ensures codes[j + 5] == (b3 >> 1) & 0x1f
    ensures codes[j + 6] == ((b3 >> 6) | ((b4 & 0x7) << 2)) & 0x1f
    ensures codes[j + 7] == (b4 >> 3) & 0x1f
  {
    var c := codes[j..j + 8];
    assert codes[j] == c[0] && codes[j + 1] == c[1] && codes[j + 2] == c[2] && codes[j + 3] == c[3];
    assert codes[j + 4] == c[4] && codes[j + 5] == c[5] && codes[j + 6] == c[6] && codes[j + 7] == c[7];
  }

  /** Each group of five octets holds the eight codes that were put into it. */
  lemma {:induction false} UnpackedCodes5(b: seq<bv8>, g: nat)
    requires |b| % 5 == 0 && 5 * g + 5 <= |b|
    ensures var (c, i) := (Unpack5(b), 5 * g);
      && c[8 * g] == b[i] & 0x1f
      && c[8 * g + 1] == ((b[i] >> 5) | ((b[i + 1] & 0x3) << 3)) & 0x1f
      && c[8 * g + 2] == (b[i + 1] >> 2) & 0x1f
      && c[8 * g + 3] == ((b[i + 1] >> 7) | ((b[i + 2] & 0xf) << 1)) & 0x1f
      && c[8 * g + 4] == ((b[i + 2] >> 4) | ((b[i + 3] & 0x1) << 4)) & 0x1f
      && c[8 * g + 5] == (b[i + 3] >> 1) & 0x1f
      && c[8 * g + 6] == ((b[i + 3] >> 6) | ((b[i + 4] & 0x7) << 2)) & 0x1f
      && c[8 * g + 7] == (b[i + 4] >> 3) & 0x1f
  {
    hide Unpack5, TakeApart5;
    var i := 5 * g;
    UnpackedGroup5(b, g);
    EightCodes(Unpack5(b), 8 * g, b[i], b[i + 1], b[i + 2], b[i + 3], b[i + 4]);
  }

  class CodecG726_40<S(!new)> {
    const coder: (S, Sample) -> (S, Code5)
    const decoder: (S, Code5) -> (S, Sample)
    var encState: S
    var decState: S

    constructor (coder: (S, Sample) -> (S, Code5), decoder: (S, Code5) -> (S, Sample), init: S)
      ensures this.coder == coder && this.decoder == decoder && encState == decState == init
    {
      this.coder, this.decoder, encState, decState := coder, decoder, init, init;
    }

    /** g726_40_encoder, on the next sample. */
    method Code(data: seq<Sample>, i: nat, ghost start: S, ghost codes: seq<Code5>) returns (code: Code5)
      requires i < |data| && Ran(coder, start, data, i, encState, codes)
      modifies this`encState
      ensures Ran(coder, start, data, i + 1, encState, codes + [code])
    {
      RunStep(coder, start, data, i);
      var r := coder(encState, data[i]);
      encState, code := r.0, r.1;
    }

    /** g726_40_decoder, on the next code. */
    method Sound(ghost codes: seq<Code5>, ghost k: nat, ghost start: S, ghost sounds: seq<Sample>, code: bv8)
      returns (sample: Sample)
      requires k < |codes| && codes[k] == code && Ran(decoder, start, codes, k, decState, sounds)
      modifies this`decState
      ensures Ran(decoder, start, codes, k + 1, decState, sounds + [sample])
    {
      RunStep(decoder, start, codes, k);
      var r := decoder(decState, code);
      decState, sample := r.0, r.1;
    }

    /** One round: eight samples from i on become five octets. */
    method EncodeGroup(data: seq<Sample>, i: nat, ghost start: S, ghost codes: seq<Code5>)
      returns (o: seq<bv8>, ghost c: seq<Code5>)
      requires i + 8 <= |data| && Ran(coder, start, data, i, encState, codes)
      modifies this`encState
      ensures |c| == 8 && Ran(coder, start, data, i + 8, encState, codes + c)
      ensures o == Octets5(Word5(c))
    {
      hide Ran, Octets5, Word5, Assemble5;
      var c0 := Code(data, i, start, codes);
      var o0: bv8 := c0;
      var c1 := Code(data, i + 1, start, codes + [c0]);
      o0 := o0 | ((c1 & 0x7) << 5);

      var o1: bv8 := c1 >> 3;
      var c2 := Code(data, i + 2, start, codes + [c0] + [c1]);
      o1 := o1 | ((c2 as bv8) << 2);
      var c3 := Code(data, i + 3, start, codes + [c0] + [c1] + [c2]);
      o1 := o1 | ((c3 & 0x1) << 7);

      var o2: bv8 := c3 >> 1;
      var c4 := Code(data, i + 4, start, codes + [c0] + [c1] + [c2] + [c3]);
      o2 := o2 | ((c4 & 0xF) << 4);

      var o3: bv8 := c4 >> 4;
      var c5 := Code(data, i + 5, start, codes + [c0] + [c1] + [c2] + [c3] + [c4]);
      o3 := o3 | ((c5 as bv8) << 1);
      var c6 := Code(data, i + 6, start, codes + [c0] + [c1] + [c2] + [c3] + [c4] + [c5]);
      o3 := o3 | ((c6 & 0x3) << 6);

      var o4: bv8 := c6 >> 2;
      var c7 := Code(data, i + 7, start, codes + [c0] + [c1] + [c2] + [c3] + [c4] + [c5] + [c6]);
      o4 := o4 | ((c7 as bv8) << 3);

      c := [c0, c1, c2, c3, c4, c5, c6, c7];
      EightMore(codes, c0, c1, c2, c3, c4, c5, c6, c7);
      AssembledIsPacked5(c);
      o := [o0, o1, o2, o3, o4];
      Assembling5(c0, c1, c2, c3, c4, c5, c6, c7);
    }

    /** Eight samples at a time; room is what the caller says there is for octets. */
    method Encode(data: seq<Sample>, perSampleSize: int, encBuf: array<bv8>, room: int)
      returns (ret: int, encodedLength: int)
      requires |data| % 8 == 0 && room <= encBuf.Length
      modifies this`encState, encBuf
      ensures room < |data| ==> ret == -1 && encodedLength == room && unchanged(this, encBuf)
      ensures room >= |data| && perSampleSize != 2 ==>
        ret == 0 && encodedLength == 0 && unchanged(this, encBuf)
      ensures room >= |data| && perSampleSize == 2 ==>
        && ret == 0 && encodedLength == |data| / 8 * 5
        && encState == Run(coder, old(encState), data).0
        && encBuf[..encodedLength] == Pack5(Run(coder, old(encState), data).1)
        && forall m :: encodedLength <= m < encBuf.Length ==> encBuf[m] == old(encBuf[m])
    {
      hide Run, Ran, Octets5, Word5, Pack5;
      if room < |data| {
        return -1, room;
      }
      var j := 0;
      if perSampleSize == 2 {
        ghost var start, codes: seq<Code5>, g := encState, [], 0;
        RanNone(coder, start, data);
        PackNone5();
        var i := 0;
        while i < |data|
          invariant 0 <= i <= |data| && i == 8 * g && j == 5 * g
          invariant |codes| == i && Ran(coder, start, data, i, encState, codes)
          invariant encBuf[..j] == Pack5(codes)
          invariant forall m :: j <= m < encBuf.Length ==> encBuf[m] == old(encBuf[m])
        {
          var o; ghost var c;
          o, c := EncodeGroup(data, i, start, codes);
          Put(encBuf, j, o);
          PackMore5(codes, c);
          codes := codes + c;
          i := i + 8;
          j := j + 5;
          g := g + 1;
        }
        RanAll(coder, start, data, encState, codes);
      }
      return 0, j;
    }

    /** One round of decoding: five octets from i on become eight samples. */
    method DecodeGroup(data: seq<bv8>, i: nat, ghost j: nat, ghost start: S, ghost codes: seq<Code5>,
                       ghost sounds: seq<Sample>)
      returns (r: seq<Sample>)
      requires i + 5 <= |data| && j + 8 <= |codes|
      requires codes[j..j + 8] == TakeApart5(data[i], data[i + 1], data[i + 2], data[i + 3], data[i + 4])
      requires Ran(decoder, start, codes, j, decState, sounds)
      modifies this`decState
      ensures |r| == 8 && Ran(decoder, start, codes, j + 8, decState, sounds + r)
    {
      hide Ran, TakeApart5;
      EightCodes(codes, j, data[i], data[i + 1], data[i + 2], data[i + 3], data[i + 4]);
      var sample := data[i];
      var r0 := Sound(codes, j, start, sounds, sample & 0x1f);
      var tmp := sample >> 5;

      sample := data[i + 1];
      tmp := tmp | ((sample & 0x3) << 3);
      var r1 := Sound(codes, j + 1, start, sounds + [r0], tmp & 0x1f);
      var r2 := Sound(codes, j + 2, start, sounds + [r0] + [r1], (sample >> 2) & 0x1f);
      tmp := sample >> 7;

      sample := data[i + 2];
      tmp := tmp | ((sample & 0xf) << 1);
      var r3 := Sound(codes, j + 3, start, sounds + [r0] + [r1] + [r2], tmp & 0x1f);
      tmp := sample >> 4;

      sample := data[i + 3];
      tmp := tmp | ((sample & 0x1) << 4);
      var r4 := Sound(codes, j + 4, start, sounds + [r0] + [r1] + [r2] + [r3], tmp & 0x1f);
      var r5 := Sound(codes, j + 5, start, sounds + [r0] + [r1] + [r2] + [r3] + [r4], (sample >> 1) & 0x1f);
      tmp := sample >> 6;

      sample := data[i + 4];
      tmp := tmp | ((sample & 0x7) << 2);
      var r6 := Sound(codes, j + 6, start, sounds + [r0] + [r1] + [r2] + [r3] + [r4] + [r5], tmp & 0x1f);
      var r7 := Sound(codes, j + 7, start, sounds + [r0] + [r1] + [r2] + [r3] + [r4] + [r5] + [r6],
                      (sample >> 3) & 0x1f);
      EightMore(sounds, r0, r1, r2, r3, r4, r5, r6, r7);
      r := [r0, r1, r2, r3, r4, r5, r6, r7];
    }

    /** Five octets at a time; decBufLen counts octets. */
    method Decode(data: seq<bv8>, decBuf: array<Sample>, decBufLen: int, isSilence: bool)
      returns (ret: int, decodedSamples: int, decodedPerSampleSize: int)
      requires |data| % 5 == 0 && decBufLen <= 2 * decBuf.Length
      modifies this`decState, decBuf
      ensures isSilence || decBufLen < |data| * 6 ==>
        ret == -1 && unchanged(this, decBuf)
      ensures !isSilence && decBufLen >= |data| * 6 ==>
        && ret == 0 && decodedPerSampleSize == 2 && decodedSamples == |data| / 5 * 8 <= decBuf.Length
        && Run(decoder, old(decState), Unpack5(data)) == (decState, decBuf[..decodedSamples])
        && forall m :: decodedSamples <= m < decBuf.Length ==> decBuf[m] == old(decBuf[m])
    {
      hide Run, Ran, Unpack5, TakeApart5;
      if isSilence {
        return -1, 0, 0;
      }
      if decBufLen < |data| * 6 {
        return -1, 0, 0;
      }
      ghost var start, codes := decState, Unpack5(data);
      RanNone(decoder, start, codes);
      var i, j := 0, 0;
      ghost var g := 0;
      assert decBuf[..0] == [];
      while i < |data|
        invariant 0 <= i <= |data| && i == 5 * g && j == 8 * g
        invariant Ran(decoder, start, codes, j, decState, decBuf[..j])
        invariant forall m :: j <= m < decBuf.Length ==> decBuf[m] == old(decBuf[m])
      {
        UnpackedGroup5(data, g);
        var r := DecodeGroup(data, i, j, start, codes, decBuf[..j]);
        Put(decBuf, j, r);
        g := g + 1;
        i := i + 5;
        j := j + 8;
      }
      RanAll(decoder, start, codes, decState, decBuf[..j]);
      return 0, j, 2;
    }
  }
}
