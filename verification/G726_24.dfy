/** libmedia/CodecG726_24.cxx: eight codes of three bits in three octets. */
module G726At24 {
  import opened G726Coding

  type Code3 = c: bv8 | c < 8

  // ----- Eight codes of three bits are one number of 24 bits, least significant first -----

  function Word3(c: seq<Code3>): bv24
    requires |c| == 8
  {
    (c[0] as bv24) | ((c[1] as bv24) << 3) | ((c[2] as bv24) << 6) | ((c[3] as bv24) << 9)
    | ((c[4] as bv24) << 12) | ((c[5] as bv24) << 15) | ((c[6] as bv24) << 18) | ((c[7] as bv24) << 21)
  }

  function Octets3(w: bv24): (b: seq<bv8>)
    ensures |b| == 3
  {
    [(w & 0xff) as bv8, ((w >> 8) & 0xff) as bv8, ((w >> 16) & 0xff) as bv8]
  }

  function Word3OfOctets(b: seq<bv8>): bv24
    requires |b| == 3
  {
    (b[0] as bv24) | ((b[1] as bv24) << 8) | ((b[2] as bv24) << 16)
  }

  function Codes3(w: bv24): (c: seq<Code3>)
    ensures |c| == 8
  {
    [(w & 7) as bv8, ((w >> 3) & 7) as bv8, ((w >> 6) & 7) as bv8, ((w >> 9) & 7) as bv8,
     ((w >> 12) & 7) as bv8, ((w >> 15) & 7) as bv8, ((w >> 18) & 7) as bv8, ((w >> 21) & 7) as bv8]
  }

  lemma {:induction false} WordBits(w: bv24)
    ensures w == (w & 7) | (((w >> 3) & 7) << 3) | (((w >> 6) & 7) << 6) | (((w >> 9) & 7) << 9) |
      (((w >> 12) & 7) << 12) | (((w >> 15) & 7) << 15) | (((w >> 18) & 7) << 18) |
      (((w >> 21) & 7) << 21)
    ensures w == (w & 0xff) | (((w >> 8) & 0xff) << 8) | (((w >> 16) & 0xff) << 16)
  {}

  lemma {:induction false} CodesOfWord3(c: seq<Code3>)
    requires |c| == 8
    ensures Codes3(Word3(c)) == c
  {
    var b := Octets3(Word3(c));
    AssembledIsPacked3(c);
    TakenApartIsUnpacked3(b);
    OctetsOfWord3(Word3(c));
    ApartAndTogether3(c[0], c[1], c[2], c[3], c[4], c[5], c[6], c[7]);
  }

  lemma {:induction false} ApartAndTogether3(c0: Code3, c1: Code3, c2: Code3, c3: Code3, c4: Code3, c5: Code3,
                                             c6: Code3, c7: Code3)
    ensures var b := Assemble3(c0, c1, c2, c3, c4, c5, c6, c7);
      TakeApart3(b[0], b[1], b[2]) == [c0, c1, c2, c3, c4, c5, c6, c7]
  {}

  lemma {:induction false} OctetsOfWord3(w: bv24)
    ensures Word3OfOctets(Octets3(w)) == w && Word3(Codes3(w)) == w
  {
    WordBits(w);
  }

  lemma {:induction false} WordOfOctets3(b: seq<bv8>)
    requires |b| == 3
    ensures Octets3(Word3OfOctets(b)) == b
  {}

  // ----- Whole groups -----

  function Pack3(codes: seq<Code3>): (b: seq<bv8>)
    requires |codes| % 8 == 0
    ensures |b| == |codes| / 8 * 3
  {
    if codes == [] then [] else
      var n := |codes| - 8;
      Pack3(codes[..n]) + Octets3(Word3(codes[n..]))
  }

  function Unpack3(b: seq<bv8>): (codes: seq<Code3>)
    requires |b| % 3 == 0
    ensures |codes| == |b| / 3 * 8
  {
    if b == [] then [] else
      var n := |b| - 3;
      Unpack3(b[..n]) + Codes3(Word3OfOctets(b[n..]))
  }

  lemma {:induction false} PackNone3()
    ensures Pack3([]) == []
  {}

  lemma {:induction false} PackMore3(codes: seq<Code3>, c: seq<Code3>)
    requires |codes| % 8 == 0 && |c| == 8
    ensures Pack3(codes + c) == Pack3(codes) + Octets3(Word3(c))
  {
    assert (codes + c)[..|codes|] == codes && (codes + c)[|codes|..] == c;
  }

  lemma {:induction false} UnpackMore3(b: seq<bv8>, o: seq<bv8>)
    requires |b| % 3 == 0 && |o| == 3
    ensures Unpack3(b + o) == Unpack3(b) + Codes3(Word3OfOctets(o))
  {
    assert (b + o)[..|b|] == b && (b + o)[|b|..] == o;
  }

  /** Unpacking gives back the codes packed... */
  lemma {:induction false} UnpackUndoesPack3(codes: seq<Code3>)
    requires |codes| % 8 == 0
    ensures |Pack3(codes)| % 3 == 0 && Unpack3(Pack3(codes)) == codes
  {
    hide Pack3, Unpack3, Octets3, Word3, Codes3, Word3OfOctets;
    if codes != [] {
      var before, c := codes[..|codes| - 8], codes[|codes| - 8..];
      assert codes == before + c;
      PackMore3(before, c);
      UnpackUndoesPack3(before);
      UnpackMore3(Pack3(before), Octets3(Word3(c)));
      OctetsOfWord3(Word3(c));
      CodesOfWord3(c);
    }
  }

  /** ... and every octet string of whole groups is the packing of its codes. */
  lemma {:induction false} PackUndoesUnpack3(b: seq<bv8>)
    requires |b| % 3 == 0
    ensures |Unpack3(b)| % 8 == 0 && Pack3(Unpack3(b)) == b
  {
    hide Pack3, Unpack3, Octets3, Word3, Codes3, Word3OfOctets;
    if b != [] {
      var before, o := b[..|b| - 3], b[|b| - 3..];
      assert b == before + o;
      UnpackMore3(before, o);
      PackUndoesUnpack3(before);
      PackMore3(Unpack3(before), Codes3(Word3OfOctets(o)));
      OctetsOfWord3(Word3OfOctets(o));
      WordOfOctets3(o);
    }
  }

  /** Decoding hears exactly the codes that encoding emitted; eight samples take three octets. */
  lemma {:induction false} DecoderHearsCodes<S(!new)>(coder: (S, Sample) -> (S, Code3), s: S, data: seq<Sample>)
    requires |data| % 8 == 0
    ensures var codes := Run(coder, s, data).1;
      && 8 * |Pack3(codes)| == 3 * |data|
      && Unpack3(Pack3(codes)) == codes
  {
    UnpackUndoesPack3(Run(coder, s, data).1);
  }

  /** The octets as the code assembles them. */
  function Assemble3(c0: bv8, c1: bv8, c2: bv8, c3: bv8, c4: bv8, c5: bv8, c6: bv8, c7: bv8): seq<bv8> {
    [c0 | (c1 << 3) | ((c2 & 0x3) << 6),
     (c2 >> 2) | (c3 << 1) | (c4 << 4) | ((c5 & 0x1) << 7),
     (c5 >> 1) | (c6 << 2) | (c7 << 5)]
  }

  lemma {:induction false} Assembling3(c0: bv8, c1: bv8, c2: bv8, c3: bv8, c4: bv8, c5: bv8, c6: bv8, c7: bv8)
    ensures Assemble3(c0, c1, c2, c3, c4, c5, c6, c7) == [
      c0 | (c1 << 3) | ((c2 & 0x3) << 6),
      (c2 >> 2) | (c3 << 1) | (c4 << 4) | ((c5 & 0x1) << 7),
      (c5 >> 1) | (c6 << 2) | (c7 << 5)]
  {}

  lemma {:induction false} AssembledIsPacked3(c: seq<Code3>)
    requires |c| == 8
    ensures Assemble3(c[0], c[1], c[2], c[3], c[4], c[5], c[6], c[7]) == Octets3(Word3(c))
  {}

  lemma {:induction false} GroupIsPacked3(codes: seq<Code3>, g: nat)
    requires |codes| % 8 == 0 && 8 * g + 8 <= |codes|
    ensures Pack3(codes)[3 * g..3 * g + 3] == Octets3(Word3(codes[8 * g..8 * g + 8]))
    decreases |codes|
  {
    hide Pack3, Octets3, Word3;
    var before, c := codes[..|codes| - 8], codes[|codes| - 8..];
    assert codes == before + c;
    PackMore3(before, c);
    SliceOfSum(Pack3(before), Octets3(Word3(c)), 3 * g, 3);
    SliceOfSum(before, c, 8 * g, 8);
    if 8 * g < |codes| - 8 {
      GroupIsPacked3(before, g);
    }
  }

  /** Each group of eight codes, wherever it stands, makes three octets, the low bits of the
      first code first. */
  lemma {:induction false} PackedGroup3(codes: seq<Code3>, g: nat)
    requires |codes| % 8 == 0 && 8 * g + 8 <= |codes|
    ensures var (b, c) := (Pack3(codes)[3 * g..3 * g + 3], codes[8 * g..8 * g + 8]);
      && b[0] == c[0] | ((c[1] as bv8) << 3) | ((c[2] & 0x3) << 6)
      && b[1] == (c[2] >> 2) | ((c[3] as bv8) << 1) | ((c[4] as bv8) << 4) | ((c[5] & 0x1) << 7)
      && b[2] == (c[5] >> 1) | ((c[6] as bv8) << 2) | ((c[7] as bv8) << 5)
  {
    hide Pack3, Octets3, Word3, Assemble3;
    var c := codes[8 * g..8 * g + 8];
    GroupIsPacked3(codes, g);
    AssembledIsPacked3(c);
    Assembling3(c[0], c[1], c[2], c[3], c[4], c[5], c[6], c[7]);
  }

  /** The codes as the code takes them apart. */
  function TakeApart3(b0: bv8, b1: bv8, b2: bv8): seq<Code3> {
    [b0 & 0x7,
     (b0 >> 3) & 0x7,
     ((b0 >> 6) | ((b1 & 0x1) << 2)) & 0x7,
     (b1 >> 1) & 0x7,
     (b1 >> 4) & 0x7,
     ((b1 >> 7) | ((b2 & 0x3) << 1)) & 0x7,
     (b2 >> 2) & 0x7,
     (b2 >> 5) & 0x7]
  }

  lemma {:induction false} TakenApartIsUnpacked3(b: seq<bv8>)
    requires |b| == 3
    ensures TakeApart3(b[0], b[1], b[2]) == Codes3(Word3OfOctets(b))
  {}

  lemma {:induction false} UnpackedGroup3(b: seq<bv8>, g: nat)
    requires |b| % 3 == 0 && 3 * g + 3 <= |b|
    ensures Unpack3(b)[8 * g..8 * g + 8] == TakeApart3(b[3 * g], b[3 * g + 1], b[3 * g + 2])
    decreases |b|
  {
    hide Codes3, Word3OfOctets, TakeApart3, Unpack3;
    var before, o := b[..|b| - 3], b[|b| - 3..];
    assert b == before + o;
    UnpackMore3(before, o);
    SliceOfSum(Unpack3(before), Codes3(Word3OfOctets(o)), 8 * g, 8);
    if 3 * g == |b| - 3 {
      TakenApartIsUnpacked3(o);
    } else {
      UnpackedGroup3(before, g);
    }
  }

  lemma {:induction false} EightCodes(codes: seq<Code3>, j: nat, b0: bv8, b1: bv8, b2: bv8)
    requires j + 8 <= |codes| && codes[j..j + 8] == TakeApart3(b0, b1, b2)
    ensures codes[j] == b0 & 0x7
    ensures codes[j + 1] == (b0 >> 3) & 0x7
    ensures codes[j + 2] == ((b0 >> 6) | ((b1 & 0x1) << 2)) & 0x7
    ensures codes[j + 3] == (b1 >> 1) & 0x7
    ensures codes[j + 4] == (b1 >> 4) & 0x7
    ensures codes[j + 5] == ((b1 >> 7) | ((b2 & 0x3) << 1)) & 0x7
    ensures codes[j + 6] == (b2 >> 2) & 0x7
    ensures codes[j + 7] == (b2 >> 5) & 0x7
  {
    var c := codes[j..j + 8];
    assert codes[j] == c[0] && codes[j + 1] == c[1] && codes[j + 2] == c[2] && codes[j + 3] == c[3];
    assert codes[j + 4] == c[4] && codes[j + 5] == c[5] && codes[j + 6] == c[6] && codes[j + 7] == c[7];
  }

  /** Each group of three octets holds the eight codes that were put into it. */
  lemma {:induction false} UnpackedCodes3(b: seq<bv8>, g: nat)
    requires |b| % 3 == 0 && 3 * g + 3 <= |b|
    ensures var (c, i) := (Unpack3(b), 3 * g);
      && c[8 * g] == b[i] & 0x7
      && c[8 * g + 1] == (b[i] >> 3) & 0x7
      && c[8 * g + 2] == ((b[i] >> 6) | ((b[i + 1] & 0x1) << 2)) & 0x7
      && c[8 * g + 3] == (b[i + 1] >> 1) & 0x7
      && c[8 * g + 4] == (b[i + 1] >> 4) & 0x7
      && c[8 * g + 5] == ((b[i + 1] >> 7) | ((b[i + 2] & 0x3) << 1)) & 0x7
      && c[8 * g + 6] == (b[i + 2] >> 2) & 0x7
      && c[8 * g + 7] == (b[i + 2] >> 5) & 0x7
  {
    hide Unpack3, TakeApart3;
    var i := 3 * g;
    UnpackedGroup3(b, g);
    EightCodes(Unpack3(b), 8 * g, b[i], b[i + 1], b[i + 2]);
  }

  class CodecG726_24<S(!new)> {
    const coder: (S, Sample) -> (S, Code3)
    const decoder: (S, Code3) -> (S, Sample)
    var encState: S
    var decState: S

    constructor (coder: (S, Sample) -> (S, Code3), decoder: (S, Code3) -> (S, Sample), init: S)
      ensures this.coder == coder && this.decoder == decoder && encState == decState == init
    {
      this.coder, this.decoder, encState, decState := coder, decoder, init, init;
    }

    /** g726_24_encoder, on the next sample. */
    method Code(data: seq<Sample>, i: nat, ghost start: S, ghost codes: seq<Code3>) returns (code: Code3)
      requires i < |data| && Ran(coder, start, data, i, encState, codes)
      modifies this`encState
      ensures Ran(coder, start, data, i + 1, encState, codes + [code])
    {
      RunStep(coder, start, data, i);
      var r := coder(encState, data[i]);
      encState, code := r.0, r.1;
    }

    /** g726_24_decoder, on the next code. */
    method Sound(ghost codes: seq<Code3>, ghost k: nat, ghost start: S, ghost sounds: seq<Sample>, code: bv8)
      returns (sample: Sample)
      requires k < |codes| && codes[k] == code && Ran(decoder, start, codes, k, decState, sounds)
      modifies this`decState
      ensures Ran(decoder, start, codes, k + 1, decState, sounds + [sample])
    {
      RunStep(decoder, start, codes, k);
      var r := decoder(decState, code);
      decState, sample := r.0, r.1;
    }

    /** One round: eight samples from i on become three octets. */
    method EncodeGroup(data: seq<Sample>, i: nat, ghost start: S, ghost codes: seq<Code3>)
      returns (o: seq<bv8>, ghost c: seq<Code3>)
      requires i + 8 <= |data| && Ran(coder, start, data, i, encState, codes)
      modifies this`encState
      ensures |c| == 8 && Ran(coder, start, data, i + 8, encState, codes + c)
      ensures o == Octets3(Word3(c))
    {
      hide Ran, Octets3, Word3, Assemble3;
      var c0 := Code(data, i, start, codes);
      var o0: bv8 := c0;
      var c1 := Code(data, i + 1, start, codes + [c0]);
      o0 := o0 | ((c1 as bv8) << 3);
      var c2 := Code(data, i + 2, start, codes + [c0] + [c1]);
      o0 := o0 | ((c2 & 0x3) as bv8 << 6);

      var o1: bv8 := c2 >> 2;
      var c3 := Code(data, i + 3, start, codes + [c0] + [c1] + [c2]);
      o1 := o1 | ((c3 as bv8) << 1);
      var c4 := Code(data, i + 4, start, codes + [c0] + [c1] + [c2] + [c3]);
      o1 := o1 | ((c4 as bv8) << 4);
      var c5 := Code(data, i + 5, start, codes + [c0] + [c1] + [c2] + [c3] + [c4]);
      o1 := o1 | ((c5 & 0x1) as bv8 << 7);

      var o2: bv8 := c5 >> 1;
      var c6 := Code(data, i + 6, start, codes + [c0] + [c1] + [c2] + [c3] + [c4] + [c5]);
      o2 := o2 | ((c6 as bv8) << 2);
      var c7 := Code(data, i + 7, start, codes + [c0] + [c1] + [c2] + [c3] + [c4] + [c5] + [c6]);
      o2 := o2 | ((c7 as bv8) << 5);

      c := [c0, c1, c2, c3, c4, c5, c6, c7];
      EightMore(codes, c0, c1, c2, c3, c4, c5, c6, c7);
      AssembledIsPacked3(c);
      o := [o0, o1, o2];
      Assembling3(c0, c1, c2, c3, c4, c5, c6, c7);
    }

    /** Eight samples at a time; room is what the caller says there is for octets. */
    method Encode(data: seq<Sample>, perSampleSize: int, encBuf: array<bv8>, room: int)
      returns (ret: int, encodedLength: int)
      requires |data| % 8 == 0 && room <= encBuf.Length
      modifies this`encState, encBuf
      ensures room < |data| ==> ret == -1 && encodedLength == room && unchanged(this, encBuf)
      ensures room >= |data| && perSampleSize != 2 ==>
        ret == 0 && encodedLength == 0 && unchanged(this, encBuf)
      ensures room >= |data| && perSampleSize == 2 ==>
        && ret == 0 && encodedLength == |data| / 8 * 3
        && encState == Run(coder, old(encState), data).0
        && encBuf[..encodedLength] == Pack3(Run(coder, old(encState), data).1)
        && forall m :: encodedLength <= m < encBuf.Length ==> encBuf[m] == old(encBuf[m])
    {
      hide Run, Ran, Octets3, Word3, Pack3;
      if room < |data| {
        return -1, room;
      }
      var j := 0;
      if perSampleSize == 2 {
        ghost var start, codes: seq<Code3>, g := encState, [], 0;
        RanNone(coder, start, data);
        PackNone3();
        var i := 0;
        while i < |data|
          invariant 0 <= i <= |data| && i == 8 * g && j == 3 * g
          invariant |codes| == i && Ran(coder, start, data, i, encState, codes)
          invariant encBuf[..j] == Pack3(codes)
          invariant forall m :: j <= m < encBuf.Length ==> encBuf[m] == old(encBuf[m])
        {
          var o; ghost var c;
          o, c := EncodeGroup(data, i, start, codes);
          Put(encBuf, j, o);
          PackMore3(codes, c);
          codes := codes + c;
          i := i + 8;
          j := j + 3;
          g := g + 1;
        }
        RanAll(coder, start, data, encState, codes);
      }
      return 0, j;
    }

    /** One round of decoding: three octets from i on become eight samples. */
    method DecodeGroup(data: seq<bv8>, i: nat, ghost j: nat, ghost start: S, ghost codes: seq<Code3>,
                       ghost sounds: seq<Sample>)
      returns (r: seq<Sample>)
      requires i + 3 <= |data| && j + 8 <= |codes|
      requires codes[j..j + 8] == TakeApart3(data[i], data[i + 1], data[i + 2])
      requires Ran(decoder, start, codes, j, decState, sounds)
      modifies this`decState
      ensures |r| == 8 && Ran(decoder, start, codes, j + 8, decState, sounds + r)
    {
      hide Ran, TakeApart3;
      EightCodes(codes, j, data[i], data[i + 1], data[i + 2]);
      var sample := data[i];
      var r0 := Sound(codes, j, start, sounds, sample & 0x7);
      var r1 := Sound(codes, j + 1, start, sounds + [r0], (sample >> 3) & 0x7);
      var tmp := sample >> 6;

      sample := data[i + 1];
      tmp := tmp | ((sample & 0x1) << 2);
      var r2 := Sound(codes, j + 2, start, sounds + [r0] + [r1], tmp & 0x7);
      var r3 := Sound(codes, j + 3, start, sounds + [r0] + [r1] + [r2], (sample >> 1) & 0x7);
      var r4 := Sound(codes, j + 4, start, sounds + [r0] + [r1] + [r2] + [r3], (sample >> 4) & 0x7);
      tmp := sample >> 7;

      sample := data[i + 2];
      tmp := tmp | ((sample & 0x3) << 1);
      var r5 := Sound(codes, j + 5, start, sounds + [r0] + [r1] + [r2] + [r3] + [r4], tmp & 0x7);
      var r6 := Sound(codes, j + 6, start, sounds + [r0] + [r1] + [r2] + [r3] + [r4] + [r5], (sample >> 2) & 0x7);
      var r7 := Sound(codes, j + 7, start, sounds + [r0] + [r1] + [r2] + [r3] + [r4] + [r5] + [r6],
                      (sample >> 5) & 0x7);
      EightMore(sounds, r0, r1, r2, r3, r4, r5, r6, r7);
      r := [r0, r1, r2, r3, r4, r5, r6, r7];
    }

    /** Three octets at a time; decBufLen counts octets. */
    method Decode(data: seq<bv8>, decBuf: array<Sample>, decBufLen: int, isSilence: bool)
      returns (ret: int, decodedSamples: int, decodedPerSampleSize: int)
      requires |data| % 3 == 0 && decBufLen <= 2 * decBuf.Length
      modifies this`decState, decBuf
      ensures isSilence || decBufLen < |data| * 6 ==>
        ret == -1 && unchanged(this, decBuf)
      ensures !isSilence && decBufLen >= |data| * 6 ==>
        && ret == 0 && decodedPerSampleSize == 2 && decodedSamples == |data| / 3 * 8 <= decBuf.Length
        && Run(decoder, old(decState), Unpack3(data)) == (decState, decBuf[..decodedSamples])
        && forall m :: decodedSamples <= m < decBuf.Length ==> decBuf[m] == old(decBuf[m])
    {
      hide Run, Ran, Unpack3, TakeApart3;
      if isSilence {
        return -1, 0, 0;
      }
      if decBufLen < |data| * 6 {
        return -1, 0, 0;
      }
      ghost var start, codes := decState, Unpack3(data);
      RanNone(decoder, start, codes);
      var i, j := 0, 0;
      ghost var g := 0;
      assert decBuf[..0] == [];
      while i < |data|
        invariant 0 <= i <= |data| && i == 3 * g && j == 8 * g
        invariant Ran(decoder, start, codes, j, decState, decBuf[..j])
        invariant forall m :: j <= m < decBuf.Length ==> decBuf[m] == old(decBuf[m])
      {
        UnpackedGroup3(data, g);
        var r := DecodeGroup(data, i, j, start, codes, decBuf[..j]);
        Put(decBuf, j, r);
        g := g + 1;
        i := i + 3;
        j := j + 8;
      }
      RanAll(decoder, start, codes, decState, decBuf[..j]);
      return 0, j, 2;
    }
  }
}
