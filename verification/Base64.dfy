/** util/Base64.cxx, against section 4 of RFC 4648. */
module Base64 {
  import opened Options

  type octet = bv8

  const NUL: octet := 0
  const LF: octet := 10
  const CR: octet := 13
  const PAD: octet := 61

  /** basis_64: A to Z, a to z, 0 to 9, + and /. */
  function Basis(v: octet): octet {
    if v < 26 then v + 65
    else if v < 52 then v + 71
    else if v < 62 then v - 4
    else if v == 62 then 43
    else 47
  }

  /** char64, stored in an unsigned char: 255 for what is not in the alphabet. */
  function Char64(c: octet): octet {
    if 65 <= c <= 90 then c - 65
    else if 97 <= c <= 122 then c - 71
    else if 48 <= c <= 57 then c + 4
    else if c == 43 then 62
    else if c == 47 then 63
    else 255
  }

  lemma {:induction false} AlphabetIsExact(v: octet, c: octet)
    ensures v < 64 ==> Char64(Basis(v)) == v && Basis(v) !in {NUL, PAD, CR, LF}
    ensures Char64(c) == 255 || (Char64(c) < 64 && Basis(Char64(c)) == c)
  {}

  /** Table 1 of RFC 4648: from 0 on the capital letters, from 26 on the small ones, from 52
      on the digits, and + and / last. */
  lemma {:induction false} AlphabetIsInOrder(v: octet)
    ensures Basis(0) == 65 && Basis(26) == 97 && Basis(52) == 48 && Basis(62) == 43 && Basis(63) == 47
    ensures v < 25 || 26 <= v < 51 || 52 <= v < 61 ==> Basis(v + 1) == Basis(v) + 1
  {}

  // ----- Groups: three octets are one number of 24 bits, most significant first -----

  function Word(a: octet, b: octet, c: octet): bv24 {
    ((a as bv24) << 16) | ((b as bv24) << 8) | (c as bv24)
  }

  /** The sextet at a place, 0 being the first. */
  function Sextet(w: bv24, k: nat): octet
    requires k < 4
  {
    (if k == 0 then w >> 18 else if k == 1 then (w >> 12) & 63 else if k == 2 then (w >> 6) & 63 else w & 63) as octet
  }

  /** One group of the encoding: n of its three octets are there, the others are zero. */
  function Group(a: octet, b: octet, c: octet, n: nat): (g: seq<octet>)
    requires 1 <= n <= 3
    ensures |g| == 4
  {
    var w := Word(a, b, c);
    [Basis(Sextet(w, 0)), Basis(Sextet(w, 1)),
     if n >= 2 then Basis(Sextet(w, 2)) else PAD,
     if n == 3 then Basis(Sextet(w, 3)) else PAD]
  }

  function Encoded(x: seq<octet>): (s: seq<octet>)
    ensures |s| == (|x| + 2) / 3 * 4
    decreases |x|
  {
    if |x| == 0 then []
    else if |x| == 1 then Group(x[0], 0, 0, 1)
    else if |x| == 2 then Group(x[0], x[1], 0, 2)
    else Group(x[0], x[1], x[2], 3) + Encoded(x[3..])
  }

  // The sextets as the code computes them.
  function Sextet1(c1: octet): octet { c1 >> 2 }
  function Sextet2(c1: octet, c2: octet): octet { ((c1 & 0x3) << 4) | ((c2 & 0xF0) >> 4) }
  function Sextet3(c2: octet, c3: octet): octet { ((c2 & 0x0F) << 2) | ((c3 & 0xC0) >> 6) }
  function Sextet4(c3: octet): octet { c3 & 0x3F }

  lemma {:induction false} GroupAsCoded(a: octet, b: octet, c: octet)
    ensures Sextet(Word(a, b, c), 0) == Sextet1(a)
    ensures Sextet(Word(a, b, c), 1) == Sextet2(a, b)
    ensures Sextet(Word(a, b, c), 2) == Sextet3(b, c)
    ensures Sextet(Word(a, b, c), 3) == Sextet4(c)
  {}

  // The octets as the code puts them together again.
  function First(s1: octet, s2: octet): octet { (s1 << 2) | ((s2 & 0x30) >> 4) }
  function Second(s2: octet, s3: octet): octet { ((s2 & 0xF) << 4) | ((s3 & 0x3C) >> 2) }
  function Third(s3: octet, s4: octet): octet { ((s3 & 0x3) << 6) | s4 }

  lemma {:induction false} GroupComesBack(a: octet, b: octet, c: octet)
    ensures var w := Word(a, b, c);
      var (s1, s2, s3, s4) := (Sextet(w, 0), Sextet(w, 1), Sextet(w, 2), Sextet(w, 3));
      && s1 < 64 && s2 < 64 && s3 < 64 && s4 < 64
      && First(s1, s2) == a && Second(s2, s3) == b && Third(s3, s4) == c
  {}

  lemma {:induction false} GroupShows(a: octet, b: octet, c: octet, n: nat)
    requires 1 <= n <= 3
    ensures var g := Group(a, b, c, n);
      forall k :: 0 <= k < 4 ==> g[k] != NUL && g[k] != CR && (g[k] == PAD <==> k > n)
  {
    hide Word, Sextet, Basis, Char64;
    GroupComesBack(a, b, c);
    var w := Word(a, b, c);
    AlphabetIsExact(Sextet(w, 0), 0);
    AlphabetIsExact(Sextet(w, 1), 0);
    AlphabetIsExact(Sextet(w, 2), 0);
    AlphabetIsExact(Sextet(w, 3), 0);
  }

  /** The first octets of what is left, zeros where there are none. */
  function At(x: seq<octet>, k: nat): octet { if k < |x| then x[k] else 0 }

  lemma {:induction false} EncodedStep(x: seq<octet>)
    requires x != []
    ensures var n := if |x| < 3 then |x| else 3;
      && Encoded(x) == Group(x[0], At(x, 1), At(x, 2), n) + Encoded(x[n..])
      && x == [x[0], At(x, 1), At(x, 2)][..n] + x[n..]
  {}

  /** Figure 1 of RFC 4648: each three octets make four characters of six bits each, the
      most significant first; what is missing of the last three is zero, and a pad stands
      for each character that would carry nothing. */
  lemma {:induction false} EncodedAt(x: seq<octet>, g: nat)
    requires 3 * g < |x|
    ensures var (s, i) := (Encoded(x), 4 * g);
      var (a, b, c) := (x[3 * g], At(x, 3 * g + 1), At(x, 3 * g + 2));
      && s[i] == Basis(a >> 2)
      && s[i + 1] == Basis(((a & 3) << 4) | (b >> 4))
      && s[i + 2] == (if 3 * g + 1 < |x| then Basis(((b & 15) << 2) | (c >> 6)) else 61)
      && s[i + 3] == (if 3 * g + 2 < |x| then Basis(c & 63) else 61)
    decreases g
  {
    hide Encoded, Group, At, Basis;
    var n := if |x| < 3 then |x| else 3;
    EncodedStep(x);
    if g == 0 {
      GroupIsCoded(x[0], At(x, 1), At(x, 2), n);
    } else {
      var tail := x[3..];
      EncodedAt(tail, g - 1);
      AtBehind(x, 3 * g + 1);
      AtBehind(x, 3 * g + 2);
      assert tail[3 * (g - 1)] == x[3 * g];
    }
  }

  lemma {:induction false} AtBehind(x: seq<octet>, k: nat)
    requires |x| >= 3 && k >= 3
    ensures At(x, k) == At(x[3..], k - 3)
  {}

  lemma {:induction false} GroupIsCoded(a: octet, b: octet, c: octet, n: nat)
    requires 1 <= n <= 3
    ensures var g := Group(a, b, c, n);
      && g[0] == Basis(a >> 2) && g[1] == Basis(((a & 3) << 4) | (b >> 4))
      && g[2] == (if n >= 2 then Basis(((b & 15) << 2) | (c >> 6)) else 61)
      && g[3] == (if n == 3 then Basis(c & 63) else 61)
  {
    hide Basis, Sextet, Word;
    GroupAsCoded(a, b, c);
    ShiftsAgree(a, b, c);
  }

  lemma {:induction false} ShiftsAgree(a: octet, b: octet, c: octet)
    ensures Sextet1(a) == a >> 2 && Sextet2(a, b) == ((a & 3) << 4) | (b >> 4)
    ensures Sextet3(b, c) == ((b & 15) << 2) | (c >> 6) && Sextet4(c) == c & 63
  {}

  /** How many octets are missing to a whole group. */
  function PadCount(n: nat): nat { (3 - n % 3) % 3 }

  lemma {:induction false} PadCountSteps(n: nat)
    ensures n > 3 ==> PadCount(n - 3) == PadCount(n)
    ensures 0 < n <= 3 ==> PadCount(n) == 3 - n
  {}

  lemma {:induction false} PadCountIsSmall(n: nat)
    ensures PadCount(n) <= 2
  {}

  /** No NUL, so that strlen is right; and '=' only as the one or two last characters. */
  lemma {:induction false} EncodedShows(x: seq<octet>, i: nat)
    requires i < |Encoded(x)|
    ensures Encoded(x)[i] != NUL && Encoded(x)[i] != CR
    ensures Encoded(x)[i] == PAD <==> i >= |Encoded(x)| - PadCount(|x|)
    decreases |x|
  {
    hide Encoded, Group, At, PadCount;
    EncodedStep(x);
    var n := if |x| < 3 then |x| else 3;
    var g, tail := Group(x[0], At(x, 1), At(x, 2), n), x[n..];
    GroupShows(x[0], At(x, 1), At(x, 2), n);
    PadCountSteps(|x|);
    if i >= 4 {
      assert Encoded(x)[i] == Encoded(tail)[i - 4];
      EncodedShows(tail, i - 4);
    } else {
      assert Encoded(x)[i] == g[i];
      PadCountIsSmall(|x|);
    }
  }

  // ----- Decoding -----

  /** What one group stands for, as the code takes it: nothing is checked. */
  function Octets(c1: octet, c2: octet, c3: octet, c4: octet): (r: seq<octet>)
    ensures 1 <= |r| <= 3
  {
    var (s1, s2, s3, s4) := (Char64(c1), Char64(c2), Char64(c3), Char64(c4));
    if c3 == PAD then [First(s1, s2)]
    else if c4 == PAD then [First(s1, s2), Second(s2, s3)]
    else [First(s1, s2), Second(s2, s3), Third(s3, s4)]
  }

  /** Between groups a line may end. */
  function SkipBreak(s: seq<octet>): (r: seq<octet>)
    ensures |r| <= |s|
  {
    if s == [] || s[0] != CR then s
    else if |s| > 1 && s[1] == LF then s[2..]
    else s[1..]
  }

  /** A line ends with a carriage return, alone or before a line feed. */
  lemma {:induction false} BreakIsOptional(s: seq<octet>)
    ensures SkipBreak([13, 10] + s) == s
    ensures s == [] || s[0] != 10 ==> SkipBreak([13] + s) == s
    ensures s == [] || s[0] != 13 ==> SkipBreak(s) == s
  {
    assert ([13, 10] + s)[2..] == s && ([13] + s)[1..] == s;
  }

  /** The octets up to the NUL; none if reading leaves the buffer before it. */
  function Decoded(s: seq<octet>): Option<seq<octet>>
    decreases |s|
  {
    if s == [] then None
    else if s[0] == NUL then Some([])
    else if |s| < 4 then None
    else
      match Decoded(SkipBreak(s[4..]))
      case None => None
      case Some(more) => Some(Octets(s[0], s[1], s[2], s[3]) + more)
  }

  /** The octets written until reading ends, at the NUL or at the end of the buffer. */
  function Written(s: seq<octet>): (n: nat)
    decreases |s|
  {
    if |s| < 4 || s[0] == NUL then 0
    else |Octets(s[0], s[1], s[2], s[3])| + Written(SkipBreak(s[4..]))
  }

  lemma {:induction false} WrittenIsDecoded(s: seq<octet>)
    ensures Decoded(s).Some? ==> Written(s) == |Decoded(s).value|
    decreases |s|
  {
    hide Octets, SkipBreak;
    if |s| >= 4 && s[0] != NUL {
      WrittenIsDecoded(SkipBreak(s[4..]));
    }
  }

  lemma {:induction false} DecodedStep(g: seq<octet>, after: seq<octet>)
    requires |g| == 4 && g[0] != NUL
    ensures Decoded(g + after) ==
      match Decoded(SkipBreak(after))
      case None => None
      case Some(more) => Some(Octets(g[0], g[1], g[2], g[3]) + more)
  {
    assert (g + after)[4..] == after;
  }

  /** What any four characters stand for, in the alphabet or not: the bits that their values
      have in common with six bits, put together; one octet before two pads, and two before
      one. */
  lemma {:induction false} OctetsAre(c1: octet, c2: octet, c3: octet, c4: octet)
    ensures var (v1, v2, v3, v4) := (Char64(c1), Char64(c2), Char64(c3), Char64(c4));
      var o := Octets(c1, c2, c3, c4);
      && |o| == (if c3 == 61 then 1 else if c4 == 61 then 2 else 3)
      && o[0] == (v1 << 2) | ((v2 >> 4) & 3)
      && (|o| > 1 ==> o[1] == ((v2 & 15) << 4) | ((v3 >> 2) & 15))
      && (|o| > 2 ==> o[2] == ((v3 & 3) << 6) | v4)
  {
    hide Char64;
    var (v1, v2, v3, v4) := (Char64(c1), Char64(c2), Char64(c3), Char64(c4));
    ShiftedBack(v1, v2, v3, v4);
    hide First, Second, Third;
  }

  lemma {:induction false} ShiftedBack(v1: octet, v2: octet, v3: octet, v4: octet)
    ensures First(v1, v2) == (v1 << 2) | ((v2 >> 4) & 3)
    ensures Second(v2, v3) == ((v2 & 15) << 4) | ((v3 >> 2) & 15)
    ensures Third(v3, v4) == ((v3 & 3) << 6) | v4
  {}

  lemma {:induction false} GroupDecodes(a: octet, b: octet, c: octet, n: nat)
    requires 1 <= n <= 3 && (n < 3 ==> c == 0) && (n < 2 ==> b == 0)
    ensures var g := Group(a, b, c, n);
      && g[0] != NUL
      && Octets(g[0], g[1], g[2], g[3]) == [a, b, c][..n]
  {
    hide Word, Sextet, Basis, Char64, First, Second, Third;
    GroupComesBack(a, b, c);
    var w := Word(a, b, c);
    var (x1, x2, x3, x4) := (Sextet(w, 0), Sextet(w, 1), Sextet(w, 2), Sextet(w, 3));
    SextetDecodes(x1);
    SextetDecodes(x2);
    SextetDecodes(x3);
    SextetDecodes(x4);
    assert Group(a, b, c, n) ==
      [Basis(x1), Basis(x2), if n < 2 then PAD else Basis(x3), if n < 3 then PAD else Basis(x4)];
  }

  lemma {:induction false} SextetDecodes(x: octet)
    requires x < 64
    ensures Char64(Basis(x)) == x && Basis(x) != PAD && Basis(x) != NUL
  {
    AlphabetIsExact(x, 0);
  }

  /** Decoding undoes encoding. */
  lemma {:induction false} DecodeUndoesEncode(x: seq<octet>, rest: seq<octet>)
    ensures Decoded(Encoded(x) + [NUL] + rest) == Some(x)
    decreases |x|
  {
    if x != [] {
      EncodedStep(x);
      var n := if |x| < 3 then |x| else 3;
      var g, tail := Group(x[0], At(x, 1), At(x, 2), n), x[n..];
      GroupDecodes(x[0], At(x, 1), At(x, 2), n);
      var after := Encoded(tail) + [NUL] + rest;
      assert Encoded(x) + [NUL] + rest == g + after;
      if tail != [] {
        EncodedShows(tail, 0);
      }
      assert SkipBreak(after) == after;
      hide Decoded, Encoded, Group, Octets, At;
      DecodedStep(g, after);
      DecodeUndoesEncode(tail, rest);
    }
  }

  lemma {:induction false} FirstGroup(x: seq<octet>) returns (g: seq<octet>, o: seq<octet>, tail: seq<octet>)
    requires |x| % 3 == 0 && x != []
    ensures |g| == 4 && g[0] != NUL && Octets(g[0], g[1], g[2], g[3]) == o
    ensures |tail| % 3 == 0 && |tail| < |x| && x == o + tail && Encoded(x) == g + Encoded(tail)
    ensures if tail == [] then Encoded(tail) == [] else Encoded(tail) != [] && Encoded(tail)[0] != CR
  {
    EncodedStep(x);
    g, o, tail := Group(x[0], At(x, 1), At(x, 2), 3), x[..3], x[3..];
    GroupDecodes(x[0], At(x, 1), At(x, 2), 3);
    if tail != [] {
      EncodedShows(tail, 0);
    }
  }

  /** Ending a line after a whole group changes nothing: not for one line, hence not for
      any number of them. */
  lemma {:induction false} LinesDoNotMatter(x: seq<octet>, end: seq<octet>, y: seq<octet>)
    requires |x| % 3 == 0 && x != [] && Decoded(end) == Some(y)
    ensures Decoded(Encoded(x) + ([CR, LF] + end)) == Some(x + y)
    decreases |x|
  {
    hide Decoded, Encoded, Octets;
    var g, o, tail := FirstGroup(x);
    var rest := [CR, LF] + end;
    var after := Encoded(tail) + rest;
    assert Encoded(x) + rest == g + after;
    DecodedStep(g, after);
    if tail == [] {
      BreakIsSkipped(after, end);
      assert x == o;
    } else {
      LinesDoNotMatter(tail, end, y);
      assert o + (tail + y) == x + y;
    }
  }

  lemma {:induction false} BreakIsSkipped(s: seq<octet>, end: seq<octet>)
    requires s == [CR, LF] + end
    ensures SkipBreak(s) == end
  {}

  // ----- The code -----

  /** strlen of what starts the buffer. */
  method StrLen(buf: array<octet>, ghost n: nat) returns (len: nat)
    requires n < buf.Length && buf[n] == NUL && forall i :: 0 <= i < n ==> buf[i] != NUL
    ensures len == n
  {
    len := 0;
    while buf[len] != NUL
      invariant len <= n
      decreases n - len
    {
      len := len + 1;
    }
  }

  /** Four characters, written one by one. */
  method PutFour(buf: array<octet>, p: nat, c1: octet, c2: octet, c3: octet, c4: octet)
    requires p + 4 <= buf.Length
    modifies buf
    ensures buf[..p] == old(buf[..p]) && buf[p..p + 4] == [c1, c2, c3, c4]
  {
    buf[p], buf[p + 1], buf[p + 2], buf[p + 3] := c1, c2, c3, c4;
  }

  /** One round of encoding: up to three octets become four characters. */
  method EncodeGroup(outputBuf: array<octet>, p: nat, inputBuf: seq<octet>, start: nat) returns (count: nat)
    requires start < |inputBuf| && p + 4 <= outputBuf.Length
    modifies outputBuf
    ensures start < count <= |inputBuf|
    ensures Encoded(inputBuf[start..]) == outputBuf[p..p + 4] + Encoded(inputBuf[count..])
    ensures outputBuf[..p] == old(outputBuf[..p])
  {
    hide Encoded, Sextet, Word, Basis, Sextet1, Sextet2, Sextet3, Sextet4;
    ghost var left := inputBuf[start..];
    EncodedStep(left);
    ghost var g := Group(left[0], At(left, 1), At(left, 2), if |left| < 3 then |left| else 3);
    GroupAsCoded(left[0], At(left, 1), At(left, 2));
    var c1, c2, c3: octet := inputBuf[start], 0, 0;
    count := start + 1;
    if count == |inputBuf| {
      PutFour(outputBuf, p, Basis(Sextet1(c1)), Basis(Sextet2(c1, c2)), PAD, PAD);
    } else {
      c2 := inputBuf[count];
      count := count + 1;
      if count == |inputBuf| {
        PutFour(outputBuf, p, Basis(Sextet1(c1)), Basis(Sextet2(c1, c2)), Basis(Sextet3(c2, c3)), PAD);
      } else {
        c3 := inputBuf[count];
        count := count + 1;
        PutFour(outputBuf, p, Basis(Sextet1(c1)), Basis(Sextet2(c1, c2)), Basis(Sextet3(c2, c3)), Basis(Sextet4(c3)));
      }
    }
    assert inputBuf[count..] == left[count - start..];
    assert outputBuf[p..p + 4] == g;
  }

  method Encode(outputBuf: array<octet>, inputBuf: seq<octet>) returns (outputLen: nat)
    requires (|inputBuf| + 2) / 3 * 4 < outputBuf.Length
    modifies outputBuf
    ensures outputLen == (|inputBuf| + 2) / 3 * 4
    ensures outputBuf[..outputLen] == Encoded(inputBuf) && outputBuf[outputLen] == NUL
  {
    hide Encoded;
    var count, p := 0, 0;
    ghost var all := Encoded(inputBuf);
    assert inputBuf[0..] == inputBuf;
    while count < |inputBuf|
      invariant 0 <= count <= |inputBuf| && 0 <= p && p + |Encoded(inputBuf[count..])| == |all|
      invariant all == outputBuf[..p] + Encoded(inputBuf[count..])
    {
      count := EncodeGroup(outputBuf, p, inputBuf, count);
      assert outputBuf[..p + 4] == outputBuf[..p] + outputBuf[p..p + 4];
      p := p + 4;
    }
    outputBuf[p] := NUL;
    assert outputBuf[..p] == all;
    forall i | 0 <= i < p ensures outputBuf[i] != NUL {
      EncodedShows(inputBuf, i);
      assert outputBuf[i] == all[i];
    }
    outputLen := StrLen(outputBuf, p);
  }

  /** What has been decoded, in front of the rest. */
  function Joined(done: seq<octet>, d: Option<seq<octet>>): Option<seq<octet>> {
    match d
    case None => None
    case Some(more) => Some(done + more)
  }

  lemma {:induction false} JoinedMore(done: seq<octet>, o: seq<octet>, d: Option<seq<octet>>)
    ensures Joined(done, Joined(o, d)) == Joined(done + o, d)
    ensures Joined([], d) == d && Joined(done, Some([])) == Some(done)
  {
    if d.Some? {
      assert done + (o + d.value) == done + o + d.value && [] + d.value == d.value;
    }
    assert done + [] == done;
  }

  /** One round of decoding: four characters become up to three octets. */
  method DecodeGroup(outputBuf: array<octet>, start: nat, c1: octet, c2: octet, c3: octet, c4: octet)
    returns (count: nat)
    requires start + |Octets(c1, c2, c3, c4)| <= outputBuf.Length
    modifies outputBuf
    ensures count == start + |Octets(c1, c2, c3, c4)|
    ensures outputBuf[..count] == old(outputBuf[..start]) + Octets(c1, c2, c3, c4)
  {
    hide First, Second, Third, Char64;
    var s1, s2 := Char64(c1), Char64(c2);
    outputBuf[start] := First(s1, s2);
    count := start + 1;
    if c3 != PAD {
      var s3 := Char64(c3);
      outputBuf[count] := Second(s2, s3);
      count := count + 1;
      if c4 != PAD {
        var s4 := Char64(c4);
        outputBuf[count] := Third(s3, s4);
        count := count + 1;
      }
    }
  }

  /** Steps over the end of a line; not ok at the end of the input. */
  method NextLine(inputBuf: seq<octet>, start: nat) returns (ok: bool, p: nat)
    requires start <= |inputBuf|
    ensures start <= p <= |inputBuf| && inputBuf[p..] == SkipBreak(inputBuf[start..])
    ensures ok <==> p < |inputBuf|
  {
    p := start;
    if p < |inputBuf| && inputBuf[p] == CR {
      p := p + 1;
      if p < |inputBuf| && inputBuf[p] == LF {
        p := p + 1;
      }
    }
    ok := p < |inputBuf|;
  }

  /** Not ok: reading leaves the input before a NUL. */
  method Decode(outputBuf: array<octet>, inputBuf: seq<octet>) returns (ok: bool, outputLen: nat)
    requires Written(inputBuf) <= outputBuf.Length
    modifies outputBuf
    ensures ok <==> Decoded(inputBuf).Some?
    ensures ok ==> outputLen == Written(inputBuf) && Decoded(inputBuf) == Some(outputBuf[..outputLen])
  {
    hide Octets, SkipBreak, Joined;
    var count, p := 0, 0;
    ghost var all := Decoded(inputBuf);
    if p == |inputBuf| {
      return false, 0;
    }
    assert inputBuf[0..] == inputBuf && outputBuf[..0] == [];
    JoinedMore([], [], all);
    while inputBuf[p] != NUL
      invariant 0 <= p < |inputBuf| && 0 <= count && count + Written(inputBuf[p..]) <= outputBuf.Length
      invariant all == Joined(outputBuf[..count], Decoded(inputBuf[p..]))
      decreases |inputBuf| - p
    {
      ghost var done, left := outputBuf[..count], inputBuf[p..];
      if p + 4 > |inputBuf| {
        JoinedNone(done);
        return false, 0;
      }
      var c1, c2, c3, c4 := inputBuf[p], inputBuf[p + 1], inputBuf[p + 2], inputBuf[p + 3];
      DecodedJoins(left);
      JoinedMore(done, Octets(c1, c2, c3, c4), Decoded(SkipBreak(left[4..])));
      JoinedNone(done + Octets(c1, c2, c3, c4));
      assert left[4..] == inputBuf[p + 4..];
      WrittenMore(left);
      hide Decoded, Written;
      count := DecodeGroup(outputBuf, count, c1, c2, c3, c4);
      var more;
      more, p := NextLine(inputBuf, p + 4);
      if !more {
        DecodedNothing(inputBuf[p..]);
        return false, 0;
      }
    }
    JoinedMore(outputBuf[..count], [], None);
    WrittenIsDecoded(inputBuf);
    return true, count;
  }

  lemma {:induction false} JoinedNone(done: seq<octet>)
    ensures Joined(done, None) == None
  {}

  lemma {:induction false} WrittenMore(s: seq<octet>)
    requires |s| >= 4 && s[0] != NUL
    ensures Written(s) == |Octets(s[0], s[1], s[2], s[3])| + Written(SkipBreak(s[4..]))
  {}

  lemma {:induction false} DecodedNothing(s: seq<octet>)
    requires |s| == 0
    ensures Decoded(s) == None
  {}

  lemma {:induction false} DecodedJoins(s: seq<octet>)
    requires |s| >= 4 && s[0] != NUL
    ensures Decoded(s) == Joined(Octets(s[0], s[1], s[2], s[3]), Decoded(SkipBreak(s[4..])))
  {}
}
