/** What the G.726 codecs of libmedia share: a coder that carries a state, fed sample by
    sample.  The coder itself is a parameter. */
module G726Coding {

  type Sample = x: int | -0x8000 <= x < 0x8000

  /** Feeds xs through a coder that carries a state. */
  function Run<S, A, B>(f: (S, A) -> (S, B), s: S, xs: seq<A>): (r: (S, seq<B>))
    ensures |r.1| == |xs|
  {
    if xs == [] then (s, []) else
      var n := |xs| - 1;
      var before := Run(f, s, xs[..n]);
      var now := f(before.0, xs[n]);
      (now.0, before.1 + [now.1])
  }

  lemma {:induction false} RunStep<S, A, B>(f: (S, A) -> (S, B), s: S, xs: seq<A>, i: nat)
    requires i < |xs|
    ensures var (s', ys) := Run(f, s, xs[..i]);
      Run(f, s, xs[..i + 1]) == (f(s', xs[i]).0, ys + [f(s', xs[i]).1])
  {
    assert xs[..i + 1][..i] == xs[..i];
  }

  /** The state after the first i inputs, and the outputs so far. */
  ghost predicate Ran<S(!new), A, B>(f: (S, A) -> (S, B), start: S, xs: seq<A>, i: nat, s: S, ys: seq<B>) {
    i <= |xs| && Run(f, start, xs[..i]) == (s, ys)
  }

  lemma {:induction false} RanNone<S(!new), A, B>(f: (S, A) -> (S, B), start: S, xs: seq<A>)
    ensures Ran(f, start, xs, 0, start, [])
  {}

  lemma {:induction false} EightMore<A>(xs: seq<A>, a: A, b: A, c: A, d: A, e: A, f: A, g: A, h: A)
    ensures xs + [a] + [b] + [c] + [d] + [e] + [f] + [g] + [h] == xs + [a, b, c, d, e, f, g, h]
  {}

  lemma {:induction false} RanAll<S(!new), A, B>(f: (S, A) -> (S, B), start: S, xs: seq<A>, s: S, ys: seq<B>)
    requires Ran(f, start, xs, |xs|, s, ys)
    ensures Run(f, start, xs) == (s, ys)
  {
    assert xs[..|xs|] == xs;
  }

  lemma {:induction false} SliceOfSum<A>(x: seq<A>, y: seq<A>, i: nat, n: nat)
    ensures i + n <= |x| ==> (x + y)[i..i + n] == x[i..i + n]
    ensures i == |x| && n == |y| ==> (x + y)[i..i + n] == y
  {}

  method Put<A>(buf: array<A>, j: nat, xs: seq<A>)
    requires j + |xs| <= buf.Length
    modifies buf
    ensures buf[..j + |xs|] == old(buf[..j]) + xs
    ensures forall m :: j + |xs| <= m < buf.Length ==> buf[m] == old(buf[m])
  {
    for k := 0 to |xs|
      invariant buf[..j + k] == old(buf[..j]) + xs[..k]
      invariant forall m :: j + k <= m < buf.Length ==> buf[m] == old(buf[m])
    {
      buf[j + k] := xs[k];
    }
  }
}
