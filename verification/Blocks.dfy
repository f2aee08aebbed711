/** Messages read in blocks of a fixed width: what every streaming hash here does. */
module Blocks {
  import opened NumberTheory

  /** The state after the full blocks of `s`. */
  function Fold<S, B>(step: (S, seq<B>) -> S, w: nat, v: S, s: seq<B>): S
    requires w > 0
    decreases |s|
  {
    if |s| < w then v else Fold(step, w, step(v, s[..w]), s[w..])
  }

  /** The bytes after the last full block. */
  function Tail<B>(s: seq<B>, w: nat): (t: seq<B>)
    requires w > 0
    ensures |t| < w && |t| <= |s|
    decreases |s|
  {
    if |s| < w then s else Tail(s[w..], w)
  }

  lemma {:induction false} TailLength<B>(s: seq<B>, w: nat)
    requires w > 0
    ensures |Tail(s, w)| == |s| % w && Tail(s, w) == s[|s| - |Tail(s, w)|..]
    decreases |s|
  {
    RemainderStep(|s|, w);
    if |s| >= w {
      TailLength(s[w..], w);
    }
  }

  lemma RemainderStep(n: nat, w: nat)
    requires w > 0
    ensures n < w ==> n % w == n
    ensures n >= w ==> n % w == (n - w) % w
  {
    if n < w {
      ModUnique(n, 0, n, w);
    } else {
      ModUnique(n, (n - w) / w + 1, (n - w) % w, w);
    }
  }

  /** Reading on from any point: the bytes left over go in front of what comes next. */
  lemma {:induction false} FoldContinue<S, B>(step: (S, seq<B>) -> S, w: nat, v: S, s: seq<B>, more: seq<B>)
    requires w > 0
    ensures Fold(step, w, v, s + more) == Fold(step, w, Fold(step, w, v, s), Tail(s, w) + more)
    ensures Tail(s + more, w) == Tail(Tail(s, w) + more, w)
    decreases |s|
  {
    if |s| >= w {
      assert (s + more)[..w] == s[..w] && (s + more)[w..] == s[w..] + more;
      FoldContinue(step, w, step(v, s[..w]), s[w..], more);
    }
  }

  /** A message may be cut at any block boundary. */
  lemma FoldAt<S, B>(step: (S, seq<B>) -> S, w: nat, v: S, s: seq<B>, n: nat)
    requires w > 0 && n <= |s| && n % w == 0
    ensures Fold(step, w, v, s) == Fold(step, w, Fold(step, w, v, s[..n]), s[n..])
  {
    hide Fold, Tail;
    TailLength(s[..n], w);
    FoldContinue(step, w, v, s[..n], s[n..]);
    assert s == s[..n] + s[n..] && Tail(s[..n], w) + s[n..] == s[n..];
  }

  /** One block at the front. */
  lemma FoldFirst<S, B>(step: (S, seq<B>) -> S, w: nat, v: S, s: seq<B>)
    requires 0 < w <= |s|
    ensures Fold(step, w, v, s) == Fold(step, w, step(v, s[..w]), s[w..])
    ensures Tail(s, w) == Tail(s[w..], w)
  {
  }

  lemma FoldShort<S, B>(step: (S, seq<B>) -> S, w: nat, v: S, s: seq<B>)
    requires |s| < w
    ensures Fold(step, w, v, s) == v && Tail(s, w) == s
  {
  }

  lemma BlockAt<B>(s: seq<B>, at: nat, w: nat)
    requires at + w <= |s|
    ensures s[at..][..w] == s[at..at + w] && s[at..][w..] == s[at + w..]
  {
  }

  function Concat<B>(chunks: seq<seq<B>>): seq<B>
  {
    if chunks == [] then [] else chunks[0] + Concat(chunks[1..])
  }

  /** The chunk at the end. */
  lemma {:induction false} ConcatSnoc<B>(chunks: seq<seq<B>>, more: seq<B>)
    ensures Concat(chunks + [more]) == Concat(chunks) + more
  {
    if chunks == [] {
      assert chunks + [more] == [more];
    } else {
      ConcatSnoc(chunks[1..], more);
      assert (chunks + [more])[1..] == chunks[1..] + [more];
    }
  }

  /** `memcpy` of `bytes` to offset `at`. */
  method Store<B>(dst: array<B>, at: nat, bytes: seq<B>)
    requires at + |bytes| <= dst.Length
    modifies dst
    ensures dst[at..at + |bytes|] == bytes
    ensures dst[..at] == old(dst[..at]) && dst[at + |bytes|..] == old(dst[at + |bytes|..])
  {
    forall i | 0 <= i < |bytes| {
      dst[at + i] := bytes[i];
    }
  }

  /** The part that block-wise hashes share: the state over the full blocks of the message so far, and a
    * buffer with what no block has taken yet. */
  class Buffer<S, B(0)> {
    const width: nat
    const step: (S, seq<B>) -> S
    var v: S
    const mem: array<B>
    var memSize: nat
    ghost const start: S
    ghost var message: seq<B>

    ghost predicate Valid()
      reads this, mem
    {
      && width > 0 && mem.Length == width
      && memSize == |Tail(message, width)| && mem[..memSize] == Tail(message, width)
      && v == Fold(step, width, start, message)
    }

    constructor (width: nat, step: (S, seq<B>) -> S, start: S)
      requires width > 0
      ensures Valid() && fresh(mem) && message == [] && memSize == 0
      ensures this.width == width && this.step == step && this.start == start
    {
      this.width, this.step, this.start := width, step, start;
      v := start;
      mem := new B[width];
      memSize := 0;
      message := [];
    }

    /** The part of an update between counting and returning. */
    method Feed(input: seq<B>)
      requires Valid()
      modifies this, mem
      ensures Valid() && message == old(message) + input
    {
      hide Fold, Tail;
      ghost var rest := Tail(message, width) + input;
      ghost var target := Fold(step, width, start, message + input);
      FoldContinue(step, width, start, message, input);
      message := message + input;
      if memSize + |input| < width {
        FoldShort(step, width, v, rest);
        Store(mem, memSize, input);
        memSize := memSize + |input|;
        assert mem[..memSize] == rest;
      } else {
        var at := FillBlock(input, rest, target);
        at := FullBlocks(input, at, target);
        FoldShort(step, width, v, input[at..]);
        Keep(input, at);
      }
    }

    /** The buffer is filled up and its block taken; from here on everything is in the input. */
    method FillBlock(input: seq<B>, ghost rest: seq<B>, ghost target: S) returns (at: nat)
      requires mem.Length == width > 0 && memSize < width <= memSize + |input|
      requires rest == mem[..memSize] + input && Fold(step, width, v, rest) == target
      modifies this`v, this`memSize, mem
      ensures at <= |input| && Fold(step, width, v, input[at..]) == target
      ensures Tail(input[at..], width) == Tail(rest, width)
      ensures memSize == 0
    {
      hide Fold, Tail;
      at := 0;
      if memSize > 0 {
        at := width - memSize;
        ghost var kept := mem[..memSize];
        Store(mem, memSize, input[..at]);
        assert mem[..] == mem[..memSize] + mem[memSize..memSize + at];
        assert rest[..width] == kept + input[..at] && rest[width..] == input[at..];
        FoldFirst(step, width, v, rest);
        v := step(v, mem[..]);
        memSize := 0;
      } else {
        assert rest == input[at..];
      }
    }

    /** The blocks that lie in the input. */
    method FullBlocks(input: seq<B>, from: nat, ghost target: S) returns (at: nat)
      requires width > 0 && from <= |input| && Fold(step, width, v, input[from..]) == target
      modifies this`v
      ensures from <= at <= |input| < at + width
      ensures Fold(step, width, v, input[at..]) == target && Tail(input[at..], width) == Tail(input[from..], width)
    {
      hide Fold, Tail;
      at := from;
      while at + width <= |input|
        invariant from <= at <= |input|
        invariant Fold(step, width, v, input[at..]) == target && Tail(input[at..], width) == Tail(input[from..], width)
      {
        FoldFirst(step, width, v, input[at..]);
        BlockAt(input, at, width);
        v := step(v, input[at..at + width]);
        at := at + width;
      }
    }

    /** What no block takes is kept. */
    method Keep(input: seq<B>, at: nat)
      requires mem.Length == width && at <= |input| < at + width && memSize == 0
      modifies this`memSize, mem
      ensures memSize == |input| - at && mem[..memSize] == input[at..]
    {
      if at < |input| {
        Store(mem, 0, input[at..]);
        memSize := |input| - at;
      }
    }
  }
}
