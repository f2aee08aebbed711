/** XXH64: the hash of a message fed in pieces is the hash of the whole message. */
module XxHash64 {
  import opened NumberTheory
  import opened Words
  import opened Blocks

  // ---------- Mixing ----------

  const PRIME1: bv64 := 0x9E3779B185EBCA87
  const PRIME2: bv64 := 0xC2B2AE3D27D4EB4F
  const PRIME3: bv64 := 0x165667B19E3779F9
  const PRIME4: bv64 := 0x85EBCA77C2B2AE63
  const PRIME5: bv64 := 0x27D4EB2F165667C5

  datatype Lanes = Lanes(v0: bv64, v1: bv64, v2: bv64, v3: bv64)

  /** Eight bytes in little-endian order. */
  function Read(s: seq<byte>, at: nat): bv64
    requires at + 8 <= |s|
  {
    Read4(s, at) | (Read4(s, at + 4) << 32)
  }

  function Read4(s: seq<byte>, at: nat): bv64
    requires at + 4 <= |s|
  {
    s[at] as bv64 | (s[at + 1] as bv64 << 8) | (s[at + 2] as bv64 << 16) | (s[at + 3] as bv64 << 24)
  }

  /** Byte `i` of the word is byte `at + i` of the input. */
  lemma ReadBytes(s: seq<byte>, at: nat)
    requires at + 4 <= |s|
    ensures Read4(s, at) & 0xff == s[at] as bv64
    ensures (Read4(s, at) >> 8) & 0xff == s[at + 1] as bv64
    ensures (Read4(s, at) >> 16) & 0xff == s[at + 2] as bv64
    ensures Read4(s, at) >> 24 == s[at + 3] as bv64
  {
  }

  /** The low half of a long word is the short word at the same place, the high half the next one. */
  lemma ReadHalves(s: seq<byte>, at: nat)
    requires at + 8 <= |s|
    ensures Read(s, at) & 0xffff_ffff == Read4(s, at)
    ensures Read(s, at) >> 32 == Read4(s, at + 4)
  {
  }

  function Round(acc: bv64, input: bv64): bv64
  {
    (acc + input * PRIME2).RotateLeft(31) * PRIME1
  }

  function MergeRound(acc: bv64, val: bv64): bv64
  {
    (acc ^ Round(0, val)) * PRIME1 + PRIME4
  }

  /** The four lanes over one block. */
  function Step(v: Lanes, block: seq<byte>): Lanes
  {
    if |block| != 32 then v
    else Lanes(Round(v.v0, Read(block, 0)), Round(v.v1, Read(block, 8)),
               Round(v.v2, Read(block, 16)), Round(v.v3, Read(block, 24)))
  }

  function Start(seed: bv64): Lanes
  {
    Lanes(seed + PRIME1 + PRIME2, seed + PRIME2, seed, seed - PRIME1)
  }

  function Merge(v: Lanes): bv64
  {
    var h := v.v0.RotateLeft(1) + v.v1.RotateLeft(7) + v.v2.RotateLeft(12) + v.v3.RotateLeft(18);
    MergeRound(MergeRound(MergeRound(MergeRound(h, v.v0), v.v1), v.v2), v.v3)
  }

  function Avalanche(hash: bv64): bv64
  {
    var hash := (hash ^ (hash >> 33)) * PRIME2;
    var hash := (hash ^ (hash >> 29)) * PRIME3;
    hash ^ (hash >> 32)
  }

  function Mix8(hash: bv64, word: bv64): bv64
  {
    (hash ^ Round(0, word)).RotateLeft(27) * PRIME1 + PRIME4
  }

  function Mix4(hash: bv64, word: bv64): bv64
  {
    (hash ^ (word * PRIME1)).RotateLeft(23) * PRIME2 + PRIME3
  }

  function Mix1(hash: bv64, b: byte): bv64 { (hash ^ (b as bv64 * PRIME5)).RotateLeft(11) * PRIME1 }

  // ---------- The hash of a message ----------

  /** The bytes after the last block: long words, at most one short word, then single bytes. */
  function Finish(hash: bv64, s: seq<byte>): bv64
    decreases |s|
  {
    if |s| >= 8 then Finish(Mix8(hash, Read(s, 0)), s[8..])
    else if |s| >= 4 then Finish(Mix4(hash, Read4(s, 0)), s[4..])
    else if |s| > 0 then Finish(Mix1(hash, s[0]), s[1..])
    else Avalanche(hash)
  }

  function AddLength(hash: bv64, n: u64): bv64 { hash + n as bv64 }

  function SmallStart(seed: bv64): bv64 { seed + PRIME5 }

  /** The lanes as they are after a message. */
  function LanesAfter(seed: bv64, s: seq<byte>): Lanes { Fold(Step, 32, Start(seed), s) }

  /** XXH64 of a whole message. */
  function Hash(seed: bv64, s: seq<byte>): bv64
  {
    var h := if |s| >= 32 then Merge(LanesAfter(seed, s)) else SmallStart(seed);
    Finish(AddLength(h, |s| % W64), Tail(s, 32))
  }

  /** Whether a 64-bit length tells if a message has a full block. */
  predicate Counted(s: seq<byte>) { |s| < W64 || |s| % W64 >= 32 }

  /** What streaming gives for any other message: the third lane is taken for the seed. */
  function WrappedHash(seed: bv64, s: seq<byte>): bv64
  {
    Finish(AddLength(SmallStart(LanesAfter(seed, s).v2), |s| % W64), Tail(s, 32))
  }

  /** `XXH64_finalize` */
  method Finalize(hash: bv64, s: seq<byte>, len: nat) returns (h: bv64)
    requires len % 32 <= |s|
    ensures h == Finish(hash, s[..len % 32])
  {
    hide Read, Read4, Mix8, Mix4, Mix1, Avalanche;
    var left: nat, at: nat := len % 32, 0;
    ghost var tail := s[..len % 32];
    h := hash;
    assert tail[0..] == tail;
    while left >= 8
      invariant 0 <= at && at + left == |tail|
      invariant Finish(h, tail[at..]) == Finish(hash, tail)
    {
      TailRead(s, tail, at);
      h := Mix8(h, Read(s, at));
      at, left := at + 8, left - 8;
    }
    if left >= 4 {
      TailRead4(s, tail, at);
      h := Mix4(h, Read4(s, at));
      at, left := at + 4, left - 4;
    }
    while left > 0
      invariant 0 <= left < 4 && at + left == |tail|
      invariant Finish(h, tail[at..]) == Finish(hash, tail)
    {
      h := Mix1(h, s[at]);
      assert tail[at..][1..] == tail[at + 1..];
      at, left := at + 1, left - 1;
    }
    h := Avalanche(h);
  }

  lemma TailRead(s: seq<byte>, tail: seq<byte>, at: nat)
    requires tail <= s && at + 8 <= |tail|
    ensures Read(s, at) == Read(tail[at..], 0) && tail[at..][8..] == tail[at + 8..]
  {
    hide Read4;
    SameRead4(s, at, tail[at..], 0);
    SameRead4(s, at + 4, tail[at..], 4);
  }

  lemma TailRead4(s: seq<byte>, tail: seq<byte>, at: nat)
    requires tail <= s && at + 4 <= |tail|
    ensures Read4(s, at) == Read4(tail[at..], 0) && tail[at..][4..] == tail[at + 4..]
  {
    hide Read4;
    SameRead4(s, at, tail[at..], 0);
  }

  lemma SameRead4(s: seq<byte>, at: nat, t: seq<byte>, from: nat)
    requires at + 4 <= |s| && from + 4 <= |t|
    requires s[at] == t[from] && s[at + 1] == t[from + 1]
    requires s[at + 2] == t[from + 2] && s[at + 3] == t[from + 3]
    ensures Read4(s, at) == Read4(t, from)
  {
  }

  /** `XXH64_endian_align` */
  method OneShot(input: seq<byte>, seed: bv64) returns (h: bv64)
    ensures h == Hash(seed, input)
  {
    hide Step, Start, Merge, Finish, Fold, Tail, AddLength, SmallStart;
    var at := 0;
    if |input| >= 32 {
      var v := Start(seed);
      assert input[0..] == input;
      while at < |input| - 31
        invariant at <= |input|
        invariant Fold(Step, 32, v, input[at..]) == LanesAfter(seed, input)
        invariant Tail(input[at..], 32) == Tail(input, 32)
      {
        FoldFirst(Step, 32, v, input[at..]);
        BlockAt(input, at, 32);
        v := Step(v, input[at..at + 32]);
        at := at + 32;
      }
      FoldShort(Step, 32, v, input[at..]);
      h := Merge(v);
    } else {
      FoldShort(Step, 32, Start(seed), input);
      h := SmallStart(seed);
    }
    h := AddLength(h, |input| % W64);
    TailLength(input, 32);
    ghost var tail := input[at..];
    assert tail == Tail(input, 32) && tail[..|tail|] == tail;
    h := Finalize(h, input[at..], |input|);
  }

  // ---------- Streaming ----------

  class State {
    const buffer: Buffer<Lanes, byte>
    var totalLen: u64
    ghost const seed: bv64

    /** The lanes and the buffer are those of the message so far. */
    ghost predicate Valid()
      reads this, buffer, buffer.mem
    {
      && buffer.Valid() && buffer.width == 32 && buffer.step == Step && buffer.start == Start(seed)
      && totalLen == |buffer.message| % W64
    }

    constructor (seed: bv64)
      ensures Valid() && fresh(buffer) && fresh(buffer.mem) && buffer.message == [] && this.seed == seed
    {
      hide Step, Start;
      buffer := new Buffer(32, Step, Start(seed));
      totalLen := 0;
      this.seed := seed;
    }

    /** `XXH64_update` */
    method Update(input: seq<byte>)
      requires Valid()
      modifies this, buffer, buffer.mem
      ensures Valid() && buffer.message == old(buffer.message) + input
    {
      hide Step, Start, Fold, Buffer.Valid;
      CountWraps(|buffer.message|, |input|, W64);
      totalLen := (totalLen + |input|) % W64;
      buffer.Feed(input);
    }

    /** `XXH64_digest`: it takes the length for a short one also when it has wrapped to less than 32. */
    method Digest() returns (h: bv64)
      requires Valid()
      ensures Counted(buffer.message) ==> h == Hash(seed, buffer.message)
      ensures !Counted(buffer.message) ==> h == WrappedHash(seed, buffer.message)
    {
      hide Step, Start, Merge, Finish, Fold, Tail, AddLength, SmallStart;
      LengthLeft(|buffer.message|);
      h := if totalLen >= 32 then Merge(buffer.v) else SmallStart(buffer.v.v2);
      if |buffer.message| < 32 {
        ShortLanes(seed, buffer.message);
      }
      h := AddLength(h, totalLen);
      TailLength(buffer.message, 32);
      assert buffer.mem[..][..buffer.memSize] == buffer.mem[..buffer.memSize];
      h := Finalize(h, buffer.mem[..], totalLen);
    }
  }

  /** What the wrapped length still tells. */
  lemma LengthLeft(n: nat)
    ensures n % W64 % 32 == n % 32 && (n < W64 ==> n % W64 == n)
  {
    var k := n % W64;
    ModUnique(n, n / W64 * 0x800_0000_0000_0000 + k / 32, k % 32, 32);
    if n < W64 {
      ModUnique(n, 0, n, W64);
    }
  }

  lemma ShortLanes(seed: bv64, s: seq<byte>)
    requires |s| < 32
    ensures LanesAfter(seed, s).v2 == seed
  {
    hide Step;
  }

  /** However a message is cut up, streaming it gives its hash. */
  method Stream(chunks: seq<seq<byte>>, seed: bv64) returns (h: bv64)
    ensures h == if Counted(Concat(chunks)) then Hash(seed, Concat(chunks)) else WrappedHash(seed, Concat(chunks))
  {
    hide Hash, WrappedHash, Counted, State.Valid;
    var state := new State(seed);
    assert chunks[..0] == [];
    for i := 0 to |chunks|
      invariant state.Valid() && fresh(state) && fresh(state.buffer) && fresh(state.buffer.mem)
      invariant state.seed == seed && state.buffer.message == Concat(chunks[..i])
    {
      assert chunks[..i + 1] == chunks[..i] + [chunks[i]];
      ConcatSnoc(chunks[..i], chunks[i]);
      state.Update(chunks[i]);
    }
    assert chunks[..|chunks|] == chunks;
    h := state.Digest();
  }

  // ---------- Known values ----------

  /** The text "Nobody inspects the spammish repetition": a block, a short word and three bytes. */
  const BLOCK: seq<byte> := [0x4e, 0x6f, 0x62, 0x6f, 0x64, 0x79, 0x20, 0x69, 0x6e, 0x73, 0x70, 0x65, 0x63, 0x74, 0x73, 0x20,
                             0x74, 0x68, 0x65, 0x20, 0x73, 0x70, 0x61, 0x6d, 0x6d, 0x69, 0x73, 0x68, 0x20, 0x72, 0x65, 0x70]
  const REST: seq<byte> := [0x65, 0x74, 0x69, 0x74, 0x69, 0x6f, 0x6e]

  lemma FinishStep(h: bv64, s: seq<byte>)
    ensures s == [] ==> Finish(h, s) == Avalanche(h)
    ensures 0 < |s| < 4 ==> Finish(h, s) == Finish(Mix1(h, s[0]), s[1..])
    ensures 4 <= |s| < 8 ==> Finish(h, s) == Finish(Mix4(h, Read4(s, 0)), s[4..])
    ensures |s| >= 8 ==> Finish(h, s) == Finish(Mix8(h, Read(s, 0)), s[8..])
  {
  }

  /** The bytes after the block. */
  lemma EndingWith(h: bv64)
    ensures Finish(h, REST) == Avalanche(Mix1(Mix1(Mix1(Mix4(h, 0x74697465), 0x69), 0x6f), 0x6e))
  {
    hide Finish, Mix4, Mix1, Avalanche;
    RestParts();
    FinishStep(h, REST);
    ThreeBytes(Mix4(h, 0x74697465), 0x69, 0x6f, 0x6e);
  }

  lemma RestParts()
    ensures REST[4..] == [0x69, 0x6f, 0x6e] && Read4(REST, 0) == 0x74697465
  {
  }

  lemma ThreeBytes(h: bv64, a: byte, b: byte, c: byte)
    ensures Finish(h, [a, b, c]) == Avalanche(Mix1(Mix1(Mix1(h, a), b), c))
  {
    hide Finish, Mix1, Avalanche;
    assert [a, b, c][1..] == [b, c] && [b, c][1..] == [c] && [c][1..] == [];
    FinishStep(h, [a, b, c]);
    FinishStep(Mix1(h, a), [b, c]);
    FinishStep(Mix1(Mix1(h, a), b), [c]);
    FinishStep(Mix1(Mix1(Mix1(h, a), b), c), []);
  }

  lemma OneBlock(v: Lanes)
    ensures |BLOCK + REST| == 39
    ensures Fold(Step, 32, v, BLOCK + REST) == Step(v, BLOCK) && Tail(BLOCK + REST, 32) == REST
  {
    hide Step, Fold, Tail;
    var s := BLOCK + REST;
    assert s[..32] == BLOCK && s[32..] == REST;
    FoldFirst(Step, 32, v, s);
    FoldShort(Step, 32, Step(v, BLOCK), REST);
  }

  lemma BlockWords()
    ensures Read(BLOCK, 0) == 0x692079646f626f4e && Read(BLOCK, 8) == 0x207374636570736e
    ensures Read(BLOCK, 16) == 0x6d61707320656874 && Read(BLOCK, 24) == 0x706572206873696d
  {
    hide Read4;
    LowerWords();
    MiddleWords();
    UpperWords();
  }

  lemma LowerWords()
    ensures Read4(BLOCK, 0) == 0x6f626f4e && Read4(BLOCK, 4) == 0x69207964
  {
  }

  lemma MiddleWords()
    ensures Read4(BLOCK, 8) == 0x6570736e && Read4(BLOCK, 12) == 0x20737463
  {
  }

  lemma UpperWords()
    ensures Read4(BLOCK, 16) == 0x20656874 && Read4(BLOCK, 20) == 0x6d617073
    ensures Read4(BLOCK, 24) == 0x6873696d && Read4(BLOCK, 28) == 0x70657220
  {
  }

  lemma BlockZero()
    ensures Step(Start(0x0), BLOCK) == Lanes(0x37245127a4067e4b, 0x1b302b0a818f92cf, 0xcd62d843d0580fca, 0x1c16e43ef2142a4a)
  {
    hide Read;
    BlockWords();
  }

  lemma MergedZero()
    ensures Merge(Lanes(0x37245127a4067e4b, 0x1b302b0a818f92cf, 0xcd62d843d0580fca, 0x1c16e43ef2142a4a)) + 39 == 0x84f22c421a11a8dc
  {
  }

  lemma EndingZero()
    ensures Finish(0x84f22c421a11a8dc, REST) == 0xfbcea83c8a378bf1
  {
    hide Finish;
    EndingWith(0x84f22c421a11a8dc);
  }

  /** Its hash with seed 0x0. */
  lemma KnownZero()
    ensures Hash(0x0, BLOCK + REST) == 0xfbcea83c8a378bf1
  {
    hide Step, Start, Merge, Finish, Fold, Tail;
    BlockZero();
    OneBlock(Start(0x0));
    MergedZero();
    EndingZero();
  }

  lemma BlockSeeded()
    ensures Step(Start(0x9e3779b185ebca8d), BLOCK) == Lanes(0x5b6cde4356dd4eba, 0x3f78b8263466633e, 0x1669d0f17d4315b2, 0x405f715aa4eafab9)
  {
    hide Read;
    BlockWords();
  }

  lemma MergedSeeded()
    ensures Merge(Lanes(0x5b6cde4356dd4eba, 0x3f78b8263466633e, 0x1669d0f17d4315b2, 0x405f715aa4eafab9)) + 39 == 0xe6f4d2c6a1489da4
  {
  }

  lemma EndingSeeded()
    ensures Finish(0xe6f4d2c6a1489da4, REST) == 0xd91f66cd4a62534e
  {
    hide Finish;
    EndingWith(0xe6f4d2c6a1489da4);
  }

  /** Its hash with seed 0x9e3779b185ebca8d. */
  lemma KnownSeeded()
    ensures Hash(0x9e3779b185ebca8d, BLOCK + REST) == 0xd91f66cd4a62534e
  {
    hide Step, Start, Merge, Finish, Fold, Tail;
    BlockSeeded();
    OneBlock(Start(0x9e3779b185ebca8d));
    MergedSeeded();
    EndingSeeded();
  }

  /** A message of exactly one block, and one of less, with a long word, a short one and three bytes. */
  lemma KnownBlock()
    ensures Hash(0, BLOCK) == 0x96f5bfcbfe7f0d1a
  {
    hide Step, Start, Fold, Tail, Merge, Finish;
    BlockZero();
    assert BLOCK[..32] == BLOCK && BLOCK[32..] == [];
    FoldFirst(Step, 32, Start(0), BLOCK);
    FoldShort(Step, 32, Lanes(0x37245127a4067e4b, 0x1b302b0a818f92cf, 0xcd62d843d0580fca, 0x1c16e43ef2142a4a), []);
    MergedAlone();
    EndingAlone();
  }

  lemma MergedAlone()
    ensures Merge(Lanes(0x37245127a4067e4b, 0x1b302b0a818f92cf, 0xcd62d843d0580fca, 0x1c16e43ef2142a4a)) + 32 == 0x84f22c421a11a8d5
  {
  }

  lemma EndingAlone()
    ensures Finish(0x84f22c421a11a8d5, []) == 0x96f5bfcbfe7f0d1a
  {
  }

  const SHORT: seq<byte> := [0x61, 0x62, 0x63, 0x64, 0x65, 0x66, 0x67, 0x68, 0x69, 0x6a, 0x6b, 0x6c, 0x6d, 0x6e, 0x6f]

  lemma KnownShort()
    ensures Hash(1, SHORT) == 0x6847bbcbf5dce993
  {
    hide Step, Start, Merge, Finish, Mix8, Mix4, Mix1, Avalanche;
    FoldShort(Step, 32, Start(1), SHORT);
    ShortParts();
    var h := AddLength(SmallStart(1), 15);
    FinishStep(h, SHORT);
    FinishStep(Mix8(h, 0x6867666564636261), SHORT[8..]);
    ThreeBytes(Mix4(Mix8(h, 0x6867666564636261), 0x6c6b6a69), 0x6d, 0x6e, 0x6f);
    ShortMixes();
  }

  lemma ShortParts()
    ensures |SHORT| == 15 && Read(SHORT, 0) == 0x6867666564636261 && |SHORT[8..]| == 7
    ensures Read4(SHORT[8..], 0) == 0x6c6b6a69 && SHORT[8..][4..] == [0x6d, 0x6e, 0x6f]
  {
  }

  lemma ShortMixes()
    ensures Avalanche(Mix1(Mix1(Mix1(Mix4(Mix8(AddLength(SmallStart(1), 15), 0x6867666564636261), 0x6c6b6a69), 0x6d), 0x6e), 0x6f)) ==
      0x6847bbcbf5dce993
  {
    hide Mix8, Mix4, Mix1, Avalanche, AddLength, SmallStart;
    WordMixes();
    ByteMixes();
  }

  lemma WordMixes()
    ensures AddLength(SmallStart(1), 15) == 0x27d4eb2f165667d5 && Mix8(0x27d4eb2f165667d5, 0x6867666564636261) == 0x7ca8c037d65ad1df
    ensures Mix4(0x7ca8c037d65ad1df, 0x6c6b6a69) == 0x9228bec0f778b49a
  {
  }

  lemma ByteMixes()
    ensures Mix1(0x9228bec0f778b49a, 0x6d) == 0x8e0527d512c9f4a4 && Mix1(0x8e0527d512c9f4a4, 0x6e) == 0x8f5b541db7062bbd && Mix1(0x8f5b541db7062bbd, 0x6f) == 0x7a35fbcacd6d4430
    ensures Avalanche(0x7a35fbcacd6d4430) == 0x6847bbcbf5dce993
  {
  }
}
