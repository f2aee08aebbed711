/** XXH32: the hash of a message fed in pieces is the hash of the whole message. */
module XxHash32 {
  import opened NumberTheory
  import opened Words
  import opened Blocks

  // ---------- Mixing ----------

  const PRIME1: bv32 := 0x9E3779B1
  const PRIME2: bv32 := 0x85EBCA77
  const PRIME3: bv32 := 0xC2B2AE3D
  const PRIME4: bv32 := 0x27D4EB2F
  const PRIME5: bv32 := 0x165667B1

  datatype Lanes = Lanes(v0: bv32, v1: bv32, v2: bv32, v3: bv32)

  /** Four bytes in little-endian order. */
  function Read(s: seq<byte>, at: nat): bv32
    requires at + 4 <= |s|
  {
    s[at] as bv32 | (s[at + 1] as bv32 << 8) | (s[at + 2] as bv32 << 16) | (s[at + 3] as bv32 << 24)
  }

  /** Byte `i` of the word is byte `at + i` of the input. */
  lemma ReadBytes(s: seq<byte>, at: nat)
    requires at + 4 <= |s|
    ensures Read(s, at) & 0xff == s[at] as bv32
    ensures (Read(s, at) >> 8) & 0xff == s[at + 1] as bv32
    ensures (Read(s, at) >> 16) & 0xff == s[at + 2] as bv32
    ensures Read(s, at) >> 24 == s[at + 3] as bv32
  {
  }

  function Round(acc: bv32, input: bv32): bv32
  {
    (acc + input * PRIME2).RotateLeft(13) * PRIME1
  }

  /** The four lanes over one block. */
  function Step(v: Lanes, block: seq<byte>): Lanes
  {
    if |block| != 16 then v
    else Lanes(Round(v.v0, Read(block, 0)), Round(v.v1, Read(block, 4)),
               Round(v.v2, Read(block, 8)), Round(v.v3, Read(block, 12)))
  }

  function Start(seed: bv32): Lanes
  {
    Lanes(seed + PRIME1 + PRIME2, seed + PRIME2, seed, seed - PRIME1)
  }

  function Merge(v: Lanes): bv32
  {
    v.v0.RotateLeft(1) + v.v1.RotateLeft(7) + v.v2.RotateLeft(12) + v.v3.RotateLeft(18)
  }

  function Avalanche(hash: bv32): bv32
  {
    var hash := (hash ^ (hash >> 15)) * PRIME2;
    var hash := (hash ^ (hash >> 13)) * PRIME3;
    hash ^ (hash >> 16)
  }

  function Mix4(hash: bv32, word: bv32): bv32 { (hash + word * PRIME3).RotateLeft(17) * PRIME4 }

  function Mix1(hash: bv32, b: byte): bv32 { (hash + b as bv32 * PRIME5).RotateLeft(11) * PRIME1 }

  // ---------- The hash of a message ----------

  /** The bytes after the last block: words first, then single bytes. */
  function Finish(hash: bv32, s: seq<byte>): bv32
    decreases |s|
  {
    if |s| >= 4 then Finish(Mix4(hash, Read(s, 0)), s[4..])
    else if |s| > 0 then Finish(Mix1(hash, s[0]), s[1..])
    else Avalanche(hash)
  }

  function AddLength(hash: bv32, n: u32): bv32 { hash + n as bv32 }

  function SmallStart(seed: bv32): bv32 { seed + PRIME5 }

  /** The lanes as they are after a message. */
  function LanesAfter(seed: bv32, s: seq<byte>): Lanes { Fold(Step, 16, Start(seed), s) }

  /** XXH32 of a whole message. */
  function Hash(seed: bv32, s: seq<byte>): bv32
  {
    var h := if |s| >= 16 then Merge(LanesAfter(seed, s)) else SmallStart(seed);
    Finish(AddLength(h, |s| % W32), Tail(s, 16))
  }

  /** `XXH32_finalize`, rolled. */
  method Finalize(hash: bv32, s: seq<byte>, len: nat) returns (h: bv32)
    requires len % 16 <= |s|
    ensures h == Finish(hash, s[..len % 16])
  {
    hide Read, Mix4, Mix1, Avalanche;
    var left: nat, at: nat := len % 16, 0;
    ghost var tail := s[..len % 16];
    h := hash;
    assert tail[0..] == tail;
    while left >= 4
      invariant 0 <= at && at + left == |tail|
      invariant Finish(h, tail[at..]) == Finish(hash, tail)
    {
      TailRead(s, tail, at);
      h := Mix4(h, Read(s, at));
      at, left := at + 4, left - 4;
    }
    while left > 0
      invariant 0 <= left < 4 && at + left == |tail|
      invariant Finish(h, tail[at..]) == Finish(hash, tail)
    {
      h := Mix1(h, s[at]);
      assert tail[at..][1..] == tail[at + 1..];
      at, left := at + 1, left - 1;
    }
    h := Avalanche(h);
  }

  lemma TailRead(s: seq<byte>, tail: seq<byte>, at: nat)
    requires tail <= s && at + 4 <= |tail|
    ensures Read(s, at) == Read(tail[at..], 0) && tail[at..][4..] == tail[at + 4..]
  {
    hide Round;
  }

  /** `XXH32_endian_align` */
  method OneShot(input: seq<byte>, seed: bv32) returns (h: bv32)
    ensures h == Hash(seed, input)
  {
    hide Step, Start, Merge, Finish, Fold, Tail, AddLength, SmallStart;
    var at := 0;
    if |input| >= 16 {
      var v := Start(seed);
      assert input[0..] == input;
      while at < |input| - 15
        invariant at <= |input|
        invariant Fold(Step, 16, v, input[at..]) == LanesAfter(seed, input)
        invariant Tail(input[at..], 16) == Tail(input, 16)
      {
        FoldFirst(Step, 16, v, input[at..]);
        BlockAt(input, at, 16);
        v := Step(v, input[at..at + 16]);
        at := at + 16;
      }
      FoldShort(Step, 16, v, input[at..]);
      h := Merge(v);
    } else {
      FoldShort(Step, 16, Start(seed), input);
      h := SmallStart(seed);
    }
    h := AddLength(h, |input| % W32);
    TailLength(input, 16);
    ghost var tail := input[at..];
    assert tail == Tail(input, 16) && tail[..|tail|] == tail;
    h := Finalize(h, input[at..], |input|);
  }

  // ---------- Streaming ----------

  class State {
    const buffer: Buffer<Lanes, byte>
    var totalLen32: u32
    var largeLen: bool
    ghost const seed: bv32

    /** The lanes and the buffer are those of the message so far; the flag survives the wrapping of the
      * length. */
    ghost predicate Valid()
      reads this, buffer, buffer.mem
    {
      && buffer.Valid() && buffer.width == 16 && buffer.step == Step && buffer.start == Start(seed)
      && totalLen32 == |buffer.message| % W32
      && (largeLen <==> |buffer.message| >= 16)
    }

    constructor (seed: bv32)
      ensures Valid() && fresh(buffer) && fresh(buffer.mem) && buffer.message == [] && this.seed == seed
    {
      hide Step, Start;
      buffer := new Buffer(16, Step, Start(seed));
      totalLen32, largeLen := 0, false;
      this.seed := seed;
    }

    /** `XXH32_update` */
    method Update(input: seq<byte>)
      requires Valid()
      modifies this, buffer, buffer.mem
      ensures Valid() && buffer.message == old(buffer.message) + input
    {
      hide Step, Start, Fold, Buffer.Valid;
      Count(|input|);
      buffer.Feed(input);
    }

    /** The length and the flag, the flag set from the wrapped length. */
    method Count(len: nat)
      requires totalLen32 == |buffer.message| % W32 && (largeLen <==> |buffer.message| >= 16)
      modifies this`totalLen32, this`largeLen
      ensures totalLen32 == (|buffer.message| + len) % W32 && (largeLen <==> |buffer.message| + len >= 16)
    {
      CountWraps(|buffer.message|, len, W32);
      if |buffer.message| < 16 && len < 16 {
        ModUnique(|buffer.message| + len, 0, |buffer.message| + len, W32);
      }
      totalLen32 := (totalLen32 + len) % W32;
      largeLen := largeLen || len >= 16 || totalLen32 >= 16;
    }

    /** `XXH32_digest` */
    method Digest() returns (h: bv32)
      requires Valid()
      ensures h == Hash(seed, buffer.message)
    {
      hide Step, Start, Merge, Finish, Fold, Tail, AddLength, SmallStart;
      h := if largeLen then Merge(buffer.v) else SmallStart(buffer.v.v2);
      if !largeLen {
        ShortLanes(seed, buffer.message);
      }
      h := AddLength(h, totalLen32);
      ModUnique(buffer.memSize, 0, buffer.memSize, 16);
      assert buffer.mem[..][..buffer.memSize] == buffer.mem[..buffer.memSize];
      h := Finalize(h, buffer.mem[..], buffer.memSize);
    }
  }

  lemma ShortLanes(seed: bv32, s: seq<byte>)
    requires |s| < 16
    ensures LanesAfter(seed, s).v2 == seed
  {
    hide Step;
  }

  /** However a message is cut up, streaming it gives its hash. */
  method Stream(chunks: seq<seq<byte>>, seed: bv32) returns (h: bv32)
    ensures h == Hash(seed, Concat(chunks))
  {
    hide Hash, State.Valid;
    var state := new State(seed);
    assert chunks[..0] == [];
    for i := 0 to |chunks|
      invariant state.Valid() && fresh(state) && fresh(state.buffer) && fresh(state.buffer.mem)
      invariant state.seed == seed && state.buffer.message == Concat(chunks[..i])
    {
      assert chunks[..i + 1] == chunks[..i] + [chunks[i]];
      ConcatSnoc(chunks[..i], chunks[i]);
      state.Update(chunks[i]);
    }
    assert chunks[..|chunks|] == chunks;
    h := state.Digest();
  }

  // ---------- Known values ----------

  /** The text "Nobody inspects the spammish repetition": two blocks, a word and three bytes. */
  const FIRST: seq<byte> := [0x4e, 0x6f, 0x62, 0x6f, 0x64, 0x79, 0x20, 0x69, 0x6e, 0x73, 0x70, 0x65, 0x63, 0x74, 0x73, 0x20]
  const SECOND: seq<byte> := [0x74, 0x68, 0x65, 0x20, 0x73, 0x70, 0x61, 0x6d, 0x6d, 0x69, 0x73, 0x68, 0x20, 0x72, 0x65, 0x70]
  const REST: seq<byte> := [0x65, 0x74, 0x69, 0x74, 0x69, 0x6f, 0x6e]

  lemma TwoBlocks(v: Lanes)
    ensures |FIRST + SECOND + REST| == 39
    ensures Fold(Step, 16, v, FIRST + SECOND + REST) == Step(Step(v, FIRST), SECOND)
    ensures Tail(FIRST + SECOND + REST, 16) == REST
  {
    hide Step, Fold, Tail;
    var s := FIRST + SECOND + REST;
    assert s[..16] == FIRST && s[16..] == SECOND + REST;
    FoldFirst(Step, 16, v, s);
    assert s[16..][..16] == SECOND && s[16..][16..] == REST;
    FoldFirst(Step, 16, Step(v, FIRST), s[16..]);
    FoldShort(Step, 16, Step(Step(v, FIRST), SECOND), REST);
  }

  lemma FinishStep(h: bv32, s: seq<byte>)
    ensures s == [] ==> Finish(h, s) == Avalanche(h)
    ensures 0 < |s| < 4 ==> Finish(h, s) == Finish(Mix1(h, s[0]), s[1..])
    ensures |s| >= 4 ==> Finish(h, s) == Finish(Mix4(h, Read(s, 0)), s[4..])
  {
  }

  lemma ThreeBytes(h: bv32, a: byte, b: byte, c: byte)
    ensures Finish(h, [a, b, c]) == Avalanche(Mix1(Mix1(Mix1(h, a), b), c))
  {
    hide Finish, Mix1, Avalanche;
    assert [a, b, c][1..] == [b, c] && [b, c][1..] == [c] && [c][1..] == [];
    FinishStep(h, [a, b, c]);
    FinishStep(Mix1(h, a), [b, c]);
    FinishStep(Mix1(Mix1(h, a), b), [c]);
    FinishStep(Mix1(Mix1(Mix1(h, a), b), c), []);
  }

  /** The bytes after the blocks. */
  lemma EndingWith(h: bv32)
    ensures Finish(h, REST) == Avalanche(Mix1(Mix1(Mix1(Mix4(h, 0x74697465), 0x69), 0x6f), 0x6e))
  {
    hide Finish, Mix4, Mix1, Avalanche;
    RestParts();
    FinishStep(h, REST);
    ThreeBytes(Mix4(h, 0x74697465), 0x69, 0x6f, 0x6e);
  }

  lemma RestParts()
    ensures REST[4..] == [0x69, 0x6f, 0x6e] && Read(REST, 0) == 0x74697465
  {
  }

  lemma FirstBlockZero()
    ensures Step(Start(0x0), FIRST) == Lanes(0x46a700a, 0xbfadf8e3, 0x5b32b4aa, 0x137e5555)
  {
  }

  lemma SecondBlockZero()
    ensures Step(Lanes(0x46a700a, 0xbfadf8e3, 0x5b32b4aa, 0x137e5555), SECOND) == Lanes(0x719a836e, 0x514c1de8, 0x97fa4ba2, 0x242a97a2)
  {
  }

  lemma EndingZero()
    ensures Merge(Lanes(0x719a836e, 0x514c1de8, 0x97fa4ba2, 0x242a97a2)) + 39 == 0x8c86b554 && Finish(0x8c86b554, REST) == 0xe2293b2f
  {
    EndingWith(0x8c86b554);
  }

  /** Its hash with seed 0x0. */
  lemma KnownZero()
    ensures Hash(0x0, FIRST + SECOND + REST) == 0xe2293b2f
  {
    hide Step, Start, Merge, Finish, Fold, Tail;
    FirstBlockZero();
    SecondBlockZero();
    TwoBlocks(Start(0x0));
    EndingZero();
  }

  lemma FirstBlockSeeded()
    ensures Step(Start(0x9e3779b1), FIRST) == Lanes(0xf91e4ba1, 0xc52bb47a, 0x60b07041, 0x18fc10ec)
  {
  }

  lemma SecondBlockSeeded()
    ensures Step(Lanes(0xf91e4ba1, 0xc52bb47a, 0x60b07041, 0x18fc10ec), SECOND) == Lanes(0x1bacc8d5, 0x59bca798, 0xa06ad552, 0x2c9b2152)
  {
  }

  lemma EndingSeeded()
    ensures Merge(Lanes(0x1bacc8d5, 0x59bca798, 0xa06ad552, 0x2c9b2152)) + 39 == 0x484b3a6f && Finish(0x484b3a6f, REST) == 0xc9e89e68
  {
    EndingWith(0x484b3a6f);
  }

  /** Its hash with seed 0x9e3779b1. */
  lemma KnownSeeded()
    ensures Hash(0x9e3779b1, FIRST + SECOND + REST) == 0xc9e89e68
  {
    hide Step, Start, Merge, Finish, Fold, Tail;
    FirstBlockSeeded();
    SecondBlockSeeded();
    TwoBlocks(Start(0x9e3779b1));
    EndingSeeded();
  }

  /** A message of exactly one block, and one of less. */
  lemma KnownBlock()
    ensures Hash(0, FIRST) == 0xfd55f482
  {
    hide Step, Start, Fold, Tail;
    FirstBlockZero();
    assert FIRST[..16] == FIRST && FIRST[16..] == [];
    FoldFirst(Step, 16, Start(0), FIRST);
    FoldShort(Step, 16, Lanes(0x46a700a, 0xbfadf8e3, 0x5b32b4aa, 0x137e5555), []);
  }

  lemma KnownShort()
    ensures Hash(0, [0x61, 0x62, 0x63]) == 0x32d153ff
  {
    hide Step, Start, Merge, Mix1, Avalanche, Finish, Mix4;
    FoldShort(Step, 16, Start(0), [0x61, 0x62, 0x63]);
    ThreeBytes(AddLength(SmallStart(0), 3), 0x61, 0x62, 0x63);
    ShortMixes();
  }

  lemma ShortMixes()
    ensures Avalanche(Mix1(Mix1(Mix1(AddLength(SmallStart(0), 3), 0x61), 0x62), 0x63)) == 0x32d153ff
  {
    hide Mix1, Avalanche, AddLength, SmallStart;
    FirstMixes();
    LastMixes();
  }

  lemma FirstMixes()
    ensures AddLength(SmallStart(0), 3) == 0x165667b4 && Mix1(0x165667b4, 0x61) == 0xdca1dbe8
  {
  }

  lemma LastMixes()
    ensures Mix1(0xdca1dbe8, 0x62) == 0x4f80fd3d && Mix1(0x4f80fd3d, 0x63) == 0x760a1e67 && Avalanche(0x760a1e67) == 0x32d153ff
  {
  }
}
