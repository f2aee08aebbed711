/** XXH3 on long input: stripes, blocks of stripes between scrambles, and a buffer that always
  * holds back the end of the message so that the last stripe can be rebuilt from it.
  */
module XxHash3 {
  import opened NumberTheory
  import opened Words
  import opened Blocks
  import XxHash32
  import XxHash64

  // ---------- Stripes ----------

  /** Multiplying the two halves of a keyed word. */
  function Halves(x: bv64): bv64 { (x & 0xffff_ffff) * (x >> 32) }

  /** `XXH3_accumulate_512`, the scalar form: each lane takes its own keyed word and its
    * neighbour's plain one. */
  function Accumulate(acc: seq<bv64>, s: seq<byte>, secret: seq<byte>, k: nat): (r: seq<bv64>)
    requires |acc| == 8 && |s| == 64 && k + 64 <= |secret|
    ensures |r| == 8
  {
    [Lane(acc, s, secret, k, 0), Lane(acc, s, secret, k, 1), Lane(acc, s, secret, k, 2), Lane(acc, s, secret, k, 3),
     Lane(acc, s, secret, k, 4), Lane(acc, s, secret, k, 5), Lane(acc, s, secret, k, 6), Lane(acc, s, secret, k, 7)]
  }

  function Lane(acc: seq<bv64>, s: seq<byte>, secret: seq<byte>, k: nat, i: nat): bv64
    requires i < |acc| == 8 && |s| == 64 && k + 64 <= |secret|
  {
    Taken(acc[i], XxHash64.Read(s, 8 * (if i % 2 == 0 then i + 1 else i - 1)),
          XxHash64.Read(s, 8 * i), XxHash64.Read(secret, k + 8 * i))
  }

  /** One lane's step: its neighbour's word, and the halves of its own word under its key. */
  function Taken(lane: bv64, neighbour: bv64, own: bv64, key: bv64): bv64
  {
    Plus(Plus(lane, neighbour), Product(own, key))
  }

  function Plus(x: bv64, y: bv64): bv64 { x + y }

  function Product(own: bv64, key: bv64): bv64 { Halves(own ^ key) }

  /** `XXH3_scrambleAcc` at the end of the secret. */
  function Scramble(acc: seq<bv64>, secret: seq<byte>): (r: seq<bv64>)
    requires |acc| == 8 && |secret| >= 64
    ensures |r| == 8
  {
    var k := |secret| - 64;
    [ScrambleLane(acc[0], secret, k), ScrambleLane(acc[1], secret, k + 8),
     ScrambleLane(acc[2], secret, k + 16), ScrambleLane(acc[3], secret, k + 24),
     ScrambleLane(acc[4], secret, k + 32), ScrambleLane(acc[5], secret, k + 40),
     ScrambleLane(acc[6], secret, k + 48), ScrambleLane(acc[7], secret, k + 56)]
  }

  function ScrambleLane(lane: bv64, secret: seq<byte>, k: nat): bv64
    requires k + 8 <= |secret|
  {
    Scrambled(lane, XxHash64.Read(secret, k))
  }

  function Scrambled(lane: bv64, key: bv64): bv64 { (lane ^ (lane >> 47) ^ key) * 0x9E3779B1 }

  /** Stripes between two scrambles. */
  function PerBlock(secret: seq<byte>): int { (|secret| - 64) / 8 }

  /** A block is as long as the secret allows, each stripe taking eight bytes more of it: with a secret of
    * 192 bytes 1024 bytes. */
  lemma BlockFillsSecret(secret: seq<byte>)
    requires |secret| >= 136
    ensures 8 * PerBlock(secret) + 64 <= |secret| < 8 * PerBlock(secret) + 72
    ensures |secret| == 192 ==> 64 * PerBlock(secret) == 1024
  {
  }

  /** The lanes, and how many stripes of the current block they have seen. */
  datatype Progress = Progress(secret: seq<byte>, acc: seq<bv64>, soFar: nat)
  {
    ghost predicate Good() { |secret| >= 136 && |acc| == 8 && soFar < PerBlock(secret) }
  }

  function Advance(secret: seq<byte>, acc: seq<bv64>, n: nat): Progress
    requires |secret| >= 136 && |acc| == 8
  {
    if n == PerBlock(secret) then Progress(secret, Scramble(acc, secret), 0) else Progress(secret, acc, n)
  }

  /** One stripe, and a scramble behind the last stripe of a block. */
  ghost function Step(p: Progress, stripe: seq<byte>): Progress
  {
    if |stripe| != 64 || !p.Good() then p
    else Advance(p.secret, Accumulate(p.acc, stripe, p.secret, 8 * p.soFar), p.soFar + 1)
  }

  function Start(secret: seq<byte>): Progress
  {
    Progress(secret, [XxHash32.PRIME3 as bv64, XxHash64.PRIME1, XxHash64.PRIME2, XxHash64.PRIME3,
                      XxHash64.PRIME4, XxHash32.PRIME2 as bv64, XxHash64.PRIME5, XxHash32.PRIME1 as bv64], 0)
  }

  // ---------- The hash of a message ----------

  /** How much of a message of `n` bytes is taken in whole stripes: all but 1 to 64 bytes. */
  function Striped(n: nat): (m: nat)
    requires n > 0
    ensures m < n <= m + 64 && m % 64 == 0
  {
    (n - 1) / 64 * 64
  }

  /** The lanes after a long message: its stripes, then its last 64 bytes once more. */
  ghost function LongAcc(secret: seq<byte>, s: seq<byte>): seq<bv64>
    requires |secret| >= 136 && |s| > 64
  {
    var p := Fold(Step, 64, Start(secret), s[..Striped(|s|)]);
    FoldGood(Start(secret), s[..Striped(|s|)]);
    Accumulate(p.acc, s[|s| - 64..], secret, |secret| - 71)
  }

  lemma {:induction false} FoldGood(p: Progress, s: seq<byte>)
    requires p.Good()
    ensures var q := Fold(Step, 64, p, s); q.Good() && q.secret == p.secret
    decreases |s|
  {
    if |s| >= 64 {
      FoldGood(Step(p, s[..64]), s[64..]);
    }
  }

  /** Everything that is left to the mixing functions: short messages, and merging the lanes. */
  datatype Mixers<!T> = Mixers(short: seq<byte> -> T, merge: (seq<bv64>, u64) -> T)

  /** XXH3 of a whole message. */
  ghost function Hash<T>(mixers: Mixers<T>, secret: seq<byte>, s: seq<byte>): T
    requires |secret| >= 136
  {
    if |s| <= 240 then mixers.short(s) else mixers.merge(LongAcc(secret, s), |s| % W64)
  }

  /** Whether a 64-bit length tells short messages from long ones. */
  predicate Counted(s: seq<byte>) { |s| < W64 || |s| % W64 > 240 }

  // ---------- Runs of stripes ----------

  /** Stripes taken in a row within one block. */
  function Row(secret: seq<byte>, acc: seq<bv64>, k: nat, s: seq<byte>, n: nat): (r: seq<bv64>)
    requires |secret| >= 136 && |acc| == 8 && k + n <= PerBlock(secret) && |s| == 64 * n
    ensures |r| == 8
    decreases n
  {
    if n == 0 then acc
    else Row(secret, Accumulate(acc, s[..64], secret, 8 * k), k + 1, s[64..], n - 1)
  }

  /** A row of stripes is what the single steps do, the scramble coming at the end if at all. */
  lemma {:induction false} RowIsFold(p: Progress, s: seq<byte>, n: nat)
    requires p.Good() && 0 < n <= PerBlock(p.secret) - p.soFar && |s| == 64 * n
    ensures Fold(Step, 64, p, s) == Advance(p.secret, Row(p.secret, p.acc, p.soFar, s, n), p.soFar + n)
    decreases n
  {
    hide Accumulate, Scramble;
    var q := Step(p, s[..64]);
    if n == 1 {
      assert s[..64] == s;
      assert Fold(Step, 64, q, s[64..]) == q;
    } else {
      RowIsFold(q, s[64..], n - 1);
    }
  }

  /** `XXH3_accumulate` */
  method AccumulateRow(acc: seq<bv64>, input: seq<byte>, at: nat, secret: seq<byte>, k: nat, n: nat)
    returns (r: seq<bv64>)
    requires |secret| >= 136 && |acc| == 8 && k + n <= PerBlock(secret) && at + 64 * n <= |input|
    ensures |r| == 8 && r == Row(secret, acc, k, input[at..at + 64 * n], n)
  {
    hide Accumulate;
    r := acc;
    ghost var s := input[at..at + 64 * n];
    assert s[0..] == s;
    for i := 0 to n
      invariant |r| == 8
      invariant Row(secret, r, k + i, s[64 * i..], n - i) == Row(secret, acc, k, s, n)
    {
      assert s[64 * i..][..64] == input[at + 64 * i..at + 64 * i + 64];
      assert s[64 * i..][64..] == s[64 * (i + 1)..];
      r := Accumulate(r, input[at + 64 * i..at + 64 * i + 64], secret, 8 * (k + i));
    }
  }

  /** `XXH3_consumeStripes`: stripes may start and end anywhere within a block. */
  method ConsumeStripes(secret: seq<byte>, acc: seq<bv64>, soFar: nat, input: seq<byte>, at: nat, n: nat)
    returns (acc': seq<bv64>, soFar': nat, at': nat)
    requires Progress(secret, acc, soFar).Good() && at + 64 * n <= |input|
    ensures at' == at + 64 * n
    ensures Progress(secret, acc', soFar').Good()
    ensures Progress(secret, acc', soFar') == Fold(Step, 64, Progress(secret, acc, soFar), input[at..at + 64 * n])
  {
    hide Accumulate, Scramble, Fold, Step, Row;
    var perBlock, left, k := PerBlock(secret), n, soFar;
    ghost var end := at + 64 * n;
    ghost var target := Fold(Step, 64, Progress(secret, acc, soFar), input[at..end]);
    acc', soFar', at' := acc, soFar, at;
    if left >= perBlock - soFar {
      var thisIter := perBlock - soFar;
      while left >= thisIter
        invariant 0 <= k && 0 < thisIter == perBlock - k && |acc'| == 8 && 0 <= left
        invariant k == 0 || (left == n && k == soFar)
        invariant at' + 64 * left == end
        invariant Fold(Step, 64, Progress(secret, acc', k), input[at'..end]) == target
      {
        TakeRow(Progress(secret, acc', k), input, at', end, thisIter);
        acc' := AccumulateRow(acc', input, at', secret, k, thisIter);
        acc' := Scramble(acc', secret);
        at' := at' + 64 * thisIter;
        left := left - thisIter;
        thisIter := perBlock;
        k := 0;
      }
      soFar' := 0;
    }
    if left > 0 {
      TakeRow(Progress(secret, acc', k), input, at', end, left);
      acc' := AccumulateRow(acc', input, at', secret, k, left);
      at' := at' + 64 * left;
      soFar' := soFar' + left;
    }
    FoldShort(Step, 64, Progress(secret, acc', soFar'), input[at'..end]);
  }

  lemma TakeRow(p: Progress, input: seq<byte>, at: nat, end: nat, n: nat)
    requires p.Good() && 0 < n <= PerBlock(p.secret) - p.soFar && at + 64 * n <= end <= |input|
    ensures Fold(Step, 64, p, input[at..end]) ==
      Fold(Step, 64, Advance(p.secret, Row(p.secret, p.acc, p.soFar, input[at..at + 64 * n], n), p.soFar + n),
           input[at + 64 * n..end])
  {
    hide Fold, Step, Row, Advance;
    var s := input[at..end];
    FoldAt(Step, 64, p, s, 64 * n);
    assert s[..64 * n] == input[at..at + 64 * n] && s[64 * n..] == input[at + 64 * n..end];
    RowIsFold(p, s[..64 * n], n);
  }

  // ---------- One shot ----------

  /** `XXH3_hashLong_internal_loop`: whole blocks first, then the rest. */
  method HashLong(input: seq<byte>, secret: seq<byte>) returns (acc: seq<bv64>)
    requires |secret| >= 136 && |input| > 64
    ensures |acc| == 8 && acc == LongAcc(secret, input)
  {
    hide Accumulate, Scramble, Fold, Step, Row, Striped;
    ghost var end := Striped(|input|);
    var blockLen := 64 * PerBlock(secret);
    var blocks := BlockCount(|input|, blockLen, PerBlock(secret));
    var at;
    acc, at := WholeBlocks(input, secret, blockLen, blocks, end);
    var stripes := (|input| - 1 - at) / 64;
    if stripes > 0 {
      TakeRow(Progress(secret, acc, 0), input, at, end, stripes);
    } else {
      EmptyRow(Progress(secret, acc, 0), input[at..at + 64 * stripes]);
    }
    acc := AccumulateRow(acc, input, at, secret, 0, stripes);
    FoldShort(Step, 64, Progress(secret, acc, stripes), input[end..end]);
    acc := Accumulate(acc, input[|input| - 64..], secret, |secret| - 71);
  }

  lemma EmptyRow(p: Progress, s: seq<byte>)
    requires p.Good() && s == []
    ensures Row(p.secret, p.acc, 0, s, 0) == p.acc && Fold(Step, 64, p, s) == p
  {
  }

  method WholeBlocks(input: seq<byte>, secret: seq<byte>, blockLen: nat, blocks: nat, ghost end: nat)
    returns (acc: seq<bv64>, at: nat)
    requires |secret| >= 136 && blockLen == 64 * PerBlock(secret) && 0 <= blocks * blockLen <= end <= |input|
    ensures |acc| == 8 && at == blocks * blockLen
    ensures Fold(Step, 64, Progress(secret, acc, 0), input[at..end]) == Fold(Step, 64, Start(secret), input[..end])
  {
    hide Accumulate, Scramble, Fold, Step, Row;
    var perBlock := PerBlock(secret);
    acc, at := Start(secret).acc, 0;
    for n := 0 to blocks
      invariant |acc| == 8 && at == n * blockLen
      invariant at <= end
      invariant Fold(Step, 64, Progress(secret, acc, 0), input[at..end]) == Fold(Step, 64, Start(secret), input[..end])
    {
      NextBlock(n, blocks, blockLen);
      TakeRow(Progress(secret, acc, 0), input, at, end, perBlock);
      acc := AccumulateRow(acc, input, at, secret, 0, perBlock);
      acc := Scramble(acc, secret);
      at := at + blockLen;
    }
  }

  /** How many whole blocks end before the last byte. */
  method BlockCount(n: nat, blockLen: nat, ghost perBlock: nat) returns (blocks: nat)
    requires n > 0 && perBlock > 0 && blockLen == 64 * perBlock
    ensures 0 <= blocks * blockLen <= Striped(n) < n
    ensures var at := blocks * blockLen;
      (n - 1 - at) / 64 < perBlock && at + (n - 1 - at) / 64 * 64 == Striped(n)
  {
    hide Striped;
    blocks := Quotient(n - 1, blockLen);
    StripesInBlocks(blocks, perBlock, blockLen);
    StripesOfBlocks(n, blocks * perBlock, n - 1 - blocks * blockLen, perBlock);
  }

  method Quotient(m: nat, d: nat) returns (q: nat)
    requires d > 0
    ensures q * d <= m < q * d + d
  {
    q := m / d;
  }

  lemma StripesInBlocks(q: nat, perBlock: nat, blockLen: nat)
    requires blockLen == 64 * perBlock
    ensures q * blockLen == 64 * (q * perBlock) && 0 <= q * perBlock
  {
    MulMonotone(0, q, perBlock);
    MulAssoc(q, perBlock, 64);
  }

  lemma StripesOfBlocks(n: nat, e: nat, r: nat, perBlock: nat)
    requires n > 0 && n - 1 == 64 * e + r && r < 64 * perBlock
    ensures 64 * e <= Striped(n) && r / 64 < perBlock && 64 * e + r / 64 * 64 == Striped(n)
  {
  }

  lemma NextBlock(n: nat, blocks: nat, blockLen: nat)
    requires n < blocks
    ensures n * blockLen + blockLen <= blocks * blockLen
    ensures (n + 1) * blockLen == n * blockLen + blockLen
  {
    MulMonotone(n + 1, blocks, blockLen);
  }

  /** `XXH3_64bits_internal` and its 128-bit twin, up to the mixing functions. */
  method OneShot<T>(mixers: Mixers<T>, secret: seq<byte>, input: seq<byte>) returns (h: T)
    requires |secret| >= 136
    ensures h == Hash(mixers, secret, input)
  {
    hide LongAcc;
    if |input| <= 240 {
      h := mixers.short(input);
    } else {
      var acc := HashLong(input, secret);
      h := mixers.merge(acc, |input| % W64);
    }
  }

  // ---------- Streaming ----------

  class State<T> {
    var acc: seq<bv64>
    const buffer: array<byte>
    var bufferedSize: nat
    var soFar: nat
    var totalLen: u64
    const secret: seq<byte>
    const mixers: Mixers<T>
    ghost var message: seq<byte>
    ghost var consumed: nat

    /** The lanes are those of the first `consumed` bytes of `s`. */
    ghost predicate Taken(s: seq<byte>)
      reads this`acc, this`soFar, this`consumed
    {
      && |secret| >= 136 && consumed % 64 == 0 && consumed <= |s|
      && Progress(secret, acc, soFar) == Fold(Step, 64, Start(secret), s[..consumed])
      && (consumed > 0 ==> consumed >= 256)
    }

    /** The end of the buffer still shows the end of what was taken, up to where it was overwritten. */
    ghost predicate CatchUp(s: seq<byte>)
      reads this`bufferedSize, this`consumed, buffer
      requires buffer.Length == 256 && consumed <= |s|
    {
      consumed >= 256 ==> forall j :: 192 <= j < 256 && bufferedSize <= j ==> buffer[j] == s[consumed - 256 + j]
    }

    ghost predicate Valid()
      reads this, buffer
    {
      && buffer.Length == 256 && bufferedSize <= 256
      && Taken(message) && CatchUp(message)
      && consumed + bufferedSize == |message| && buffer[..bufferedSize] == message[consumed..]
      && (consumed > 0 ==> bufferedSize > 0)
      && totalLen == |message| % W64
    }

    /** `XXH3_reset_internal` */
    constructor (secret: seq<byte>, mixers: Mixers<T>)
      requires |secret| >= 136
      ensures Valid() && fresh(buffer) && message == [] && this.secret == secret && this.mixers == mixers
    {
      acc := Start(secret).acc;
      buffer := new byte[256](_ => 0);
      bufferedSize, soFar, totalLen := 0, 0, 0;
      this.secret := secret;
      this.mixers := mixers;
      message, consumed := [], 0;
    }

    /** `XXH3_update` */
    method Update(input: seq<byte>)
      requires Valid()
      modifies this, buffer
      ensures Valid() && message == old(message) + input
    {
      hide Fold, Step, State.Taken, State.CatchUp;
      ghost var s := message + input;
      CountWraps(|message|, |input|, W64);
      totalLen := (totalLen + |input|) % W64;
      TakenLonger(input);
      if |input| <= 256 - bufferedSize {
        Append(input);
      } else {
        Overflow(input, s);
      }
      message := s;
    }

    lemma TakenLonger(input: seq<byte>)
      requires Taken(message)
      ensures consumed <= |message| && Taken(message + input)
      ensures (message + input)[consumed..] == message[consumed..] + input
    {
      hide Fold, Step;
      assert (message + input)[..consumed] == message[..consumed];
    }

    /** Input that does not fit in the buffer. */
    method Overflow(input: seq<byte>, ghost s: seq<byte>)
      requires buffer.Length == 256 && bufferedSize <= 256 < bufferedSize + |input|
      requires Taken(s) && s[consumed..] == buffer[..bufferedSize] + input && (consumed > 0 ==> bufferedSize > 0)
      modifies this`acc, this`soFar, this`bufferedSize, this`consumed, buffer
      ensures Taken(s) && CatchUp(s) && 0 < bufferedSize <= 256
      ensures consumed + bufferedSize == |s| && buffer[..bufferedSize] == s[consumed..]
    {
      hide Fold, Step, Progress.Good;
      var at := 0;
      if bufferedSize > 0 {
        at := FillBuffer(input, s);
      } else {
        assert s[consumed..] == input[at..];
      }
      if |input| - at > 256 {
        at := TakeInput(input, at, s);
      }
      Keep(input, at, s);
    }

    /** Small input only goes to the buffer. */
    method Append(input: seq<byte>)
      requires buffer.Length == 256 && bufferedSize + |input| <= 256 && consumed + bufferedSize == |message|
      requires buffer[..bufferedSize] == message[consumed..] && CatchUp(message)
      modifies this`bufferedSize, buffer
      ensures bufferedSize == old(bufferedSize) + |input|
      ensures buffer[..bufferedSize] == (message + input)[consumed..] && CatchUp(message + input)
    {
      ghost var before := buffer[..];
      Store(buffer, bufferedSize, input);
      bufferedSize := bufferedSize + |input|;
      assert (message + input)[consumed..] == message[consumed..] + input;
      forall j | 192 <= j < 256 && bufferedSize <= j ensures buffer[j] == before[j] {
        assert buffer[bufferedSize..][j - bufferedSize] == before[bufferedSize..][j - bufferedSize];
      }
    }

    /** The rest of the input, never empty, goes to the front of the buffer. */
    method Keep(input: seq<byte>, at: nat, ghost s: seq<byte>)
      requires buffer.Length == 256 && at <= |input| <= at + 256 && bufferedSize == 0
      requires consumed <= |s| && s[consumed..] == input[at..] && CatchUp(s)
      modifies this`bufferedSize, buffer
      ensures bufferedSize == |input| - at && buffer[..bufferedSize] == s[consumed..] && CatchUp(s)
    {
      ghost var before := buffer[..];
      Store(buffer, 0, input[at..]);
      bufferedSize := |input| - at;
      forall j | 192 <= j < 256 && bufferedSize <= j ensures buffer[j] == before[j] {
        assert buffer[bufferedSize..][j - bufferedSize] == before[bufferedSize..][j - bufferedSize];
      }
    }

    /** The buffer is completed and its four stripes are taken. */
    method FillBuffer(input: seq<byte>, ghost s: seq<byte>) returns (at: nat)
      requires buffer.Length == 256 && 0 < bufferedSize <= 256 < bufferedSize + |input|
      requires Taken(s) && s[consumed..] == buffer[..bufferedSize] + input
      modifies this`acc, this`soFar, this`bufferedSize, this`consumed, buffer
      ensures at < |input| && Taken(s) && consumed > 0 && s[consumed..] == input[at..]
      ensures bufferedSize == 0 && CatchUp(s)
    {
      hide Fold, Step;
      at := 256 - bufferedSize;
      ghost var kept := buffer[..bufferedSize];
      Store(buffer, bufferedSize, input[..at]);
      assert buffer[..] == buffer[..bufferedSize] + buffer[bufferedSize..bufferedSize + at];
      assert buffer[..] == kept + input[..at];
      Joined(s, consumed, kept, input, at);
      Take(buffer[..], 0, 4, s);
      bufferedSize := 0;
    }

    /** Whole stripes straight from the input, and a copy of the last one. */
    method TakeInput(input: seq<byte>, from: nat, ghost s: seq<byte>) returns (at: nat)
      requires buffer.Length == 256 && from + 256 < |input| && bufferedSize == 0
      requires Taken(s) && s[consumed..] == input[from..]
      modifies this`acc, this`soFar, this`consumed, buffer
      ensures at < |input| <= at + 64 && Taken(s) && consumed > 0 && s[consumed..] == input[at..]
      ensures CatchUp(s)
    {
      hide Fold, Step;
      var n := (|input| - 1 - from) / 64;
      at := from + 64 * n;
      SameEnd(s, consumed, input, from, 64 * n);
      SameEnd(s, consumed, input, from, 64 * n - 64);
      SameEnd(s, consumed + 64 * n - 64, input, at - 64, 64);
      Take(input, from, n, s);
      Store(buffer, 192, input[at - 64..at]);
      forall j | 192 <= j < 256 ensures buffer[j] == s[consumed - 256 + j] {
        assert buffer[192..192 + 64][j - 192] == s[consumed - 64..consumed][j - 192];
      }
    }

    /** `n` stripes of `input` are the next bytes of the message. */
    method Take(input: seq<byte>, at: nat, n: nat, ghost s: seq<byte>)
      requires Taken(s) && at + 64 * n <= |input| && n >= 4
      requires consumed + 64 * n <= |s| && s[consumed..consumed + 64 * n] == input[at..at + 64 * n]
      modifies this`acc, this`soFar, this`consumed
      ensures Taken(s) && consumed == old(consumed) + 64 * n
    {
      hide Fold, Step;
      FoldGood(Start(secret), s[..consumed]);
      var end;
      ghost var before := Progress(secret, acc, soFar);
      acc, soFar, end := ConsumeStripes(secret, acc, soFar, input, at, n);
      ghost var t := s[..consumed + 64 * n];
      FoldAt(Step, 64, Start(secret), t, consumed);
      assert t[..consumed] == s[..consumed] && t[consumed..] == s[consumed..consumed + 64 * n];
      consumed := consumed + 64 * n;
    }

    /** `XXH3_digest_long`: on a copy, with the last stripe rebuilt when it spans the buffer's end. */
    method DigestLong() returns (r: seq<bv64>)
      requires Valid() && |message| > 240
      ensures |r| == 8 && r == LongAcc(secret, message)
    {
      hide Fold, Step, Accumulate;
      FoldGood(Start(secret), message[..consumed]);
      r := acc;
      ghost var end := Striped(|message|);
      var lastStripe: seq<byte>;
      if bufferedSize >= 64 {
        var n, at, k := (bufferedSize - 1) / 64, 0, 0;
        var b := buffer[..bufferedSize];
        r, k, at := ConsumeStripes(secret, acc, soFar, b, 0, n);
        lastStripe := b[bufferedSize - 64..];
        BufferedStripes(secret, Progress(secret, acc, soFar), message, consumed, b, n);
      } else {
        var catchUp := 64 - bufferedSize;
        lastStripe := buffer[256 - catchUp..] + buffer[..bufferedSize];
        RebuiltStripe(buffer[..], lastStripe);
      }
      r := Accumulate(r, lastStripe, secret, |secret| - 71);
    }

    /** A last stripe that began before what the buffer holds. */
    lemma RebuiltStripe(b: seq<byte>, lastStripe: seq<byte>)
      requires Valid() && |message| > 240 && bufferedSize < 64 && b == buffer[..]
      requires lastStripe == b[192 + bufferedSize..] + b[..bufferedSize]
      ensures message[|message| - 64..] == lastStripe && Striped(|message|) == consumed
    {
      hide State.Taken;
      TakenLayout();
      assert b[..bufferedSize] == message[consumed..];
      forall j | 192 + bufferedSize <= j < 256 ensures b[j] == message[consumed - 256 + j] {
        assert buffer[j] == message[consumed - 256 + j];
      }
      assert message[consumed - 64 + bufferedSize..consumed] == b[192 + bufferedSize..];
      assert message[|message| - 64..] == message[|message| - 64..consumed] + message[consumed..];
    }

    lemma TakenLayout()
      requires Taken(message)
      ensures consumed % 64 == 0 && (consumed > 0 ==> consumed >= 256)
    {
    }

    /** `XXH3_64bits_digest` and its 128-bit twin: the buffer is taken for the whole message also when
      * the length has wrapped to 240 or less. */
    method Digest() returns (h: T)
      requires Valid()
      ensures Counted(message) ==> h == Hash(mixers, secret, message)
      ensures !Counted(message) ==> h == mixers.short(buffer[..|message| % W64])
    {
      if |message| < W64 {
        ModUnique(|message|, 0, |message|, W64);
      }
      if totalLen > 240 {
        var r := DigestLong();
        h := mixers.merge(r, totalLen);
      } else {
        assert |message| < W64 ==> buffer[..totalLen] == message;
        h := mixers.short(buffer[..totalLen]);
      }
    }
  }

  /** What is left to take, when some of it has been. */
  lemma SameEnd(s: seq<byte>, i: nat, t: seq<byte>, j: nat, n: nat)
    requires i <= |s| && j + n <= |t| && s[i..] == t[j..]
    ensures i + n <= |s| && s[i..i + n] == t[j..j + n] && s[i + n..] == t[j + n..]
  {
    assert s[i..][..n] == s[i..i + n] && t[j..][..n] == t[j..j + n];
    assert s[i..][n..] == s[i + n..] && t[j..][n..] == t[j + n..];
  }

  /** What the stripes of the buffer add to the lanes. */
  lemma BufferedStripes(secret: seq<byte>, p: Progress, s: seq<byte>, consumed: nat, b: seq<byte>, n: nat)
    requires |secret| >= 136 && consumed % 64 == 0 && consumed <= |s| && b == s[consumed..] && |b| >= 64
    requires n == (|b| - 1) / 64 && p == Fold(Step, 64, Start(secret), s[..consumed])
    ensures Striped(|s|) == consumed + 64 * n && 64 * n <= |b|
    ensures Fold(Step, 64, p, b[0..0 + 64 * n]) == Fold(Step, 64, Start(secret), s[..Striped(|s|)])
    ensures b[|b| - 64..] == s[|s| - 64..]
  {
    hide Fold, Step, Start, Striped;
    StripedFrom(|s|, consumed, n);
    PartsOfRest(s, consumed, b, 64 * n);
    FoldFrom(Start(secret), s[..consumed + 64 * n], consumed);
  }

  lemma PartsOfRest(s: seq<byte>, consumed: nat, b: seq<byte>, m: nat)
    requires consumed <= |s| && b == s[consumed..] && |b| >= 64 && m <= |b|
    ensures s[..consumed + m][..consumed] == s[..consumed] && s[..consumed + m][consumed..] == b[0..0 + m]
    ensures b[|b| - 64..] == s[|s| - 64..]
  {
  }

  lemma FoldFrom(p: Progress, t: seq<byte>, n: nat)
    requires n <= |t| && n % 64 == 0
    ensures Fold(Step, 64, p, t) == Fold(Step, 64, Fold(Step, 64, p, t[..n]), t[n..])
  {
    hide Fold, Step;
    FoldAt(Step, 64, p, t, n);
  }

  lemma StripedFrom(m: nat, consumed: nat, n: nat)
    requires consumed % 64 == 0 && consumed + 64 <= m && n == (m - consumed - 1) / 64
    ensures Striped(m) == consumed + 64 * n && consumed + 64 * n < m
  {
  }

  lemma Joined(s: seq<byte>, consumed: nat, kept: seq<byte>, input: seq<byte>, at: nat)
    requires consumed <= |s| && at <= |input| && s[consumed..] == kept + input
    ensures consumed + |kept| + at <= |s|
    ensures s[consumed..consumed + |kept| + at] == kept + input[..at]
    ensures s[consumed + |kept| + at..] == input[at..]
  {
    assert s[consumed..][..|kept| + at] == s[consumed..consumed + |kept| + at];
    assert s[consumed..][|kept| + at..] == s[consumed + |kept| + at..];
  }

  /** However a message is cut up, streaming it gives its hash. */
  method Stream<T>(chunks: seq<seq<byte>>, secret: seq<byte>, mixers: Mixers<T>) returns (h: T)
    requires |secret| >= 136
    ensures Counted(Concat(chunks)) ==> h == Hash(mixers, secret, Concat(chunks))
  {
    hide Hash, Counted, State.Valid;
    var state := new State(secret, mixers);
    assert chunks[..0] == [];
    for i := 0 to |chunks|
      invariant state.Valid() && fresh(state) && fresh(state.buffer)
      invariant state.secret == secret && state.mixers == mixers && state.message == Concat(chunks[..i])
    {
      assert chunks[..i + 1] == chunks[..i] + [chunks[i]];
      ConcatSnoc(chunks[..i], chunks[i]);
      state.Update(chunks[i]);
    }
    assert chunks[..|chunks|] == chunks;
    h := state.Digest();
  }

  // ---------- Which key meets which word ----------

  const NEIGHBOURS: seq<nat> := [1, 0, 3, 2, 5, 4, 7, 6]

  /** Under a key that is the word itself no product is left. */
  lemma TakenKeyed(lane: bv64, neighbour: bv64, word: bv64)
    ensures Taken(lane, neighbour, word, word) == Plus(lane, neighbour)
  {
    hide Plus, Product;
    NoProduct(word);
    PlusZero(Plus(lane, neighbour));
  }

  lemma NoProduct(word: bv64)
    ensures Product(word, word) == 0
  {
  }

  lemma PlusZero(x: bv64)
    ensures Plus(x, 0) == x
  {
  }

  /** Where the stripe equals its part of the secret each lane takes its neighbour's word and nothing else. */
  lemma KeyedLanes(acc: seq<bv64>, s: seq<byte>, secret: seq<byte>, k: nat, i: nat)
    requires i < |acc| == 8 && |s| == 64 && k + 64 <= |secret| && s == secret[k..k + 64]
    ensures 8 * NEIGHBOURS[i] + 8 <= |s| && Accumulate(acc, s, secret, k)[i] == Plus(acc[i], XxHash64.Read(s, 8 * NEIGHBOURS[i]))
  {
    hide XxHash64.Read, Taken, Plus;
    SameRead(s, secret, k, i);
    TakenKeyed(acc[i], XxHash64.Read(s, 8 * NEIGHBOURS[i]), XxHash64.Read(s, 8 * i));
    assert Accumulate(acc, s, secret, k)[i] == Lane(acc, s, secret, k, i);
  }

  lemma SameRead(s: seq<byte>, secret: seq<byte>, k: nat, i: nat)
    requires i < 8 && |s| == 64 && k + 64 <= |secret| && s == secret[k..k + 64]
    ensures XxHash64.Read(s, 8 * i) == XxHash64.Read(secret, k + 8 * i)
  {
    hide XxHash64.Read4;
    XxHash64.SameRead4(s, 8 * i, secret, k + 8 * i);
    XxHash64.SameRead4(s, 8 * i + 4, secret, k + 8 * i + 4);
  }

  lemma ScrambledZero(lane: bv64)
    ensures Scrambled(lane, lane ^ (lane >> 47)) == 0
  {
  }

  /** A scramble leaves nothing of a lane that is, once folded, the secret's word for it: the last eight words
    * of the secret, one a lane. */
  lemma ScrambledKey(acc: seq<bv64>, secret: seq<byte>, i: nat, folded: bv64)
    requires i < |acc| == 8 && |secret| >= 64 && Scrambled(acc[i], folded) == 0
    requires folded == XxHash64.Read(secret, |secret| - 64 + 8 * i)
    ensures Scramble(acc, secret)[i] == 0
  {
    hide XxHash64.Read, Scrambled, Scramble;
    ScrambledFrom(acc, secret, i);
  }

  lemma ScrambledFrom(acc: seq<bv64>, secret: seq<byte>, i: nat)
    requires i < |acc| == 8 && |secret| >= 64
    ensures Scramble(acc, secret)[i] == ScrambleLane(acc[i], secret, |secret| - 64 + 8 * i)
  {
    hide ScrambleLane;
    if i < 4 {
      assert i == 0 || i == 1 || i == 2 || i == 3;
    } else {
      assert i == 4 || i == 5 || i == 6 || i == 7;
    }
  }

  /** The last stripe meets the 64 bytes that end seven bytes before the secret does. */
  lemma LastStripeKeyed(secret: seq<byte>, s: seq<byte>, i: nat)
    requires |secret| >= 136 && |s| > 64 && i < 8 && s[|s| - 64..] == secret[|secret| - 71..|secret| - 7]
    ensures var p := Fold(Step, 64, Start(secret), s[..Striped(|s|)]);
      |p.acc| == 8 && 8 * NEIGHBOURS[i] + 8 <= 64
      && LongAcc(secret, s)[i] == Plus(p.acc[i], XxHash64.Read(s[|s| - 64..], 8 * NEIGHBOURS[i]))
  {
    hide Fold, Step, Accumulate, XxHash64.Read, Start, Striped, Plus;
    LastStripe(secret, s);
    KeyedLanes(Fold(Step, 64, Start(secret), s[..Striped(|s|)]).acc, s[|s| - 64..], secret, |secret| - 71, i);
  }

  lemma LastStripe(secret: seq<byte>, s: seq<byte>)
    requires |secret| >= 136 && |s| > 64
    ensures var p := Fold(Step, 64, Start(secret), s[..Striped(|s|)]);
      |p.acc| == 8 && LongAcc(secret, s) == Accumulate(p.acc, s[|s| - 64..], secret, |secret| - 71)
  {
    hide Fold, Step, Accumulate;
    FoldGood(Start(secret), s[..Striped(|s|)]);
  }

  // ---------- A known value ----------

  const PATTERN: seq<byte> := [1, 2, 3, 4, 5, 6, 7, 8]

  /** Words of the bytes one to eight. */
  ghost predicate Counting(s: seq<byte>)
  {
    forall i :: 0 <= i < |s| ==> s[i] == PATTERN[i % 8]
  }

  ghost predicate Zeros(s: seq<byte>)
  {
    forall i :: 0 <= i < |s| ==> s[i] == 0
  }

  lemma CountingRead(s: seq<byte>, at: nat)
    requires Counting(s) && at % 8 == 0 && at + 8 <= |s|
    ensures XxHash64.Read(s, at) == 0x0807_0605_0403_0201
  {
    hide XxHash64.Read4, Counting;
    CountingAt(s, at, 0);
    CountingAt(s, at, 1);
    CountingAt(s, at, 2);
    CountingAt(s, at, 3);
    CountingAt(s, at, 4);
    CountingAt(s, at, 5);
    CountingAt(s, at, 6);
    CountingAt(s, at, 7);
    FirstFour(s, at);
    NextFour(s, at + 4);
    BothFours();
  }

  lemma CountingAt(s: seq<byte>, at: nat, j: nat)
    requires Counting(s) && at % 8 == 0 && at + 8 <= |s| && j < 8
    ensures s[at + j] == PATTERN[j]
  {
    assert (at + j) % 8 == j;
  }

  lemma BothFours()
    ensures 0x0403_0201 as bv64 | (0x0807_0605 as bv64 << 32) == 0x0807_0605_0403_0201
  {
  }

  lemma FirstFour(s: seq<byte>, at: nat)
    requires at + 4 <= |s| && s[at] == 1 && s[at + 1] == 2 && s[at + 2] == 3 && s[at + 3] == 4
    ensures XxHash64.Read4(s, at) == 0x0403_0201
  {
  }

  lemma NextFour(s: seq<byte>, at: nat)
    requires at + 4 <= |s| && s[at] == 5 && s[at + 1] == 6 && s[at + 2] == 7 && s[at + 3] == 8
    ensures XxHash64.Read4(s, at) == 0x0807_0605
  {
  }

  lemma ZerosRead(s: seq<byte>, at: nat)
    requires Zeros(s) && at + 8 <= |s|
    ensures XxHash64.Read(s, at) == 0
  {
  }

  /** What every lane gains from such a stripe under a key of zeros. */
  const GAIN: bv64 := 0x08273a4240251206

  lemma GainOfWord(x: bv64)
    ensures Taken(x, 0x0807_0605_0403_0201, 0x0807_0605_0403_0201, 0) == Plus(x, GAIN)
  {
    hide Plus, Product;
    WordProduct();
    PlusAssoc(x, 0x0807_0605_0403_0201, 0x0020343d3c221005);
  }

  lemma WordProduct()
    ensures Product(0x0807_0605_0403_0201, 0) == 0x0020343d3c221005
    ensures Plus(0x0807_0605_0403_0201, 0x0020343d3c221005) == GAIN
  {
  }

  function Raised(acc: seq<bv64>, x: bv64): (r: seq<bv64>)
    requires |acc| == 8
    ensures |r| == 8
  {
    [Plus(acc[0], x), Plus(acc[1], x), Plus(acc[2], x), Plus(acc[3], x),
     Plus(acc[4], x), Plus(acc[5], x), Plus(acc[6], x), Plus(acc[7], x)]
  }

  lemma CountingStripe(acc: seq<bv64>, s: seq<byte>, secret: seq<byte>, k: nat)
    requires |acc| == 8 && |s| == 64 && k + 64 <= |secret| && Counting(s) && Zeros(secret)
    ensures Accumulate(acc, s, secret, k) == Raised(acc, GAIN)
  {
    hide XxHash64.Read, Counting, Zeros, Taken, Plus, Lane;
    CountingLane(acc, s, secret, k, 0);
    CountingLane(acc, s, secret, k, 1);
    CountingLane(acc, s, secret, k, 2);
    CountingLane(acc, s, secret, k, 3);
    CountingLane(acc, s, secret, k, 4);
    CountingLane(acc, s, secret, k, 5);
    CountingLane(acc, s, secret, k, 6);
    CountingLane(acc, s, secret, k, 7);
  }

  lemma CountingLane(acc: seq<bv64>, s: seq<byte>, secret: seq<byte>, k: nat, i: nat)
    requires i < |acc| == 8 && |s| == 64 && k + 64 <= |secret| && Counting(s) && Zeros(secret)
    ensures Lane(acc, s, secret, k, i) == Plus(acc[i], GAIN)
  {
    hide XxHash64.Read, Counting, Zeros, Taken, Plus;
    CountingRead(s, 8 * (if i % 2 == 0 then i + 1 else i - 1));
    CountingRead(s, 8 * i);
    ZerosRead(secret, k + 8 * i);
    GainOfWord(acc[i]);
  }

  function Times(n: nat): bv64 { if n == 0 then 0 else Plus(GAIN, Times(n - 1)) }

  lemma {:induction false} CountingRow(acc: seq<bv64>, s: seq<byte>, secret: seq<byte>, k: nat, n: nat)
    requires |acc| == 8 && |secret| == 136 && k + n <= PerBlock(secret) && |s| == 64 * n && Counting(s) && Zeros(secret)
    ensures Row(secret, acc, k, s, n) == Raised(acc, Times(n))
    decreases n
  {
    hide Accumulate, Raised, Plus;
    if n == 0 {
      NoGain(acc);
    } else {
      CountingRest(s);
      CountingStripe(acc, s[..64], secret, 8 * k);
      CountingRow(Raised(acc, GAIN), s[64..], secret, k + 1, n - 1);
      RaisedTwice(acc, GAIN, Times(n - 1));
    }
  }

  lemma CountingRest(s: seq<byte>)
    requires Counting(s) && |s| >= 64
    ensures Counting(s[..64]) && Counting(s[64..])
  {
    var rest := s[64..];
    forall i | 0 <= i < |rest| ensures rest[i] == PATTERN[i % 8] {
      assert rest[i] == s[i + 64];
    }
  }

  lemma NoGain(acc: seq<bv64>)
    requires |acc| == 8
    ensures Raised(acc, 0) == acc
  {
    hide Plus;
    forall x ensures Plus(x, 0) == x {
      PlusZero(x);
    }
    assert acc == [acc[0], acc[1], acc[2], acc[3], acc[4], acc[5], acc[6], acc[7]];
  }

  lemma RaisedTwice(acc: seq<bv64>, x: bv64, y: bv64)
    requires |acc| == 8
    ensures Raised(Raised(acc, x), y) == Raised(acc, Plus(x, y))
  {
    hide Plus;
    forall a ensures Plus(Plus(a, x), y) == Plus(a, Plus(x, y)) {
      PlusAssoc(a, x, y);
    }
  }

  lemma PlusAssoc(a: bv64, x: bv64, y: bv64)
    ensures var u, v := a + x, x + y; Plus(a, x) == u && Plus(x, y) == v && Plus(u, y) == Plus(a, v)
  {
  }

  lemma NineGains()
    ensures Times(9) == 0x49610c54414da236 && Times(1) == GAIN
  {
    hide Times;
    NoTimes();
    NextGain(1, 0x0000000000000000, 0x08273a4240251206);
    NextGain(2, 0x08273a4240251206, 0x104e7484804a240c);
    NextGain(3, 0x104e7484804a240c, 0x1875aec6c06f3612);
    NextGain(4, 0x1875aec6c06f3612, 0x209ce90900944818);
    NextGain(5, 0x209ce90900944818, 0x28c4234b40b95a1e);
    NextGain(6, 0x28c4234b40b95a1e, 0x30eb5d8d80de6c24);
    NextGain(7, 0x30eb5d8d80de6c24, 0x391297cfc1037e2a);
    NextGain(8, 0x391297cfc1037e2a, 0x4139d21201289030);
    NextGain(9, 0x4139d21201289030, 0x49610c54414da236);
  }

  lemma NoTimes()
    ensures Times(0) == 0
  {
  }

  lemma NextGain(n: nat, t: bv64, u: bv64)
    requires n > 0 && Times(n - 1) == t && u == 0x08273a4240251206 + t
    ensures Times(n) == u
  {
  }

  lemma StartRaised(secret: seq<byte>)
    ensures Raised(Start(secret).acc, 0x49610c54414da236) ==
      [0x49610c5504005073, 0xe7988605c7396cbd, 0x0c13ba9169228d85, 0x5fb77405df851c2f,
       0xcf4cd6cc04005099, 0x49610c54c7396cad, 0x7135f78357a409fb, 0x49610c54df851be7]
  {
  }

  lemma ScrambledLanes(secret: seq<byte>)
    requires |secret| == 136 && Zeros(secret)
    ensures Scramble([0x49610c5504005073, 0xe7988605c7396cbd, 0x0c13ba9169228d85, 0x5fb77405df851c2f,
       0xcf4cd6cc04005099, 0x49610c54c7396cad, 0x7135f78357a409fb, 0x49610c54df851be7], secret) ==
      [0xb9aa09ff32934561, 0x940027440e8a3fcc, 0x80f3a8032b710702, 0x70e57f2de68698f1,
       0xb5f4ea7ae19d6e00, 0x941a3146543461bf, 0x059cd40e084dee90, 0xa31e14a9f6194f95]
  {
    hide XxHash64.Read, Zeros;
    ZerosRead(secret, 72);
    ZerosRead(secret, 80);
    ZerosRead(secret, 88);
    ZerosRead(secret, 96);
    ZerosRead(secret, 104);
    ZerosRead(secret, 112);
    ZerosRead(secret, 120);
    ZerosRead(secret, 128);
  }

  lemma LastRaises()
    ensures Raised(Raised([0xb9aa09ff32934561, 0x940027440e8a3fcc, 0x80f3a8032b710702, 0x70e57f2de68698f1,
       0xb5f4ea7ae19d6e00, 0x941a3146543461bf, 0x059cd40e084dee90, 0xa31e14a9f6194f95], GAIN), GAIN) ==
      [0xc9f87e83b2dd696d, 0xa44e9bc88ed463d8, 0x91421c87abbb2b0e, 0x8133f3b266d0bcfd,
       0xc6435eff61e7920c, 0xa468a5cad47e85cb, 0x15eb48928898129c, 0xb36c892e766373a1]
  {
  }

  /** 648 bytes under a secret of 136 zeros: nine stripes, a scramble, a tenth stripe and the last one. */
  lemma KnownLanes(secret: seq<byte>, s: seq<byte>)
    requires |secret| == 136 && Zeros(secret) && |s| == 648 && Counting(s)
    ensures LongAcc(secret, s) ==
      [0xc9f87e83b2dd696d, 0xa44e9bc88ed463d8, 0x91421c87abbb2b0e, 0x8133f3b266d0bcfd,
       0xc6435eff61e7920c, 0xa468a5cad47e85cb, 0x15eb48928898129c, 0xb36c892e766373a1]
  {
    hide Fold, Step, Row, Accumulate, Scramble, Start, Raised, Times, Zeros, Counting, LongAcc;
    StartLayout(secret);
    LastStripe(secret, s);
    CountingParts(s);
    var acc0 := Start(secret).acc;
    TakeRow(Progress(secret, acc0, 0), s, 0, 640, 9);
    CountingRow(acc0, s[0..0 + 64 * 9], secret, 0, 9);
    NineGains();
    StartRaised(secret);
    ScrambledLanes(secret);
    var acc1 := Scramble(Raised(acc0, Times(9)), secret);
    TakeRow(Progress(secret, acc1, 0), s, 576, 640, 1);
    CountingRow(acc1, s[576..576 + 64 * 1], secret, 0, 1);
    FoldShort(Step, 64, Progress(secret, Raised(acc1, GAIN), 1), s[640..640]);
    CountingStripe(Raised(acc1, GAIN), s[584..], secret, 65);
    LastRaises();
    assert s[0..640] == s[..640];
  }

  lemma CountingParts(s: seq<byte>)
    requires |s| == 648 && Counting(s)
    ensures Counting(s[0..0 + 64 * 9]) && Counting(s[576..576 + 64 * 1]) && Counting(s[584..])
  {
    forall i | 0 <= i < 64 ensures s[576..640][i] == PATTERN[i % 8] && s[584..][i] == PATTERN[i % 8] {
      assert s[576..640][i] == s[576 + i] && s[584..][i] == s[584 + i];
    }
  }

  lemma StartLayout(secret: seq<byte>)
    ensures Start(secret) == Progress(secret, Start(secret).acc, 0) && |Start(secret).acc| == 8
  {
  }

  /** Where short messages end and long ones begin. */
  lemma LongFrom241<T>(mixers: Mixers<T>, secret: seq<byte>, s: seq<byte>)
    requires |secret| >= 136
    ensures |s| == 240 ==> Hash(mixers, secret, s) == mixers.short(s)
    ensures |s| == 241 ==> Hash(mixers, secret, s) == mixers.merge(LongAcc(secret, s), 241)
  {
    hide LongAcc;
  }
}
