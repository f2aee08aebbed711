/** MurmurHash3 (x86, 32 bits) in progressive form: the carry word holds the bytes that do not
  * fill a block yet in its high end, and their number in its low bits.
  */
module Murmur32 {
  import opened NumberTheory
  import opened Words
  import opened Bytes
  import opened Blocks

  // ---------- Mixing ----------

  /** A word read at any address. */
  function Packed(s: seq<u8>): (w: u32)
    requires |s| <= 4
  {
    LittleEndianBound(s);
    LittleEndian(s)
  }

  function Bits(k: u32): bv32 { k as bv32 }

  function Spread(k: bv32): bv32 { (k * 0xcc9e2d51).RotateLeft(15) * 0x1b873593 }

  function Scatter(k: u32): bv32 { Spread(Bits(k)) }

  /** `DOBLOCK` */
  function MixBlock(h: bv32, k: u32): bv32 { (h ^ Scatter(k)).RotateLeft(13) * 5 + 0xe6546b64 }

  function Avalanche(h: bv32): bv32
  {
    var h := (h ^ (h >> 16)) * 0x85ebca6b;
    var h := (h ^ (h >> 13)) * 0xc2b2ae35;
    h ^ (h >> 16)
  }

  function Step(h: bv32, block: seq<u8>): bv32
  {
    if |block| != 4 then h else MixBlock(h, Packed(block))
  }

  /** The reference hash of a whole message. */
  function Hash(seed: bv32, s: seq<u8>, totalLength: bv32): bv32
  {
    var h := Fold(Step, 4, seed, s);
    var tail := Tail(s, 4);
    Avalanche((if |tail| > 0 then h ^ Scatter(Packed(tail)) else h) ^ totalLength)
  }

  // ---------- The carry ----------

  /** How many bytes are carried: the low two bits. */
  function Count(c: u32): nat { c % 4 }

  /** The `n` high bytes of `c`, which are the carried ones. */
  function High(c: u32, n: nat): (h: u32)
    requires n <= 4
  {
    SmallPlaces();
    c / Place(4 - n)
  }

  /** `c >> 8 | b << 24` */
  function Shifted(c: u32, b: u8): (r: u32)
    ensures r == c / 0x100 + b * 0x100_0000
  {
    Joined(b, c / 0x100, 3);
    Or(c / 0x100, b * 0x100_0000)
  }

  /** `w` shifted left by `n` bytes. */
  function Raised(w: u32, n: nat): (r: u32)
    requires n < 4
  {
    SmallPlaces();
    w * Place(n) % W32
  }

  /** The `n` high bytes of `c`, and the word `w` above them. */
  function Join(c: u32, w: u32, n: nat): (r: u32)
    requires 0 < n < 4
    ensures r == High(c, n) + Raised(w, n)
  {
    WordAbove(c, w, n);
    Or(High(c, n), Raised(w, n))
  }

  /** `(c & ~0xff) | n` */
  function WithCount(c: u32, n: nat): (r: u32)
    requires n < 4
    ensures r == c / 0x100 * 0x100 + n
  {
    Joined(c / 0x100, n, 1);
    Or(c / 0x100 * 0x100, n)
  }

  lemma Joined(hi: nat, lo: nat, n: nat)
    requires n <= 4 && lo < Place(n)
    ensures 0 <= hi * Place(n)
    ensures Or(lo, hi * Place(n)) == lo + hi * Place(n) == Or(hi * Place(n), lo)
  {
    hide Or, Place, Pow;
    BytePower(n);
    OrDisjoint(hi, lo, 8 * n);
  }

  lemma WordAbove(c: u32, w: u32, n: nat)
    requires 0 < n < 4
    ensures Or(High(c, n), Raised(w, n)) == High(c, n) + Raised(w, n) < W32
  {
    hide Or, Place, High, Raised;
    HighParts(c, w, n);
    Joined(w % Place(4 - n), High(c, n), n);
  }

  lemma HighParts(c: u32, w: u32, n: nat)
    requires 0 < n < 4
    ensures Place(4 - n) > 0 && High(c, n) < Place(n) && Raised(w, n) == w % Place(4 - n) * Place(n)
    ensures High(c, n) + Raised(w, n) < W32
  {
    hide Place, Raised, High;
    Places();
    HighAndRaised(c, w, n);
    if n == 1 {
      RaisedPart(w, 0x100_0000, 0x100);
    } else if n == 2 {
      RaisedPart(w, 0x1_0000, 0x1_0000);
    } else {
      RaisedPart(w, 0x100, 0x100_0000);
    }
  }

  lemma Places()
    ensures Place(1) == 0x100 && Place(2) == 0x1_0000 && Place(3) == 0x100_0000
  {
  }

  lemma HighAndRaised(c: u32, w: u32, n: nat)
    requires 0 < n < 4
    ensures Place(4 - n) > 0 && High(c, n) == c / Place(4 - n) < Place(n) && Raised(w, n) == w * Place(n) % W32
  {
  }

  /** Shifting up drops the high part, and leaves the low part a whole number of places up. */
  lemma RaisedPart(w: nat, p: nat, q: nat)
    requires p > 0 && q > 0 && p * q == W32
    ensures 0 <= w % p * q <= W32 - q && w * q % W32 == w % p * q
  {
    assert w == w % p + w / p * p;
    SplitAt(w % p, w / p, p, q);
    MulMonotone(w % p, p - 1, q);
    MulMonotone(0, w % p, q);
    MulSub(p, 1, q);
  }

  lemma CountStored(c: u32, n: nat)
    requires n < 4
    ensures Count(WithCount(c, n)) == n && High(WithCount(c, n), n) == High(c, n)
  {
    hide Or, WithCount, Place, High;
    var d: u32 := WithCount(c, n);
    KeptAbove(c / 0x100, n);
    HighByDivision(c, n);
    HighByDivision(d, n);
  }

  lemma KeptAbove(x: nat, n: nat)
    requires n < 4
    ensures (x * 0x100 + n) / 0x100 == x && (x * 0x100 + n) % 4 == n
  {
  }

  /** The carried bytes do not depend on the lowest one. */
  lemma HighByDivision(c: u32, n: nat)
    requires n < 4
    ensures High(c, n) == if n == 3 then c / 0x100 else if n == 2 then c / 0x100 / 0x100
      else if n == 1 then c / 0x100 / 0x1_0000 else 0
  {
  }

  lemma ShiftByte(c: u32, t: seq<u8>, b: u8)
    requires |t| < 4 && High(c, |t|) == Packed(t)
    ensures High(Shifted(c, b), |t| + 1) == Packed(t + [b])
  {
    hide LittleEndian, Pow;
    LittleEndianAppend(t, [b]);
    BytePower(|t|);
    OneByte(b);
    ShiftedHigh(c, b, |t|);
  }

  lemma OneByte(b: u8)
    ensures LittleEndian([b]) == b
  {
  }

  lemma ShiftedHigh(c: u32, b: u8, n: nat)
    requires n < 4
    ensures High(Shifted(c, b), n + 1) == High(c, n) + b * Place(n)
  {
    hide Shifted;
  }

  /** A whole word behind `|t|` carried bytes completes one block and leaves as many bytes over. */
  lemma ShiftWord(c: u32, t: seq<u8>, w: seq<u8>)
    requires 0 < |t| < 4 && |w| == 4 && High(c, |t|) == Packed(t)
    ensures Join(c, Packed(w), |t|) == Packed(t + w[..4 - |t|])
    ensures High(Packed(w), |t|) == Packed(w[4 - |t|..])
  {
    hide LittleEndian, Pow, Join, High, Place, Raised;
    var n := |t|;
    var low, high := w[..4 - n], w[4 - n..];
    assert w == low + high;
    LittleEndianBound(w);
    LittleEndianAppend(low, high);
    LittleEndianAppend(t, low);
    BytePower(n);
    BytePower(4 - n);
    WordSplit(LittleEndian(low), LittleEndian(high), n);
  }

  lemma WordSplit(low: nat, high: nat, n: nat)
    requires 0 < n < 4 && low < Place(4 - n) && low + high * Place(4 - n) < W32
    ensures var w := low + high * Place(4 - n); High(w, n) == high && Raised(w, n) == low * Place(n)
  {
    if n == 1 {
      SplitAt(low, high, 0x100_0000, 0x100);
    } else if n == 2 {
      SplitAt(low, high, 0x1_0000, 0x1_0000);
    } else {
      SplitAt(low, high, 0x100, 0x100_0000);
    }
  }

  lemma SplitAt(low: nat, high: nat, p: nat, q: nat)
    requires p * q == W32 && low < p && q > 0
    ensures 0 <= high * p && (low + high * p) / p == high && (low + high * p) * q % W32 == low * q
  {
    var w := low + high * p;
    MulMonotone(0, high, p);
    ModUnique(w, high, low, p);
    MulAssoc(high, p, q);
    ScaleSum(w, low, high * p, q);
    MulMonotone(0, low, q);
    MulMonotone(low + 1, p, q);
    MulSub(low + 1, 1, q);
    ModUnique(w * q, high, low * q, W32);
  }

  // ---------- Progress ----------

  /** `h`, `c` and `n` after the message `s`: the carried bytes are the tail, whatever lies below
    * them in the word. */
  ghost predicate Running(h: bv32, c: u32, n: nat, seed: bv32, s: seq<u8>)
  {
    h == Fold(Step, 4, seed, s) && n == |Tail(s, 4)| && High(c, n) == Packed(Tail(s, 4))
  }

  /** What a caller keeps between calls. */
  ghost predicate Saved(h: bv32, carry: u32, seed: bv32, s: seq<u8>)
  {
    Running(h, carry, Count(carry), seed, s)
  }

  lemma ByteCarried(h: bv32, c: u32, n: nat, seed: bv32, s: seq<u8>, b: u8)
    requires Running(h, c, n, seed, s)
    ensures n < 3 ==> Running(h, Shifted(c, b), n + 1, seed, s + [b])
    ensures n == 3 ==> forall c' :: Running(MixBlock(h, Shifted(c, b)), c', 0, seed, s + [b])
  {
    hide Fold, Tail, Shifted, MixBlock, Packed;
    var t := Tail(s, 4);
    FoldContinue(Step, 4, seed, s, [b]);
    ShiftByte(c, t, b);
    PackedEmpty();
    if n < 3 {
      FoldShort(Step, 4, h, t + [b]);
    } else {
      FoldFirst(Step, 4, h, t + [b]);
      FoldShort(Step, 4, Step(h, t + [b]), []);
      assert (t + [b])[..4] == t + [b] && (t + [b])[4..] == [];
    }
  }

  lemma PackedEmpty()
    ensures Packed([]) == 0
  {
  }

  /** `DOBYTES` */
  method DoBytes(h: bv32, c: u32, n: nat, input: seq<u8>, at: nat, cnt: nat, ghost seed: bv32, ghost s: seq<u8>)
    returns (h': bv32, c': u32, n': nat)
    requires Running(h, c, n, seed, s) && at + cnt <= |input|
    ensures Running(h', c', n', seed, s + input[at..at + cnt])
  {
    hide Running, Shifted, MixBlock, Scatter;
    RunningLayout(h, c, n, seed, s);
    h', c', n' := h, c, n;
    assert s + input[at..at] == s;
    for i := 0 to cnt
      invariant n' < 4
      invariant Running(h', c', n', seed, s + input[at..at + i])
    {
      ByteCarried(h', c', n', seed, s + input[at..at + i], input[at + i]);
      assert s + input[at..at + i] + [input[at + i]] == s + input[at..at + i + 1];
      c' := Shifted(c', input[at + i]);
      n' := n' + 1;
      if n' == 4 {
        h' := MixBlock(h', c');
        c' := Scatter(c') as u32;
        n' := 0;
      }
    }
  }

  lemma RunningLayout(h: bv32, c: u32, n: nat, seed: bv32, s: seq<u8>)
    requires Running(h, c, n, seed, s)
    ensures n == |Tail(s, 4)| < 4
  {
  }

  lemma WordCarried(h: bv32, c: u32, n: nat, seed: bv32, s: seq<u8>, w: seq<u8>)
    requires Running(h, c, n, seed, s) && |w| == 4
    ensures n == 0 ==> forall c' :: Running(MixBlock(h, Packed(w)), c', 0, seed, s + w)
    ensures 0 < n < 4 ==>
      Running(MixBlock(h, Join(c, Packed(w), n)), Packed(w), n, seed, s + w)
  {
    hide Fold, Tail, MixBlock, Packed, Join;
    var t := Tail(s, 4);
    FoldContinue(Step, 4, seed, s, w);
    FoldFirst(Step, 4, h, t + w);
    PackedEmpty();
    assert (t + w)[..4] == t + w[..4 - n] && (t + w)[4..] == w[4 - n..];
    FoldShort(Step, 4, Step(h, t + w[..4 - n]), w[4 - n..]);
    if n > 0 {
      ShiftWord(c, t, w);
    } else {
      assert t + w[..4] == w;
    }
  }

  /** The plain word loop: words are mixed as they are, which is right when nothing is carried. */
  method PlainWords(h: bv32, ghost c: u32, ghost n: nat, input: seq<u8>, at: nat, words: nat, ghost seed: bv32, ghost s: seq<u8>)
    returns (h': bv32)
    requires Running(h, c, n, seed, s) && at + 4 * words <= |input|
    requires n == 0 || words == 0
    ensures Running(h', c, n, seed, s + input[at..at + 4 * words])
  {
    hide Running, Packed, MixBlock, Join, High;
    h' := h;
    assert s + input[at..at] == s;
    for i := 0 to words
      invariant Running(h', c, n, seed, s + input[at..at + 4 * i])
    {
      var w := input[at + 4 * i..at + 4 * i + 4];
      WordCarried(h', c, n, seed, s + input[at..at + 4 * i], w);
      assert s + input[at..at + 4 * i] + w == s + input[at..at + 4 * (i + 1)];
      h' := MixBlock(h', Packed(w));
    }
  }

  /** The word loops that join each word with the bytes carried, which differ in their shifts. */
  method JoinedWords(h: bv32, c: u32, n: nat, input: seq<u8>, at: nat, words: nat, ghost seed: bv32, ghost s: seq<u8>)
    returns (h': bv32, c': u32)
    requires Running(h, c, n, seed, s) && 0 < n < 4 && at + 4 * words <= |input|
    ensures Running(h', c', n, seed, s + input[at..at + 4 * words])
  {
    hide Running, Packed, MixBlock, Join, High;
    h', c' := h, c;
    assert s + input[at..at] == s;
    for i := 0 to words
      invariant Running(h', c', n, seed, s + input[at..at + 4 * i])
    {
      var w := input[at + 4 * i..at + 4 * i + 4];
      WordCarried(h', c', n, seed, s + input[at..at + 4 * i], w);
      assert s + input[at..at + 4 * i] + w == s + input[at..at + 4 * (i + 1)];
      var k := Join(c', Packed(w), n);
      c' := Packed(w);
      h' := MixBlock(h', k);
    }
  }

  /** The end of `murmur32_process`: the bytes behind the last word, and the count stored in the carry. */
  method Finish(h: bv32, c: u32, n: nat, input: seq<u8>, end: nat, ghost seed: bv32, ghost s: seq<u8>)
    returns (h': bv32, carry': u32)
    requires end <= |input| && Running(h, c, n, seed, s + input[..end])
    ensures Saved(h', carry', seed, s + input)
  {
    hide Running;
    var c', n';
    h', c', n' := DoBytes(h, c, n, input, end, |input| - end, seed, s + input[..end]);
    assert s + input[..end] + input[end..|input|] == s + input;
    RunningLayout(h', c', n', seed, s + input);
    carry' := WithCount(c', n');
    SaveCount(h', c', n', seed, s + input);
  }

  lemma SaveCount(h: bv32, c: u32, n: nat, seed: bv32, s: seq<u8>)
    requires Running(h, c, n, seed, s) && n < 4
    ensures Saved(h, WithCount(c, n), seed, s)
  {
    hide High, WithCount, Count;
    CountStored(c, n);
  }

  /** The first bytes fill up the carry, or they are too few for any word to follow. */
  lemma NothingCarried(s: seq<u8>, input: seq<u8>, n: nat, i: nat)
    requires n == |Tail(s, 4)| && i == (4 - n) % 4
    ensures i <= |input| ==> |Tail(s + input[..i], 4)| == 0
    ensures i > |input| ==> |input| / 4 == 0
  {
    TailLength(s, 4);
    if i <= |input| {
      TailLength(s + input[..i], 4);
    }
  }

  /** `murmur32_process` where words may be read at any address: the carry is filled up first, so that
    * the word loop finds it empty. */
  method ProcessUnaligned(h: bv32, carry: u32, input: seq<u8>, ghost seed: bv32, ghost s: seq<u8>)
    returns (h': bv32, carry': u32)
    requires Saved(h, carry, seed, s)
    ensures Saved(h', carry', seed, s + input)
  {
    hide Running, Count;
    var c: u32, n: nat, at: nat := carry, Count(carry), 0;
    h' := h;
    RunningLayout(h, c, n, seed, s);
    var i := (4 - n) % 4;
    NothingCarried(s, input, n, i);
    assert s + input[..0] == s;
    if i != 0 && i <= |input| {
      h', c, n := DoBytes(h', c, n, input, 0, i, seed, s);
      RunningLayout(h', c, n, seed, s + input[..i]);
      at := i;
    }
    var words := (|input| - at) / 4;
    h' := PlainWords(h', c, n, input, at, words, seed, s + input[..at]);
    assert s + input[..at] + input[at..at + 4 * words] == s + input[..at + 4 * words];
    h', carry' := Finish(h', c, n, input, at + 4 * words, seed, s);
  }

  /** `murmur32_process` where words are read at aligned addresses only: bytes are taken up to an aligned
    * one, and the word loop is chosen by how many are carried then. */
  method ProcessAligned(h: bv32, carry: u32, input: seq<u8>, address: nat, ghost seed: bv32, ghost s: seq<u8>)
    returns (h': bv32, carry': u32)
    requires Saved(h, carry, seed, s)
    ensures Saved(h', carry', seed, s + input)
  {
    hide Running, Count;
    var c: u32, n: nat, at: nat := carry, Count(carry), 0;
    h' := h;
    var i := (4 - address % 4) % 4;
    assert s + input[..0] == s;
    if i != 0 && i <= |input| {
      h', c, n := DoBytes(h', c, n, input, 0, i, seed, s);
      at := i;
    }
    var words := (|input| - at) / 4;
    RunningLayout(h', c, n, seed, s + input[..at]);
    if n == 0 {
      h' := PlainWords(h', c, n, input, at, words, seed, s + input[..at]);
    } else {
      h', c := JoinedWords(h', c, n, input, at, words, seed, s + input[..at]);
    }
    assert s + input[..at] + input[at..at + 4 * words] == s + input[..at + 4 * words];
    h', carry' := Finish(h', c, n, input, at + 4 * words, seed, s);
  }

  /** `murmur32_result` */
  method Result(h: bv32, carry: u32, totalLength: bv32, ghost seed: bv32, ghost s: seq<u8>) returns (r: bv32)
    requires Saved(h, carry, seed, s)
    ensures r == Hash(seed, s, totalLength)
  {
    hide Fold, Tail, Packed, Scatter, Avalanche, High;
    r := h;
    var n := Count(carry);
    if n != 0 {
      r := r ^ Scatter(High(carry, n));
    }
    r := Avalanche(r ^ totalLength);
  }

  // ---------- Whole runs ----------

  /** How a call reads its words. */
  datatype Reading = Unaligned | Aligned(address: nat)

  /** Whatever the cuts, the carries and the alignment of the pieces, the hash is the reference. */
  method Stream(chunks: seq<(seq<u8>, Reading)>, seed: bv32, totalLength: bv32) returns (r: bv32)
    ensures r == Hash(seed, Message(chunks), totalLength)
  {
    hide Saved, Hash;
    var h: bv32, carry: u32 := seed, 0;
    StartSaved(seed);
    assert Message(chunks[..0]) == [];
    for i := 0 to |chunks|
      invariant Saved(h, carry, seed, Message(chunks[..i]))
    {
      MessageSnoc(chunks, i);
      match chunks[i].1
      case Unaligned =>
        h, carry := ProcessUnaligned(h, carry, chunks[i].0, seed, Message(chunks[..i]));
      case Aligned(address) =>
        h, carry := ProcessAligned(h, carry, chunks[i].0, address, seed, Message(chunks[..i]));
    }
    assert chunks[..|chunks|] == chunks;
    r := Result(h, carry, totalLength, seed, Message(chunks));
  }

  function Message(chunks: seq<(seq<u8>, Reading)>): seq<u8>
  {
    if chunks == [] then [] else Message(chunks[..|chunks| - 1]) + chunks[|chunks| - 1].0
  }

  lemma MessageSnoc(chunks: seq<(seq<u8>, Reading)>, i: nat)
    requires i < |chunks|
    ensures Message(chunks[..i + 1]) == Message(chunks[..i]) + chunks[i].0
  {
    assert chunks[..i + 1][..i] == chunks[..i];
  }

  lemma StartSaved(seed: bv32)
    ensures Saved(seed, 0, seed, [])
  {
  }

  // ---------- Known values ----------

  /** The words "hello", a block and a byte, and the empty message with a seed. */
  lemma KnownHello()
    ensures Hash(0, [0x68, 0x65, 0x6c, 0x6c, 0x6f], 5) == 0x248bfa47
  {
    hide MixBlock, Scatter, Avalanche, Packed, Fold, Tail;
    var s := [0x68, 0x65, 0x6c, 0x6c, 0x6f];
    assert s[..4] == [0x68, 0x65, 0x6c, 0x6c] && s[4..] == [0x6f];
    FoldFirst(Step, 4, 0, s);
    FoldShort(Step, 4, Step(0, s[..4]), [0x6f]);
    PackedHello();
    MixedHello();
  }

  lemma PackedHello()
    ensures Packed([0x68, 0x65, 0x6c, 0x6c]) == 0x6c6c6568 && Packed([0x6f]) == 0x6f
  {
    assert [0x68, 0x65, 0x6c, 0x6c][1..] == [0x65, 0x6c, 0x6c] && [0x65, 0x6c, 0x6c][1..] == [0x6c, 0x6c];
    assert [0x6c, 0x6c][1..] == [0x6c] && [0x6c][1..] == [];
    assert LittleEndian([0x6c, 0x6c]) == 0x6c6c;
  }

  lemma MixedHello()
    ensures Avalanche(MixBlock(0, 0x6c6c6568) ^ Scatter(0x6f) ^ 5) == 0x248bfa47
  {
    hide MixBlock, Scatter, Avalanche;
    ScatteredHello();
    BlockOfHello();
    AvalancheOfHello();
  }

  lemma ScatteredHello()
    ensures Scatter(0x6c6c6568) == 0xa0ae7465 && Scatter(0x6f) == 0x73bcd07e
  {
    hide Scatter;
    ScatteredWord();
    ScatteredByte();
  }

  lemma ScatteredWord()
    ensures Scatter(0x6c6c6568) == 0xa0ae7465
  {
    hide Bits, Spread;
    BitsOfHello();
    SpreadHello();
  }

  lemma ScatteredByte()
    ensures Scatter(0x6f) == 0x73bcd07e
  {
    hide Bits, Spread;
    BitsOfHello();
    SpreadHello();
  }

  lemma BitsOfHello()
    ensures Bits(0x6c6c6568) == 0x6c6c6568 && Bits(0x6f) == 0x6f
  {
  }

  lemma SpreadHello()
    ensures Spread(0x6c6c6568) == 0xa0ae7465 && Spread(0x6f) == 0x73bcd07e
  {
  }

  lemma BlockOfHello()
    ensures MixBlock(0, 0x6c6c6568) == 0xef13efcd
  {
    hide Scatter;
    ScatteredHello();
  }

  lemma AvalancheOfHello()
    ensures Avalanche(0x9caf3fb6) == 0x248bfa47
  {
  }

  lemma KnownEmpty()
    ensures Hash(1, [], 0) == 0x514e28b7
  {
    FoldShort(Step, 4, 1, []);
  }
}
