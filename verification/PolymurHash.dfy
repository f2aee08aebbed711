/** The PolymurHash polynomial: word loads that may overlap, and the proof that lazy reduction
  * never loses a bit, so that the hash is the intended polynomial in the key.
  */
module PolymurHash {
  import opened NumberTheory
  import opened Words
  import opened Bytes
  import opened PolymurGroup
  import opened Polymur

  // ---------- Loads ----------

  /** `polymur_load_le_u64` */
  function Load64(b: seq<u8>, at: nat): (v: u64)
    requires at + 8 <= |b|
  {
    LittleEndianBound(b[at..at + 8]);
    LittleEndian(b[at..at + 8])
  }

  function Load32(b: seq<u8>, at: nat): (v: u32)
    requires at + 4 <= |b|
  {
    LittleEndianBound(b[at..at + 4]);
    LittleEndian(b[at..at + 4])
  }

  /** The seven-byte word at `at`. */
  function Word(s: seq<u8>, at: nat): nat
    requires at + 7 <= |s|
  {
    LittleEndian(s[at..at + 7])
  }

  /** A load with its top byte masked off: the seven bytes at `at`. */
  function Low7(b: seq<u8>, at: nat): (v: u64)
    requires at + 8 <= |b|
    ensures v == Word(b, at) < B56
  {
    var w := b[at..at + 7];
    assert b[at..at + 8] == w + b[at + 7..at + 8];
    LittleEndianAppend(w, b[at + 7..at + 8]);
    LittleEndianBound(w);
    BytePower(7);
    ModUnique(Load64(b, at), LittleEndian(b[at + 7..at + 8]), LittleEndian(w), B56);
    Load64(b, at) % B56
  }

  /** A load with its low byte shifted out: the seven bytes after `at`. */
  function High7(b: seq<u8>, at: nat): (v: u64)
    requires at + 8 <= |b|
    ensures v == Word(b, at + 1) < B56
  {
    var w := b[at + 1..at + 8];
    assert b[at..at + 8] == b[at..at + 1] + w;
    LittleEndianBound(w);
    OneDigit(b[at..at + 1], w);
    Load64(b, at) / 0x100
  }

  lemma OneDigit(d: seq<u8>, w: seq<u8>)
    requires |d| == 1
    ensures LittleEndian(d + w) == d[0] + 0x100 * LittleEndian(w)
    ensures LittleEndian(d + w) / 0x100 == LittleEndian(w)
  {
    assert (d + w)[1..] == w;
  }

  /** `polymur_load_le_u64_0_8`: overlapping loads or-ed together give the plain value. */
  function Load0To8(b: seq<u8>, at: nat, len: nat): (v: u64)
    requires at + len <= |b| && len <= 8
    ensures v == LittleEndian(b[at..at + len])
  {
    if len == 0 then 0 else if len < 4 then LoadBelow4(b, at, len) else Load4To8(b, at, len)
  }

  function LoadBelow4(b: seq<u8>, at: nat, len: nat): (v: u64)
    requires at + len <= |b| && 1 <= len < 4
    ensures v == LittleEndian(b[at..at + len])
  {
    hide Or, Pow, LittleEndian, Place;
    var s := b[at..at + len];
    LittleEndianBound(s);
    ShortLoad(s);
    Or(Or(s[0], s[len / 2] * Place(len / 2)), s[len - 1] * Place(len - 1))
  }

  function Load4To8(b: seq<u8>, at: nat, len: nat): (v: u64)
    requires at + len <= |b| && 4 <= len <= 8
    ensures v == LittleEndian(b[at..at + len])
  {
    hide Or, Pow, LittleEndian, Place, Shl64;
    var s := b[at..at + len];
    assert b[at..at + 4] == s[..4] && b[at + len - 4..at + len - 4 + 4] == s[len - 4..];
    LittleEndianBound(s);
    OverlappingLoads(s);
    SmallPlaces();
    Or(Load32(b, at), Shl64(Load32(b, at + len - 4), Place(len - 4)))
  }

  lemma ShortLoad(s: seq<u8>)
    requires 1 <= |s| < 4
    ensures 0 <= s[|s| / 2] * Place(|s| / 2) && 0 <= s[|s| - 1] * Place(|s| - 1)
    ensures Or(Or(s[0], s[|s| / 2] * Place(|s| / 2)), s[|s| - 1] * Place(|s| - 1)) == LittleEndian(s)
  {
    hide Or, Pow, LittleEndian, Place;
    SmallPlaces();
    PowersOfTwo();
    Digits(s);
    if |s| == 1 {
      OrSelf(s[0]);
    } else if |s| == 2 {
      TwoDigits(s[0], s[1]);
    } else {
      ThreeDigits(s[0], s[1], s[2]);
    }
  }

  lemma TwoDigits(x: u8, y: u8)
    ensures Or(Or(x, y * 0x100), y * 0x100) == x + y * 0x100
  {
    hide Or, Pow;
    PowersOfTwo();
    OrSelf(y);
    OrDisjoint(y, x, 8);
    OrAbove(x, y, y, 8);
  }

  lemma ThreeDigits(x: u8, y: u8, z: u8)
    ensures Or(Or(x, y * 0x100), z * 0x1_0000) == x + y * 0x100 + z * 0x1_0000
  {
    hide Or, Pow;
    PowersOfTwo();
    OrDisjoint(y, x, 8);
    OrDisjoint(z, x + y * 0x100, 16);
  }

  lemma Digits(s: seq<u8>)
    requires 1 <= |s| <= 3
    ensures LittleEndian(s) == s[0] + (if |s| > 1 then s[1] * Place(1) else 0)
                               + (if |s| > 2 then s[2] * Place(2) else 0)
  {
    if |s| == 3 {
      assert s[1..][1..] == [s[2]];
    }
  }

  lemma OrSelf(x: u8)
    ensures Or(x, x) == x && Or(x, x * 1) == x
  {
    PowersOfTwo();
    hide Or, Pow;
    OrOverlap(x, 0, 8);
    assert x + 0 * Pow(2, 8) == x;
  }

  /** The two loads share their middle bytes, and agree on them. */
  lemma OverlappingLoads(s: seq<u8>)
    requires 4 <= |s| <= 8
    ensures LittleEndian(s[..4]) < W32 && LittleEndian(s[|s| - 4..]) < W32
    ensures Or(LittleEndian(s[..4]), Shl64(LittleEndian(s[|s| - 4..]), Place(|s| - 4))) == LittleEndian(s)
  {
    hide Or, LittleEndian, Pow, Shl64, Place;
    SmallPlaces();
    var k, n := |s| - 4, |s|;
    var low, mid, top := s[..k], s[k..4], s[4..];
    LittleEndianBound(s[..4]);
    LittleEndianBound(s[k..]);
    LittleEndianAppend(low, mid);
    LittleEndianAppend(mid, top);
    LittleEndianAppend(low, s[k..]);
    assert s[..4] == low + mid && s[k..] == mid + top && s == low + s[k..];
    OrOverlap(LittleEndian(mid), LittleEndian(top), 8 * (4 - k));
    OrAbove(LittleEndian(low), LittleEndian(mid), LittleEndian(s[k..]), 8 * k);
    BytePower(k);
    ShiftFits(LittleEndian(s[k..]), Place(k));
  }

  lemma ShiftFits(x: u32, p: nat)
    requires 1 <= p <= W32
    ensures Shl64(x, p) == x * p
  {
    MulBound(x, W32 - 1, p, W32);
    ModUnique(x * p, 0, x * p, W64);
  }

  // ---------- The polynomial ----------

  /** What a 49-byte block adds to the polynomial, and what it does to the value so far. */
  function BlockPoly(k: int, h: int, s: seq<u8>): int
    requires |s| >= 49
  {
    (k + Word(s, 0)) * (Pow(k, 6) + Word(s, 7)) +
    (Pow(k, 2) + Word(s, 14)) * (Pow(k, 5) + Word(s, 21)) +
    (Pow(k, 3) + Word(s, 28)) * (Pow(k, 4) + Word(s, 35)) +
    (h + Word(s, 42)) * Pow(k, 7)
  }

  function BlockCount(n: nat): nat { if n >= 50 then (n - 1) / 49 else 0 }

  /** Blocks are weighted by powers of k^7, the last one by one. */
  function BlockSum(k: int, s: seq<u8>): int
  {
    if |s| < 50 then 0
    else BlockPoly(k, 0, s) * Pow(k, 7 * (BlockCount(|s|) - 1)) + BlockSum(k, s[49..])
  }

  /** The terms of a tail of eight bytes or more. */
  function FirstTerm(k: int, s: seq<u8>): int
    requires |s| >= 8
  {
    (Pow(k, 2) + Word(s, 0)) * (Pow(k, 7) + Word(s, (|s| - 7) / 2))
  }

  function LastTerm(k: int, s: seq<u8>): int
    requires |s| >= 8
  {
    (k + Word(s, |s| - 7)) * (Pow(k, 3) + |s|)
  }

  function MiddleTerm(k: int, s: seq<u8>): int
    requires |s| >= 22
  {
    (Pow(k, 2) + Word(s, 7)) * (Pow(k, 7) + Word(s, 14))
  }

  function CrossTerm(k: int, s: seq<u8>): int
    requires |s| >= 22
  {
    (FirstTerm(k, s) + Word(s, |s| - 21)) * (Pow(k, 4) + Word(s, |s| - 14))
  }

  function TailPoly(k: int, s: seq<u8>): int
    requires |s| < 50
  {
    if |s| <= 7 then (k + LittleEndian(s)) * (Pow(k, 2) + |s|)
    else if |s| <= 21 then FirstTerm(k, s) + LastTerm(k, s)
    else LastTerm(k, s) + MiddleTerm(k, s) + CrossTerm(k, s)
  }

  /** The polynomial a message stands for, over the integers. */
  function Poly(k: int, s: seq<u8>): int
  {
    BlockSum(k, s) * Pow(k, 14) + TailPoly(k, s[49 * BlockCount(|s|)..])
  }

  // ---------- No operation wraps ----------

  const NARROW := B61 + B56 + 1

  function FourProducts(x0: int, y0: int, x1: int, y1: int, x2: int, y2: int, x3: int, y3: int): int
  {
    x0 * y0 + x1 * y1 + x2 * y2 + x3 * y3
  }

  /** Four products of a block: three of narrow factors, one of any word with k^7. */
  lemma BlockFits(x0: u64, y0: u64, x1: u64, y1: u64, x2: u64, y2: u64, x3: u64, k7: u64)
    requires x0 <= NARROW && y0 <= NARROW && x1 <= NARROW && y1 <= NARROW
    requires x2 <= NARROW && y2 <= NARROW && k7 < B60 - B56
    ensures var s := Add128(Add128(Mul128(x0, y0), Mul128(x1, y1)), Add128(Mul128(x2, y2), Mul128(x3, k7)));
      && s == FourProducts(x0, y0, x1, y1, x2, y2, x3, k7)
      && Red611(s) < W64 - B56 && Cong(Red611(s), s, P611)
  {
    hide Red611, Add128, Cong;
    MulBound(x0, NARROW, y0, NARROW);
    MulBound(x1, NARROW, y1, NARROW);
    MulBound(x2, NARROW, y2, NARROW);
    MulBound(x3, W64 - 1, k7, B60 - B56 - 1);
    FourFit(Mul128(x0, y0), Mul128(x1, y1), Mul128(x2, y2), Mul128(x3, k7));
  }

  lemma FourFit(t0: u128, t1: u128, t2: u128, t3: u128)
    requires t0 <= NARROW * NARROW && t1 <= NARROW * NARROW && t2 <= NARROW * NARROW
    requires t3 <= (W64 - 1) * (B60 - B56 - 1)
    ensures var s := Add128(Add128(t0, t1), Add128(t2, t3));
      s == t0 + t1 + t2 + t3 && Red611(s) < W64 - B56 && Cong(Red611(s), s, P611)
  {
    hide Red611, Cong;
    var s := t0 + t1 + t2 + t3;
    ModUnique(s, 0, s, W128);
    ModUnique(t0 + t1, 0, t0 + t1, W128);
    ModUnique(t2 + t3, 0, t2 + t3, W128);
    DivMonotone(s, 3 * (NARROW * NARROW) + (W64 - 1) * (B60 - B56 - 1), B61);
    Red611Exact(s);
  }

  lemma FactorsCong(a: int, x: int, m: int, b: int, y: int, n: int)
    requires Cong(a, x, P611) && Cong(b, y, P611)
    ensures Cong((a + m) * (b + n), (x + m) * (y + n), P611)
  {
    CongAdd(a, x, m, m, P611);
    CongAdd(b, y, n, n, P611);
    CongMul(a + m, x + m, b + n, y + n, P611);
  }

  /** The powers held beside the key while blocks are read. */
  ghost predicate Powers(p: Params, k3: u64, k4: u64, k5: u64, k6: u64)
  {
    && GoodKey(p)
    && k3 <= B61 + 2 && k4 <= B61 + 2 && k5 <= B61 + 2 && k6 <= B61 + 2
    && Cong(k3, Pow(p.k, 3), P611) && Cong(k4, Pow(p.k, 4), P611)
    && Cong(k5, Pow(p.k, 5), P611) && Cong(k6, Pow(p.k, 6), P611)
  }

  method LoadBlock(buf: seq<u8>, at: nat)
    returns (m0: u64, m1: u64, m2: u64, m3: u64, m4: u64, m5: u64, m6: u64)
    requires at + 50 <= |buf|
    ensures var s := buf[at..];
      && m0 == Word(s, 0) < B56 && m1 == Word(s, 7) < B56 && m2 == Word(s, 14) < B56 && m3 == Word(s, 21) < B56
      && m4 == Word(s, 28) < B56 && m5 == Word(s, 35) < B56 && m6 == Word(s, 42) < B56
  {
    hide Word, Low7;
    BlockWords(buf, at);
    m0, m1, m2, m3 := Low7(buf, at), Low7(buf, at + 7), Low7(buf, at + 14), Low7(buf, at + 21);
    m4, m5, m6 := Low7(buf, at + 28), Low7(buf, at + 35), Low7(buf, at + 42);
  }

  /** One round of the block loop. */
  method HashBlock(buf: seq<u8>, at: nat, p: Params, k3: u64, k4: u64, k5: u64, k6: u64, h: u64)
    returns (h': u64)
    requires at + 50 <= |buf| && h < W64 - B56 && Powers(p, k3, k4, k5, k6)
    ensures h' < W64 - B56 && Cong(h', BlockPoly(p.k, h, buf[at..]), P611)
  {
    hide Red611, Pow, Mul128, Add128, Cong, Word, Low7, GoodKey, BlockPoly, Wrap64, FourProducts;
    ghost var s := buf[at..];
    GoodKeyLayout(p);
    var m0, m1, m2, m3, m4, m5, m6 := LoadBlock(buf, at);
    SumsFit(p.k, m0, k6, m1);
    SumsFit(p.k2, m2, k5, m3);
    SumsFit(k3, m4, k4, m5);
    SumFits(h, m6);
    var x0: u64, y0: u64 := Wrap64(p.k + m0), Wrap64(k6 + m1);
    var x1: u64, y1: u64 := Wrap64(p.k2 + m2), Wrap64(k5 + m3);
    var x2: u64, y2: u64 := Wrap64(k3 + m4), Wrap64(k4 + m5);
    var x3: u64 := Wrap64(h + m6);
    var t0, t1, t2, t3 := Mul128(x0, y0), Mul128(x1, y1), Mul128(x2, y2), Mul128(x3, p.k7);
    h' := Red611(Add128(Add128(t0, t1), Add128(t2, t3)));
    BlockFits(x0, y0, x1, y1, x2, y2, x3, p.k7);
    BlockCong(p, k3, k4, k5, k6, h, s);
    CongTrans(h', FourProducts(x0, y0, x1, y1, x2, y2, x3, p.k7), BlockPoly(p.k, h, s), P611);
  }

  lemma SumFits(h: u64, m: u64)
    requires h < W64 - B56 && m < B56
    ensures Wrap64(h + m) == h + m
  {
    ModUnique(h + m, 0, h + m, W64);
  }

  lemma SumsFit(a: u64, m: u64, b: u64, n: u64)
    requires a <= B61 + 2 && m < B56 && b <= B61 + 2 && n < B56
    ensures Wrap64(a + m) == a + m <= NARROW && Wrap64(b + n) == b + n <= NARROW
  {
    SumFits(a, m);
    SumFits(b, n);
  }

  lemma WordShift(s: seq<u8>, at: nat, i: nat)
    requires at + i + 7 <= |s|
    ensures Word(s, at + i) == Word(s[at..], i)
  {
    assert s[at + i..at + i + 7] == s[at..][i..i + 7];
  }

  lemma BlockWords(s: seq<u8>, at: nat)
    requires at + 49 <= |s|
    ensures Word(s, at) == Word(s[at..], 0) && Word(s, at + 7) == Word(s[at..], 7)
    ensures Word(s, at + 14) == Word(s[at..], 14) && Word(s, at + 21) == Word(s[at..], 21)
    ensures Word(s, at + 28) == Word(s[at..], 28) && Word(s, at + 35) == Word(s[at..], 35)
    ensures Word(s, at + 42) == Word(s[at..], 42)
  {
    hide Word;
    WordShift(s, at, 0);
    WordShift(s, at, 7);
    WordShift(s, at, 14);
    WordShift(s, at, 21);
    WordShift(s, at, 28);
    WordShift(s, at, 35);
    WordShift(s, at, 42);
  }

  lemma BlockCong(p: Params, k3: u64, k4: u64, k5: u64, k6: u64, h: u64, s: seq<u8>)
    requires |s| >= 49 && Powers(p, k3, k4, k5, k6)
    ensures Cong(FourProducts(p.k + Word(s, 0), k6 + Word(s, 7), p.k2 + Word(s, 14), k5 + Word(s, 21),
                              k3 + Word(s, 28), k4 + Word(s, 35), h + Word(s, 42), p.k7),
                 BlockPoly(p.k, h, s), P611)
  {
    hide Pow, Word, GoodKey, Cong;
    CongMod(p.k, P611);
    CongRefl(p.k, P611);
    CongRefl(h + Word(s, 42), P611);
    GoodKeyLayout(p);
    FactorsCong(p.k, p.k, Word(s, 0), k6, Pow(p.k, 6), Word(s, 7));
    FactorsCong(p.k2, Pow(p.k, 2), Word(s, 14), k5, Pow(p.k, 5), Word(s, 21));
    FactorsCong(k3, Pow(p.k, 3), Word(s, 28), k4, Pow(p.k, 4), Word(s, 35));
    CongMul(h + Word(s, 42), h + Word(s, 42), p.k7, Pow(p.k, 7), P611);
    FourSums((p.k + Word(s, 0)) * (k6 + Word(s, 7)), (p.k2 + Word(s, 14)) * (k5 + Word(s, 21)),
      (k3 + Word(s, 28)) * (k4 + Word(s, 35)), (h + Word(s, 42)) * p.k7,
      (p.k + Word(s, 0)) * (Pow(p.k, 6) + Word(s, 7)), (Pow(p.k, 2) + Word(s, 14)) * (Pow(p.k, 5) + Word(s, 21)),
      (Pow(p.k, 3) + Word(s, 28)) * (Pow(p.k, 4) + Word(s, 35)), (h + Word(s, 42)) * Pow(p.k, 7));
  }

  lemma GoodKeyLayout(p: Params)
    requires GoodKey(p)
    ensures p.k <= B61 + 2 && p.k2 <= B61 + 2 && p.k7 < B60 - B56
    ensures Cong(p.k2, Pow(p.k, 2), P611) && Cong(p.k7, Pow(p.k, 7), P611)
  {
  }

  lemma FourSums(a: int, b: int, c: int, d: int, a': int, b': int, c': int, d': int)
    requires Cong(a, a', P611) && Cong(b, b', P611) && Cong(c, c', P611) && Cong(d, d', P611)
    ensures Cong(a + b + c + d, a' + b' + c' + d', P611)
  {
    hide Cong;
    CongAdd(a, a', b, b', P611);
    CongAdd(a + b, a' + b', c, c', P611);
    CongAdd(a + b + c, a' + b' + c', d, d', P611);
  }

  // ---------- The block loop ----------

  /** One round moves the value so far one power of k^7 up and adds the block. */
  lemma RoundSum(k: int, h: int, h': int, s: seq<u8>)
    requires |s| >= 50 && Cong(h', BlockPoly(k, h, s), P611)
    ensures Cong(h' * Pow(k, 7 * BlockCount(|s| - 49)) + BlockSum(k, s[49..]),
                 h * Pow(k, 7 * BlockCount(|s|)) + BlockSum(k, s), P611)
  {
    hide Pow, Word, Cong, BlockPoly;
    var c := BlockCount(|s| - 49);
    assert BlockCount(|s|) == c + 1;
    var q := Pow(k, 7 * c);
    BlockPolySplit(k, h, s);
    PowAdd(k, 7, 7 * c);
    MulAssoc(h, Pow(k, 7), q);
    MulSub(BlockPoly(k, h, s), BlockPoly(k, 0, s), q);
    CongRefl(q, P611);
    CongRefl(BlockSum(k, s[49..]), P611);
    CongMul(h', BlockPoly(k, h, s), q, q, P611);
    CongAdd(h' * q, BlockPoly(k, h, s) * q, BlockSum(k, s[49..]), BlockSum(k, s[49..]), P611);
  }

  lemma BlockPolySplit(k: int, h: int, s: seq<u8>)
    requires |s| >= 49
    ensures BlockPoly(k, h, s) - BlockPoly(k, 0, s) == h * Pow(k, 7)
  {
    hide Pow, Word;
    MulSub(h + Word(s, 42), 0 + Word(s, 42), Pow(k, 7));
  }

  method HashBlocks(buf: seq<u8>, p: Params, k3: u64, k4: u64, k5: u64, k6: u64)
    returns (h: u64, at: nat)
    requires |buf| >= 50 && Powers(p, k3, k4, k5, k6)
    ensures at == 49 * BlockCount(|buf|) && |buf| - 49 <= at < |buf|
    ensures Cong(h, BlockSum(p.k, buf), P611)
  {
    hide Pow, Cong, BlockSum, BlockPoly, Powers, BlockCount;
    CountStep(|buf|);
    h, at := 0, 0;
    var len := |buf|;
    assert buf[0..] == buf;
    CongRefl(BlockSum(p.k, buf), P611);
    while len >= 50
      invariant 0 < len == |buf| - at && h < W64 - B56
      invariant at == 49 * (BlockCount(|buf|) - BlockCount(len))
      invariant Cong(h * Pow(p.k, 7 * BlockCount(len)) + BlockSum(p.k, buf[at..]), BlockSum(p.k, buf), P611)
    {
      ghost var s := buf[at..];
      ghost var h0 := h;
      CountStep(len);
      h := HashBlock(buf, at, p, k3, k4, k5, k6, h);
      RoundSum(p.k, h0, h, s);
      assert s[49..] == buf[at + 49..];
      CongTrans(h * Pow(p.k, 7 * BlockCount(len - 49)) + BlockSum(p.k, buf[at + 49..]),
        h0 * Pow(p.k, 7 * BlockCount(len)) + BlockSum(p.k, s), BlockSum(p.k, buf), P611);
      len := len - 49;
      at := at + 49;
    }
    CountStep(len);
    NoBlocks(p.k, h, buf[at..]);
  }

  lemma CountStep(n: nat)
    ensures if n < 50 then BlockCount(n) == 0 else BlockCount(n) == BlockCount(n - 49) + 1
  {
  }

  lemma NoBlocks(k: int, h: int, s: seq<u8>)
    requires |s| < 50
    ensures h * Pow(k, 7 * BlockCount(|s|)) + BlockSum(k, s) == h
  {
  }

  // ---------- The tail ----------

  /** At most seven bytes are left. */
  method ShortTail(buf: seq<u8>, at: nat, p: Params) returns (r: u64)
    requires at <= |buf| <= at + 7 && GoodKey(p)
    ensures r < 7 * B61 - 7 && Cong(r, TailPoly(p.k, buf[at..]), P611)
  {
    hide Pow, Cong, Red611, Mul128, Wrap64, LittleEndian;
    var len := |buf| - at;
    assert buf[at..at + len] == buf[at..];
    LittleEndianBound(buf[at..]);
    var m0 := Load0To8(buf, at, len);
    SumsFit(p.k, m0, p.k2, len);
    r := Red611(Mul128(Wrap64(p.k + m0), Wrap64(p.k2 + len)));
    RedMul(p.k + m0, NARROW, p.k2 + len, NARROW);
    CongRefl(p.k, P611);
    FactorsCong(p.k, p.k, m0, p.k2, Pow(p.k, 2), len);
    CongTrans(r, (p.k + m0) * (p.k2 + len), TailPoly(p.k, buf[at..]), P611);
  }

  const WIDE := 2 * B61 + B56 + 5

  /** A product of two factors of the tail, the second one of them perhaps reduced only once. */
  lemma TailProduct(a: u64, a': int, m: u64, b: u64, b': int, n: u64)
    requires a <= B61 + 2 && m < B56 && b <= 2 * B61 + 4 && n < B56
    requires Cong(a, a', P611) && Cong(b, b', P611)
    ensures Wrap64(a + m) == a + m && Wrap64(b + n) == b + n
    ensures Mul128(a + m, b + n) <= NARROW * WIDE
    ensures b < B60 - B56 ==> Mul128(a + m, b + n) <= NARROW * B60
    ensures Cong(Mul128(a + m, b + n), (a' + m) * (b' + n), P611)
  {
    SumFits(a, m);
    SumFits(b, n);
    MulBound(a + m, NARROW, b + n, WIDE);
    if b < B60 - B56 {
      MulBound(a + m, NARROW, b + n, B60);
    }
    FactorsCong(a, a', m, b, b', n);
  }

  lemma TwoProductsFit(t0: u128, t1: u128)
    requires t0 <= NARROW * B60 && t1 <= NARROW * WIDE
    ensures Red611(t0) <= B61 + B60 + B56 && Cong(Red611(t0), t0, P611)
    ensures Add128(t0, t1) == t0 + t1
    ensures Red611(t0 + t1) < 7 * B61 - 7 && Cong(Red611(t0 + t1), t0 + t1, P611)
  {
    hide Red611;
    ModUnique(t0 + t1, 0, t0 + t1, W128);
    DivMonotone(t0, NARROW * B60, B61);
    DivMonotone(t0 + t1, NARROW * B60 + NARROW * WIDE, B61);
    Red611Exact(t0);
    Red611Exact(t0 + t1);
  }

  lemma ThreeProductsFit(t1: u128, t2: u128, t3: u128)
    requires t1 <= NARROW * WIDE && t2 <= NARROW * B60 && t3 <= (B61 + B60 + 2 * B56) * WIDE
    ensures Add128(Add128(t1, t2), t3) == t1 + t2 + t3
    ensures Red611(t1 + t2 + t3) < 7 * B61 - 7 && Cong(Red611(t1 + t2 + t3), t1 + t2 + t3, P611)
  {
    hide Red611;
    var s := t1 + t2 + t3;
    ModUnique(t1 + t2, 0, t1 + t2, W128);
    ModUnique(s, 0, s, W128);
    DivMonotone(s, NARROW * B60 + NARROW * WIDE + (B61 + B60 + 2 * B56) * WIDE, B61);
    Red611Exact(s);
  }

  lemma FirstProduct(p: Params, s: seq<u8>, m0: u64, m1: u64)
    requires GoodKey(p) && |s| >= 8 && m0 == Word(s, 0) < B56 && m1 == Word(s, (|s| - 7) / 2) < B56
    ensures var t := Mul128(Wrap64(p.k2 + m0), Wrap64(p.k7 + m1));
      t <= NARROW * B60 && Cong(t, FirstTerm(p.k, s), P611)
  {
    hide Pow, Cong, Mul128, Wrap64, Word, GoodKey;
    GoodKeyLayout(p);
    TailProduct(p.k2, Pow(p.k, 2), m0, p.k7, Pow(p.k, 7), m1);
  }

  lemma LastProduct(p: Params, s: seq<u8>, m2: u64, k3: u64)
    requires GoodKey(p) && 8 <= |s| < 50 && m2 == Word(s, |s| - 7) < B56
    requires k3 <= 2 * B61 + 4 && Cong(k3, Pow(p.k, 3), P611)
    ensures var t := Mul128(Wrap64(p.k + m2), Wrap64(k3 + |s|));
      t <= NARROW * WIDE && Cong(t, LastTerm(p.k, s), P611)
  {
    hide Pow, Cong, Mul128, Wrap64, Word, GoodKey;
    GoodKeyLayout(p);
    CongRefl(p.k, P611);
    TailProduct(p.k, p.k, m2, k3, Pow(p.k, 3), |s|);
  }

  lemma MiddleProduct(p: Params, s: seq<u8>, m3: u64, m4: u64)
    requires GoodKey(p) && |s| >= 22 && m3 == Word(s, 7) < B56 && m4 == Word(s, 14) < B56
    ensures var t := Mul128(Wrap64(p.k2 + m3), Wrap64(p.k7 + m4));
      t <= NARROW * B60 && Cong(t, MiddleTerm(p.k, s), P611)
  {
    hide Pow, Cong, Mul128, Wrap64, Word, GoodKey;
    GoodKeyLayout(p);
    TailProduct(p.k2, Pow(p.k, 2), m3, p.k7, Pow(p.k, 7), m4);
  }

  lemma CrossProduct(k: u64, s: seq<u8>, t0r: u64, m5: u64, k4: u64, m6: u64)
    requires |s| >= 22 && m5 == Word(s, |s| - 21) < B56 && m6 == Word(s, |s| - 14) < B56
    requires t0r <= B61 + B60 + B56 && Cong(t0r, FirstTerm(k, s), P611)
    requires k4 <= 2 * B61 + 4 && Cong(k4, Pow(k, 4), P611)
    ensures var t := Mul128(Wrap64(t0r + m5), Wrap64(k4 + m6));
      t <= (B61 + B60 + 2 * B56) * WIDE && Cong(t, CrossTerm(k, s), P611)
  {
    hide Pow, Cong, Wrap64, Word, FirstTerm;
    SumFits(t0r, m5);
    SumFits(k4, m6);
    MulBound(t0r + m5, B61 + B60 + 2 * B56, k4 + m6, WIDE);
    FactorsCong(t0r, FirstTerm(k, s), m5, k4, Pow(k, 4), m6);
  }

  /** Eight to forty-nine bytes are left. */
  method LongTail(buf: seq<u8>, at: nat, p: Params, k3: u64, k4: u64) returns (r: u64)
    requires at + 8 <= |buf| <= at + 49 && GoodKey(p)
    requires k3 <= 2 * B61 + 4 && Cong(k3, Pow(p.k, 3), P611)
    requires k4 <= 2 * B61 + 4 && Cong(k4, Pow(p.k, 4), P611)
    ensures r < 7 * B61 - 7 && Cong(r, TailPoly(p.k, buf[at..]), P611)
  {
    hide Pow, Cong, Red611, Mul128, Add128, Wrap64, Word, Low7, High7, GoodKey, FirstTerm, LastTerm, TailPoly;
    ghost var s := buf[at..];
    var len := |buf| - at;
    var m0, m1, m2 := LoadEnds(buf, at);
    FirstProduct(p, s, m0, m1);
    LastProduct(p, s, m2, k3);
    var t0 := Mul128(Wrap64(p.k2 + m0), Wrap64(p.k7 + m1));
    var t1 := Mul128(Wrap64(p.k + m2), Wrap64(k3 + len));
    TwoProductsFit(t0, t1);
    if len <= 21 {
      r := Red611(Add128(t0, t1));
      TwoTermsCong(p.k, s, t0, t1);
      CongTrans(r, t0 + t1, TailPoly(p.k, s), P611);
    } else {
      var t0r := Red611(t0);
      CongTrans(t0r, t0, FirstTerm(p.k, s), P611);
      r := LongestTail(buf, at, p, k4, t0r, t1);
    }
  }

  method LoadEnds(buf: seq<u8>, at: nat) returns (m0: u64, m1: u64, m2: u64)
    requires at + 8 <= |buf|
    ensures var s := buf[at..];
      m0 == Word(s, 0) < B56 && m1 == Word(s, (|s| - 7) / 2) < B56 && m2 == Word(s, |s| - 7) < B56
  {
    hide Word, Low7, High7;
    var len := |buf| - at;
    m0 := Low7(buf, at);
    m1 := Low7(buf, at + (len - 7) / 2);
    m2 := High7(buf, at + len - 8);
    WordShift(buf, at, 0);
    WordShift(buf, at, (len - 7) / 2);
    WordShift(buf, at, len - 7);
  }

  lemma TwoTermsCong(k: u64, s: seq<u8>, t0: u128, t1: u128)
    requires 8 <= |s| <= 21
    requires Cong(t0, FirstTerm(k, s), P611) && Cong(t1, LastTerm(k, s), P611)
    ensures Cong(t0 + t1, TailPoly(k, s), P611)
  {
    hide Cong, FirstTerm, LastTerm;
    CongAdd(t0, FirstTerm(k, s), t1, LastTerm(k, s), P611);
  }

  method LoadTail(buf: seq<u8>, at: nat) returns (m3: u64, m4: u64, m5: u64, m6: u64)
    requires at + 22 <= |buf|
    ensures var s := buf[at..];
      m3 == Word(s, 7) < B56 && m4 == Word(s, 14) < B56 && m5 == Word(s, |s| - 21) < B56 && m6 == Word(s, |s| - 14) < B56
  {
    hide Word, Low7;
    var len := |buf| - at;
    m3, m4 := Low7(buf, at + 7), Low7(buf, at + 14);
    m5, m6 := Low7(buf, at + len - 21), Low7(buf, at + len - 14);
    WordShift(buf, at, 7);
    WordShift(buf, at, 14);
    WordShift(buf, at, len - 21);
    WordShift(buf, at, len - 14);
  }

  method LongestTail(buf: seq<u8>, at: nat, p: Params, k4: u64, t0r: u64, t1: u128) returns (r: u64)
    requires at + 22 <= |buf| <= at + 49 && GoodKey(p)
    requires k4 <= 2 * B61 + 4 && Cong(k4, Pow(p.k, 4), P611)
    requires t0r <= B61 + B60 + B56 && t1 <= NARROW * WIDE
    requires Cong(t0r, FirstTerm(p.k, buf[at..]), P611) && Cong(t1, LastTerm(p.k, buf[at..]), P611)
    ensures r < 7 * B61 - 7 && Cong(r, TailPoly(p.k, buf[at..]), P611)
  {
    hide Pow, Cong, Red611, Mul128, Add128, Wrap64, Word, GoodKey;
    hide FirstTerm, LastTerm, MiddleTerm, CrossTerm, TailPoly;
    ghost var s := buf[at..];
    var m3, m4, m5, m6 := LoadTail(buf, at);
    MiddleProduct(p, s, m3, m4);
    CrossProduct(p.k, s, t0r, m5, k4, m6);
    var t2 := Mul128(Wrap64(p.k2 + m3), Wrap64(p.k7 + m4));
    var t3 := Mul128(Wrap64(t0r + m5), Wrap64(k4 + m6));
    r := Red611(Add128(Add128(t1, t2), t3));
    ThreeProductsFit(t1, t2, t3);
    ThreeTermsCong(p.k, s, t1, t2, t3);
    CongTrans(r, t1 + t2 + t3, TailPoly(p.k, s), P611);
  }

  lemma ThreeTermsCong(k: u64, s: seq<u8>, t1: u128, t2: u128, t3: u128)
    requires 22 <= |s| <= 49 && Cong(t1, LastTerm(k, s), P611)
    requires Cong(t2, MiddleTerm(k, s), P611) && Cong(t3, CrossTerm(k, s), P611)
    ensures Cong(t1 + t2 + t3, TailPoly(k, s), P611)
  {
    hide Cong, FirstTerm, LastTerm, MiddleTerm, CrossTerm;
    CongAdd(t1, LastTerm(k, s), t2, MiddleTerm(k, s), P611);
    CongAdd(t1 + t2, LastTerm(k, s) + MiddleTerm(k, s), t3, CrossTerm(k, s), P611);
  }

  // ---------- The whole hash ----------

  /** `k3` to `k6` as they are when blocks are read. */
  method MorePowers(p: Params) returns (k3: u64, k4: u64)
    requires GoodKey(p)
    ensures k3 <= 2 * B61 + 4 && Cong(k3, Pow(p.k, 3), P611)
    ensures k4 <= 2 * B61 + 4 && Cong(k4, Pow(p.k, 4), P611)
  {
    hide Pow, Cong, Red611, Mul128;
    SmallPowers(p.k);
    CongRefl(p.k, P611);
    RedMul(p.k, B61 + 2, p.k2, B61 + 2);
    RedMul(p.k2, B61 + 2, p.k2, B61 + 2);
    CongMul(p.k, p.k, p.k2, Pow(p.k, 2), P611);
    CongMul(p.k2, Pow(p.k, 2), p.k2, Pow(p.k, 2), P611);
    k3 := Red611(Mul128(p.k, p.k2));
    k4 := Red611(Mul128(p.k2, p.k2));
    CongTrans(k3, p.k * p.k2, Pow(p.k, 3), P611);
    CongTrans(k4, p.k2 * p.k2, Pow(p.k, 4), P611);
  }

  /** A product with a factor reduced only once, reduced twice. */
  lemma ReduceTwice(a: u64, a': int, b: u64, b': int)
    requires a <= B61 + 2 && b <= 2 * B61 + 4 && Cong(a, a', P611) && Cong(b, b', P611)
    ensures ExtRed611(Red611(Mul128(a, b))) <= B61 + 2
    ensures Cong(ExtRed611(Red611(Mul128(a, b))), a' * b', P611)
  {
    hide Cong, Red611, ExtRed611;
    RedMul(a, B61 + 2, b, 2 * B61 + 4);
    CongMul(a, a', b, b', P611);
    ExtRed611Exact(Red611(Mul128(a, b)));
    CongTrans(Red611(Mul128(a, b)), a * b, a' * b', P611);
    CongTrans(ExtRed611(Red611(Mul128(a, b))), Red611(Mul128(a, b)), a' * b', P611);
  }

  /** The block part of the hash, weighted, and the powers reduced for the tail. */
  method BlockPart(buf: seq<u8>, p: Params, c3: u64, c4: u64) returns (k3: u64, k4: u64, at: nat, acc: u64)
    requires |buf| >= 50 && GoodKey(p)
    requires c3 <= 2 * B61 + 4 && Cong(c3, Pow(p.k, 3), P611)
    requires c4 <= 2 * B61 + 4 && Cong(c4, Pow(p.k, 4), P611)
    ensures k3 <= B61 + 2 && Cong(k3, Pow(p.k, 3), P611)
    ensures k4 <= B61 + 2 && Cong(k4, Pow(p.k, 4), P611)
    ensures at == 49 * BlockCount(|buf|) && |buf| - 49 <= at < |buf|
    ensures acc <= B61 + 6 && Cong(acc, BlockSum(p.k, buf) * Pow(p.k, 14), P611)
  {
    hide Pow, Cong, Red611, ExtRed611, Mul128, BlockSum, BlockCount;
    SmallPowers(p.k);
    CongRefl(p.k, P611);
    ReduceTwice(p.k, p.k, c4, Pow(p.k, 4));
    ReduceTwice(p.k2, Pow(p.k, 2), c4, Pow(p.k, 4));
    var k5 := ExtRed611(Red611(Mul128(p.k, c4)));
    var k6 := ExtRed611(Red611(Mul128(p.k2, c4)));
    ExtRed611Exact(c3);
    ExtRed611Exact(c4);
    k3 := ExtRed611(c3);
    k4 := ExtRed611(c4);
    CongTrans(k3, c3, Pow(p.k, 3), P611);
    CongTrans(k4, c4, Pow(p.k, 4), P611);
    var h: u64;
    h, at := HashBlocks(buf, p, k3, k4, k5, k6);
    acc := WeightBlocks(p, h, BlockSum(p.k, buf));
  }

  method WeightBlocks(p: Params, h: u64, ghost sum: int) returns (acc: u64)
    requires GoodKey(p) && Cong(h, sum, P611)
    ensures acc <= B61 + 6 && Cong(acc, sum * Pow(p.k, 14), P611)
  {
    hide Pow, Cong, Red611, ExtRed611, Mul128;
    var k14 := Red611(Mul128(p.k7, p.k7));
    var e := ExtRed611(h);
    var hk14 := Red611(Mul128(e, k14));
    acc := ExtRed611(hk14);
    SmallPowers(p.k);
    ReduceProduct(p.k7, Pow(p.k, 7), p.k7, Pow(p.k, 7));
    ExtRed611Exact(h);
    CongTrans(e, h, sum, P611);
    ReduceProduct(e, sum, k14, Pow(p.k, 14));
    ExtRed611Exact(hk14);
    CongTrans(acc, hk14, sum * Pow(p.k, 14), P611);
  }

  /** A product with a factor reduced only once, reduced. */
  lemma ReduceProduct(a: u64, a': int, b: u64, b': int)
    requires a <= B61 + 6 && b <= 2 * B61 + 12 && Cong(a, a', P611) && Cong(b, b', P611)
    ensures Red611(Mul128(a, b)) <= B61 + (B61 + 6) * (2 * B61 + 12) / B61
    ensures a <= B60 && b <= B60 ==> Red611(Mul128(a, b)) <= 2 * B61
    ensures Cong(Red611(Mul128(a, b)), a' * b', P611)
  {
    hide Cong, Red611;
    RedMul(a, B61 + 6, b, 2 * B61 + 12);
    if a <= B60 && b <= B60 {
      RedMul(a, B60, b, B60);
    }
    CongMul(a, a', b, b', P611);
    CongTrans(Red611(Mul128(a, b)), a * b, a' * b', P611);
  }

  /** `polymur_hash_poly611`: with the tweak taken off, the hash is the polynomial. */
  method HashPoly611(buf: seq<u8>, p: Params, tweak: u64) returns (r: u64)
    requires GoodKey(p)
    ensures Cong(Wrap64(r - tweak), Poly(p.k, buf), P611)
    ensures tweak == 0 ==> Cong(r, Poly(p.k, buf), P611)
  {
    hide Pow, Cong, GoodKey, BlockSum, BlockCount, TailPoly, Poly, Wrap64;
    var acc: u64, at: nat := tweak, 0;
    ghost var blocks: u64 := 0;
    CountStep(|buf|);
    ShortSum(p.k, buf);
    assert buf[0..] == buf;
    var t: u64;
    if |buf| <= 7 {
      t := ShortTail(buf, 0, p);
    } else {
      var k3, k4 := MorePowers(p);
      if |buf| >= 50 {
        var a: u64;
        k3, k4, at, a := BlockPart(buf, p, k3, k4);
        acc := Wrap64(acc + a);
        blocks := a;
      }
      if |buf| - at >= 8 {
        t := LongTail(buf, at, p, k3, k4);
      } else {
        t := ShortTail(buf, at, p);
      }
    }
    r := Wrap64(acc + t);
    TotalCong(p.k, buf, at, blocks, t);
    TakeTweakOff(tweak, blocks, t);
  }

  lemma TotalCong(k: u64, s: seq<u8>, at: nat, blocks: int, t: int)
    requires at == 49 * BlockCount(|s|) <= |s| && |s| - at < 50
    requires Cong(blocks, BlockSum(k, s) * Pow(k, 14), P611) && Cong(t, TailPoly(k, s[at..]), P611)
    ensures Cong(blocks + t, Poly(k, s), P611)
  {
    hide Pow, Cong, BlockSum, BlockCount, TailPoly;
    CongAdd(blocks, BlockSum(k, s) * Pow(k, 14), t, TailPoly(k, s[at..]), P611);
  }

  lemma ShortSum(k: int, s: seq<u8>)
    ensures |s| < 50 ==> Cong(0, BlockSum(k, s) * Pow(k, 14), P611)
  {
  }

  lemma TakeTweakOff(tweak: u64, blocks: u64, t: u64)
    requires blocks <= B61 + 6 && t < 7 * B61 - 7
    ensures Wrap64(Wrap64(Wrap64(tweak + blocks) + t) - tweak) == blocks + t
    ensures Wrap64(tweak) == tweak
    ensures tweak == 0 ==> Wrap64(Wrap64(tweak + blocks) + t) == blocks + t
  {
    var x := tweak + blocks;
    var y := Wrap64(x) + t;
    var z := Wrap64(y) - tweak;
    ModUnique(z, -(y / W64) - (x / W64), blocks + t, W64);
  }
}
