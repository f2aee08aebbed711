/** PolymurHash: lazy reduction modulo 2^61 - 1, the choice of its key, and the proof that the
  * hash of any message is the intended polynomial in that key.
  */
module Polymur {
  import opened NumberTheory
  import opened Primality
  import opened Words
  import opened PolymurGroup

  const B61 := 0x2000_0000_0000_0000
  const B60 := 0x1000_0000_0000_0000
  const B56 := 0x100_0000_0000_0000
  const W128 := 0x1_0000_0000_0000_0000_0000_0000_0000_0000

  type u128 = x: int | 0 <= x < 0x1_0000_0000_0000_0000_0000_0000_0000_0000

  // ---------- Reduction ----------

  /** `polymur_mul128` */
  function Mul128(a: u64, b: u64): (p: u128)
    ensures p == a * b
  {
    MulBound(a, W64 - 1, b, W64 - 1);
    a * b
  }

  /** `polymur_add128` */
  function Add128(a: u128, b: u128): u128 { (a + b) % W128 }

  /** `polymur_red611`: the low 61 bits plus the rest, the rest cut to a word. */
  function Red611(x: u128): u64 { Wrap64(x % B61 + Wrap64(x / B61)) }

  /** `polymur_extrared611` */
  function ExtRed611(x: u64): u64 { Wrap64(x % B61 + x / B61) }

  lemma MulBound(x: nat, x': nat, y: nat, y': nat)
    requires x <= x' && y <= y'
    ensures 0 <= x * y <= x' * y'
  {
    MulMonotone(0, x, y);
    MulMonotone(x, x', y);
    MulMonotone(y, y', x');
  }

  /** No bit is lost while the high part leaves room for the low 61 bits. */
  lemma Red611Exact(x: u128)
    requires x / B61 <= W64 - B61
    ensures Red611(x) == x % B61 + x / B61
    ensures Cong(Red611(x), x, P611)
  {
    ModUnique(x / B61, 0, x / B61, W64);
    var r := x % B61 + x / B61;
    ModUnique(r, 0, r, W64);
    CongIntro(x, r, P611, x / B61);
  }

  lemma ExtRed611Exact(x: u64)
    ensures ExtRed611(x) == x % B61 + x / B61 <= B61 + 6
    ensures Cong(ExtRed611(x), x, P611)
    ensures x < 4 * B61 ==> ExtRed611(x) <= B61 + 2
    ensures x <= B61 + 6 ==> ExtRed611(x) <= B61
  {
    var r := x % B61 + x / B61;
    ModUnique(r, 0, r, W64);
    CongIntro(x, r, P611, x / B61);
  }

  /** Reducing a product of two numbers known up to a bound. */
  lemma RedMul(a: u64, a': u64, b: u64, b': u64)
    requires a <= a' && b <= b' && a' * b' / B61 <= W64 - B61
    ensures Red611(Mul128(a, b)) < B61 + a' * b' / B61 + 1
    ensures Cong(Red611(Mul128(a, b)), a * b, P611)
  {
    MulBound(a, a', b, b');
    DivMonotone(a * b, a' * b', B61);
    Red611Exact(a * b);
  }

  lemma DivMonotone(x: nat, y: nat, d: nat)
    requires x <= y && d > 0
    ensures x / d <= y / d
  {
    if x / d > y / d {
      MulMonotone(y / d + 1, x / d, d);
    }
  }

  /** The multiply-and-reduce step of the parameter set-up. */
  function MulMod611(a: u64, b: u64): u64 { ExtRed611(Red611(Mul128(a, b))) }

  lemma MulMod611Exact(a: u64, b: u64, x: int, y: int)
    requires a <= B61 + 2 && b <= B61 + 2 && Cong(a, x, P611) && Cong(b, y, P611)
    ensures MulMod611(a, b) <= B61 + 2 && Cong(MulMod611(a, b), x * y, P611)
  {
    RedMul(a, B61 + 2, b, B61 + 2);
    CongMul(a, x, b, y, P611);
    ExtRed611Exact(Red611(Mul128(a, b)));
  }

  // ---------- Parameters ----------

  datatype Params = Params(k: u64, k2: u64, k7: u64, s: bv64)

  /** What the hash relies on: nearly reduced powers of one key, the seventh below 15/16 of 2^60. */
  ghost predicate GoodKey(p: Params)
  {
    && p.k <= B61 + 2 && p.k2 <= B61 + 2 && p.k7 < B60 - B56
    && Cong(p.k2, Pow(p.k, 2), P611) && Cong(p.k7, Pow(p.k, 7), P611)
  }

  /** The table entry for 37^(2^32) that the source writes as a constant. */
  lemma UpperTableSeed() returns (e: nat)
    ensures e == Pow2(32) && Cong(Pow(37, e), 559096694736811184, P611)
  {
    hide Pow;
    e := Start1(37, P611);
    e := Raise(37, P611, e, 37, 1, 1874161, 1, 2048012909902302799, 1, 1530484379699738889,
               1, 649718369440752735, 1, 5986862548113618);
    e := Raise(37, P611, e, 5986862548113618, 1, 404534779322076428, 1, 1106896147619454396,
               1, 1267668060077347163, 1, 1564471842796986341, 1, 1488752000173493138);
    e := Raise(37, P611, e, 1488752000173493138, 1, 1747983813596511721, 1, 2164827040180914092,
               1, 73251981582425893, 1, 92934223038987942, 1, 552523982103027780);
    e := RaiseDigit(37, P611, e, 552523982103027780, 1, 559096694736811184);
    PowersOfTwo();
  }

  /** Entry `i` of the table is 37^(2^i), nearly reduced. */
  ghost predicate Entry(t: seq<u64>, i: nat)
  {
    i < |t| && t[i] <= B61 + 2 && Cong(t[i], Pow(37, Pow2(i)), P611)
  }

  lemma NextEntry(x: u64, i: nat)
    requires x <= B61 + 2 && Cong(x, Pow(37, Pow2(i)), P611)
    ensures MulMod611(x, x) <= B61 + 2 && Cong(MulMod611(x, x), Pow(37, Pow2(i + 1)), P611)
  {
    MulMod611Exact(x, x, Pow(37, Pow2(i)), Pow(37, Pow2(i)));
    PowAdd(37, Pow2(i), Pow2(i));
  }

  /** Both halves of the table are filled in step. */
  method BuildTable() returns (table: array<u64>)
    ensures table.Length == 64 && fresh(table)
    ensures forall i :: 0 <= i < 64 ==> Entry(table[..], i)
  {
    hide Pow, Pow2, Red611, ExtRed611, MulMod611;
    table := new u64[64](_ => 0);
    table[0] := 37;
    table[32] := 559096694736811184;
    var e := UpperTableSeed();
    FirstEntry();
    for i := 0 to 31
      invariant forall j :: 0 <= j <= i || 32 <= j <= i + 32 ==> Entry(table[..], j)
    {
      assert Entry(table[..], i) && Entry(table[..], i + 32);
      NextEntry(table[i], i);
      NextEntry(table[i + 32], i + 32);
      ghost var before := table[..];
      table[i + 1] := MulMod611(table[i], table[i]);
      table[i + 33] := MulMod611(table[i + 32], table[i + 32]);
      forall j | 0 <= j <= i + 1 || 32 <= j <= i + 33 ensures Entry(table[..], j) {
        if j != i + 1 && j != i + 33 {
          assert Entry(before, j);
        }
      }
    }
  }

  lemma FirstEntry()
    ensures Cong(37, Pow(37, Pow2(0)), P611)
  {
    assert Pow(37, 1) == 37 * Pow(37, 0);
  }

  // ---------- The exponent ----------

  /** The tests an exponent passes: no prime factor of 2^61 - 2 divides it. */
  predicate Accepted(e: nat)
  {
    && e % 3 != 0
    && (e % 5 != 0 && e % 7 != 0)
    && (e % 11 != 0 && e % 13 != 0 && e % 31 != 0)
    && (e % 41 != 0 && e % 61 != 0 && e % 151 != 0 && e % 331 != 0 && e % 1321 != 0)
  }

  /** An odd exponent is accepted exactly when it is coprime to the order of the group. */
  lemma AcceptedIffCoprime(e: nat)
    requires e % 2 == 1
    ensures Accepted(e) <==> Coprime(e, P611 - 1)
  {
    if Accepted(e) {
      forall d | 2 <= d && Divides(d, e) ensures !Divides(d, P611 - 1) {
        if Divides(d, P611 - 1) {
          var q := PrimeDivisor(d);
          DividesTrans(q, d, e);
          DividesTrans(q, d, P611 - 1);
          OrderFactors(q);
        }
      }
    }
    if Coprime(e, P611 - 1) && !Accepted(e) {
      var d := RefusedFactor(e);
      OrderDivisors();
    }
  }

  lemma RefusedFactor(e: nat) returns (p: nat)
    requires !Accepted(e)
    ensures p in [3, 5, 7, 11, 13, 31, 41, 61, 151, 331, 1321] && Divides(p, e)
  {
    p :| p in [3, 5, 7, 11, 13, 31, 41, 61, 151, 331, 1321] && e % p == 0;
  }

  // ---------- The key ----------

  lemma HalveTwice(x: nat, y: nat, e: nat, i: nat)
    ensures x + y + e * Pow2(i) ==
      (x + e % 2 * Pow2(i)) + (y + e / 2 % 2 * Pow2(i + 1)) + e / 4 * Pow2(i + 2)
  {
    hide Pow2;
    var p := Pow2(i);
    SmallPow2(i);
    assert e == e % 2 + 2 * (e / 2 % 2) + 4 * (e / 4);
    assert (e % 2 + 2 * (e / 2 % 2) + 4 * (e / 4)) * p ==
      e % 2 * p + 2 * (e / 2 % 2) * p + 4 * (e / 4) * p;
  }

  lemma ExponentBitInRange(x: nat, y: nat, e: nat, i: nat)
    requires e > 0 && i % 2 == 0 && x + y + e * Pow2(i) < B61
    ensures i <= 60
  {
    if i > 60 {
      MulMonotone(1, e, Pow2(i));
      Pow2Monotone(61, i);
      Pow2Is61();
    }
  }

  lemma SmallPow2(i: nat)
    ensures Pow2(i + 1) == 2 * Pow2(i) && Pow2(i + 2) == 4 * Pow2(i)
  {
  }

  lemma {:induction false} Pow2Monotone(i: nat, j: nat)
    requires i <= j
    ensures Pow2(i) <= Pow2(j)
  {
    if i < j {
      Pow2Monotone(i, j - 1);
    }
  }

  lemma Pow2Is61()
    ensures Pow2(61) == B61
  {
    hide Pow2;
    PowersOfTwo();
    assert Pow(2, 5) == 32;
    PowAdd(2, 32, 16);
    PowAdd(2, 48, 8);
    PowAdd(2, 56, 5);
  }

  /** One table entry multiplied in. */
  lemma TakeEntry(t: seq<u64>, i: nat, k: u64, x: nat)
    requires Entry(t, i) && k <= B61 + 2 && Cong(k, Pow(37, x), P611)
    ensures MulMod611(k, t[i]) <= B61 + 2
    ensures Cong(MulMod611(k, t[i]), Pow(37, x + Pow2(i)), P611)
  {
    MulMod611Exact(k, t[i], Pow(37, x), Pow(37, Pow2(i)));
    PowAdd(37, x, Pow2(i));
  }

  /** 37^e, two bits of the exponent per step. */
  method PowerOf37(table: array<u64>, exponent: u64) returns (k: u64)
    requires table.Length == 64 && exponent < B61
    requires forall i :: 0 <= i < 64 ==> Entry(table[..], i)
    ensures k <= B61 + 2 && Cong(k, Pow(37, exponent), P611)
  {
    hide Pow, Pow2, Red611, ExtRed611, MulMod611, Entry, Cong;
    var ka: u64, kb: u64 := 1, 1;
    ghost var x: nat, y: nat := 0, 0;
    var e: nat, i: nat := exponent, 0;
    ExponentStart(e);
    while e != 0
      invariant i % 2 == 0 && x + y + e * Pow2(i) == exponent
      invariant ka <= B61 + 2 && Cong(ka, Pow(37, x), P611)
      invariant kb <= B61 + 2 && Cong(kb, Pow(37, y), P611)
      decreases e
    {
      ExponentBitInRange(x, y, e, i);
      HalveTwice(x, y, e, i);
      EntryLayout(table[..], i);
      EntryLayout(table[..], i + 1);
      if e % 2 != 0 {
        TakeEntry(table[..], i, ka, x);
        ka := MulMod611(ka, table[i]);
        x := x + Pow2(i);
      }
      if e / 2 % 2 != 0 {
        TakeEntry(table[..], i + 1, kb, y);
        kb := MulMod611(kb, table[i + 1]);
        y := y + Pow2(i + 1);
      }
      i, e := i + 2, e / 4;
    }
    PowAdd(37, x, y);
    MulMod611Exact(ka, kb, Pow(37, x), Pow(37, y));
    k := MulMod611(ka, kb);
  }

  lemma EntryLayout(t: seq<u64>, i: nat)
    requires Entry(t, i)
    ensures i < |t|
  {
  }

  lemma ExponentStart(e: nat)
    ensures e * Pow2(0) == e && Cong(1, Pow(37, 0), P611)
  {
  }

  /** The powers the source keeps for a key. */
  method KeyPowers(key: u64, s: bv64) returns (p: Params)
    requires key <= B61 + 2
    ensures p.k <= B61 && Cong(p.k, key, P611) && p.s == s
    ensures p.k2 <= B61 + 2 && Cong(p.k2, Pow(p.k, 2), P611)
    ensures p.k7 <= B61 + 4 && Cong(p.k7, Pow(p.k, 7), P611)
  {
    hide Pow, Red611, ExtRed611;
    ExtRed611Exact(key);
    var k := ExtRed611(key);
    SmallPowers(k);
    MulMod611Exact(k, k, k, k);
    var k2 := ExtRed611(Red611(Mul128(k, k)));
    RedMul(k, B61, k2, B61 + 2);
    var k3 := Red611(Mul128(k, k2));
    CongMul(k, k, k2, Pow(k, 2), P611);
    RedMul(k2, B61 + 2, k2, B61 + 2);
    var k4 := Red611(Mul128(k2, k2));
    CongMul(k2, Pow(k, 2), k2, Pow(k, 2), P611);
    RedMul(k3, 2 * B61 + 2, k4, 2 * B61 + 4);
    CongMul(k3, Pow(k, 3), k4, Pow(k, 4), P611);
    ExtRed611Exact(Red611(Mul128(k3, k4)));
    p := Params(k, k2, ExtRed611(Red611(Mul128(k3, k4))), s);
  }

  lemma SmallPowers(k: int)
    ensures Cong(k, k, P611) && k * k == Pow(k, 2)
    ensures k * Pow(k, 2) == Pow(k, 3) && Pow(k, 2) * Pow(k, 2) == Pow(k, 4)
    ensures k * Pow(k, 4) == Pow(k, 5) && Pow(k, 2) * Pow(k, 4) == Pow(k, 6)
    ensures Pow(k, 3) * Pow(k, 4) == Pow(k, 7) && Pow(k, 7) * Pow(k, 7) == Pow(k, 14)
  {
    assert Pow(k, 1) == k * Pow(k, 0) == k;
    PowAdd(k, 2, 2);
    PowAdd(k, 2, 4);
    PowAdd(k, 3, 4);
    PowAdd(k, 7, 7);
  }

  /** `(seed >> 3) | 1` */
  function Exponent(seed: u64): (e: u64)
    ensures e < B61 && e % 2 == 1
  {
    if seed / 8 % 2 == 1 then seed / 8 else seed / 8 + 1
  }

  /** Each exponent is drawn from the sixteen seeds about eight times it, and from no others. */
  lemma ExponentOfSeed(seed: u64)
    ensures 8 * (Exponent(seed) - 1) <= seed < 8 * (Exponent(seed) + 1)
  {
  }

  /** The low four bits of a seed do not matter, all others do. */
  lemma SameExponentIff(a: u64, b: u64)
    ensures Exponent(a) == Exponent(b) <==> a / 16 == b / 16
  {
    hide Exponent;
    ExponentIs(a);
    ExponentIs(b);
  }

  lemma ExponentIs(seed: u64)
    ensures Exponent(seed) == 2 * (seed / 16) + 1
  {
    var x := seed / 8;
    assert x / 2 == seed / 16 && x == 2 * (x / 2) + x % 2;
  }

  /** The exponent drawn in attempt `j`, counted from one. */
  function Candidate(kSeed: u64, j: nat): u64
  {
    Exponent(Wrap64(kSeed + j * 0xbb67ae8584caa73b))
  }

  lemma NextSeed(kSeed: u64, j: nat)
    ensures Wrap64(Wrap64(kSeed + j * 0xbb67ae8584caa73b) + 0xbb67ae8584caa73b) ==
      Wrap64(kSeed + (j + 1) * 0xbb67ae8584caa73b)
  {
    var x := kSeed + j * 0xbb67ae8584caa73b;
    ModUnique(x + 0xbb67ae8584caa73b,
      x / W64 + (x % W64 + 0xbb67ae8584caa73b) / W64, (x % W64 + 0xbb67ae8584caa73b) % W64, W64);
  }

  /** An exponent that shares a factor with the group order, or whose key has a seventh power
    * that is not reduced below the bound. */
  ghost predicate Refused(e: u64)
  {
    || !Coprime(e, P611 - 1)
    || exists k7 :: B60 - B56 <= k7 <= B61 + 4 && Cong(k7, Pow(Pow(37, e), 7), P611)
  }

  /** The seeds drawn go round all 64-bit words, so that zero comes up, whose exponent is one. */
  lemma SeedZero(kSeed: u64) returns (j: nat)
    ensures 1 <= j <= W64 && Candidate(kSeed, j) == 1
  {
    var x := (W64 - kSeed) * 0x72f55f3a00399f3;
    j := if x % W64 == 0 then W64 else x % W64;
    assert j % W64 == x % W64;
    CongScale(j, x, 0xbb67ae8584caa73b, W64);
    MulAssoc(W64 - kSeed, 0x72f55f3a00399f3, 0xbb67ae8584caa73b);
    CongIntro((W64 - kSeed) * (1 + 379002458948852121 * W64), W64 - kSeed, W64, (W64 - kSeed) * 379002458948852121);
    CongTrans(j * 0xbb67ae8584caa73b, x * 0xbb67ae8584caa73b, W64 - kSeed, W64);
    CongAdd(kSeed, kSeed, j * 0xbb67ae8584caa73b, W64 - kSeed, W64);
  }

  /** The exponent one is not refused: 37^7 is small and well above the multiples of 2^61 - 1. */
  lemma OneNotRefused()
    ensures !Refused(1)
  {
    hide Pow;
    AcceptedIffCoprime(1);
    SeventhPower();
    forall k7 | B60 - B56 <= k7 <= B61 + 4 ensures !Cong(k7, 94931877133, P611) {
    }
  }

  lemma SeventhPower()
    ensures Pow(37, 1) == 37 && Pow(37, 7) == 94931877133
  {
    assert Pow(37, 1) == 37 * Pow(37, 0);
    assert Pow(37, 2) == 37 * Pow(37, 1) && Pow(37, 3) == 37 * Pow(37, 2) && Pow(37, 4) == 37 * Pow(37, 3);
    assert Pow(37, 5) == 37 * Pow(37, 4) && Pow(37, 6) == 37 * Pow(37, 5);
  }

  /** When exactly an exponent is refused: the seventh power of its key is reduced to nothing below 15/16 of 2^60,
    * or so near to zero that it may be held with the modulus added. */
  lemma RefusedIff(e: u64)
    ensures var r := Pow(Pow(37, e), 7) % P611;
      Refused(e) <==> !Coprime(e, P611 - 1) || r >= 0x0F00_0000_0000_0000 || r <= 5
  {
    hide Pow, Coprime;
    var x := Pow(Pow(37, e), 7);
    var r := x % P611;
    CongMod(x, P611);
    if r <= 5 {
      CongIntro(r + P611, r, P611, 1);
      CongTrans(r + P611, r, x, P611);
    }
    forall k7 | B60 - B56 <= k7 <= B61 + 4 && Cong(k7, x, P611) ensures r >= B60 - B56 || r <= 5 {
      ModUnique(k7, if k7 < P611 then 0 else 1, if k7 < P611 then k7 else k7 - P611, P611);
    }
  }

  /** `polymur_init_params`: it ends, with the first exponent drawn that is not refused. */
  method InitParams(kSeed: u64, sSeed: bv64) returns (p: Params, ghost tries: nat)
    ensures 1 <= tries <= W64
    ensures forall j :: 1 <= j < tries ==> Refused(Candidate(kSeed, j))
    ensures Coprime(Candidate(kSeed, tries), P611 - 1)
    ensures Cong(p.k, Pow(37, Candidate(kSeed, tries)), P611) && Generates(p.k)
    ensures var e, drawn := Candidate(kSeed, tries), (kSeed + tries * 0xbb67ae8584caa73b) % W64;
      e % 2 == 1 && 8 * (e - 1) <= drawn < 8 * (e + 1)
    ensures GoodKey(p) && p.s == sSeed ^ 0x6a09e667f3bcc908
  {
    hide Pow, Pow2, Red611, ExtRed611, Coprime, Accepted, Entry, Refused, Exponent, Generates, Candidate;
    var table := BuildTable();
    var seed: u64 := kSeed;
    tries := 0;
    ghost var last := SeedZero(kSeed);
    OneNotRefused();
    while true
      invariant tries < last && seed == Wrap64(kSeed + tries * 0xbb67ae8584caa73b)
      invariant forall i :: 0 <= i < 64 ==> Entry(table[..], i)
      invariant forall j :: 1 <= j <= tries ==> Refused(Candidate(kSeed, j))
      decreases last - tries
    {
      NextSeed(kSeed, tries);
      seed := Wrap64(seed + 0xbb67ae8584caa73b);
      tries := tries + 1;
      var e := Exponent(seed);
      assert e == Candidate(kSeed, tries) by { CandidateIs(kSeed, tries); }
      AcceptedIffCoprime(e);
      if !Accepted(e) {
        RefusedWhen(e);
        continue;
      }
      var key := PowerOf37(table, e);
      p := KeyPowers(key, sSeed ^ 0x6a09e667f3bcc908);
      CongTrans(p.k, key, Pow(37, e), P611);
      if p.k7 < B60 - B56 {
        GeneratesIffCoprime(p.k, e);
        ExponentOfSeed(seed);
        return;
      }
      CongPow(p.k, Pow(37, e), 7, P611);
      CongTrans(p.k7, Pow(p.k, 7), Pow(Pow(37, e), 7), P611);
      RefusedByBound(e, p.k7);
    }
  }

  lemma CandidateIs(kSeed: u64, j: nat)
    ensures Candidate(kSeed, j) == Exponent(Wrap64(kSeed + j * 0xbb67ae8584caa73b))
  {
  }

  lemma RefusedWhen(e: u64)
    requires !Coprime(e, P611 - 1)
    ensures Refused(e)
  {
  }

  lemma RefusedByBound(e: u64, k7: u64)
    requires B60 - B56 <= k7 <= B61 + 4 && Cong(k7, Pow(Pow(37, e), 7), P611)
    ensures Refused(e)
  {
  }

}
