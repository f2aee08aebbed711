/** The portable 64 by 64 to 128 bit multiplications: the carry-counting one of
  * `wyhash.h` and the carry-free one shared by `polymur.h` and `xxhash.h`.
  */
module WideMultiply {
  import opened NumberTheory
  import opened Words

  /** Schoolbook multiplication in base 2^32. */
  lemma CrossProducts(ha: nat, la: nat, hb: nat, lb: nat)
    ensures (ha * W32 + la) * (hb * W32 + lb) ==
            (ha * hb) * W64 + (ha * lb + la * hb) * W32 + la * lb
  {
    var a := ha * W32;
    assert a * (hb * W32) == (ha * hb) * W64;
    assert a * lb == (ha * lb) * W32;
    assert la * (hb * W32) == (la * hb) * W32;
    assert (a + la) * (hb * W32 + lb) == a * (hb * W32) + a * lb + la * (hb * W32) + la * lb;
  }

  lemma ProductBound(x: int, y: int, n: int)
    requires 0 <= x < n && 0 <= y < n
    ensures 0 <= x * y <= (n - 1) * (n - 1)
  {
    MulMonotone(0, x, y);
    MulMonotone(x, n - 1, y);
    MulMonotone(y, n - 1, n - 1);
  }

  lemma HighWordFits(x: u64, y: u64, hi: int, lo: u64)
    requires hi * W64 + lo == x * y
    ensures 0 <= hi < W64
  {
    ProductBound(x, y, W64);
  }

  /** The low word of the sum, and how often it wrapped. */
  method LowWord(rm0: u64, rm1: u64, rl: u64) returns (lo: u64, c: nat)
    ensures (rm0 / W32 + rm1 / W32 + c) * W64 + lo == (rm0 + rm1) * W32 + rl
  {
    WyCarries(rm0, rm1, rl);
    var t := Wrap64(rl + Shl64(rm0, W32));
    c := if t < rl then 1 else 0;
    lo := Wrap64(t + Shl64(rm1, W32));
    c := c + (if lo < t then 1 else 0);
  }

  /** `_wymum` on a compiler without 128-bit integers. */
  method WyMum(x: u64, y: u64) returns (lo: u64, hi: u64)
    ensures hi * W64 + lo == x * y
  {
    hide Wrap64;
    Parts(x, y);
    var rh: u64, rl: u64 := (x / W32) * (y / W32), (x % W32) * (y % W32);
    var rm0: u64, rm1: u64 := (x / W32) * (y % W32), (y / W32) * (x % W32);
    var c;
    lo, c := LowWord(rm0, rm1, rl);
    HighWord(x, y, rh, rm0, rm1, rl, c, lo);
    hi := Wrap64(rh + rm0 / W32 + rm1 / W32 + c);
  }

  /** The four products of half words, which all fit in a word, and what they add up to. */
  lemma Parts(x: u64, y: u64)
    ensures 0 <= (x / W32) * (y / W32) < W64 && 0 <= (x % W32) * (y % W32) < W64
    ensures 0 <= (x / W32) * (y % W32) < W64 && 0 <= (y / W32) * (x % W32) < W64
    ensures x * y == ((x / W32) * (y / W32)) * W64
      + ((x / W32) * (y % W32) + (y / W32) * (x % W32)) * W32 + (x % W32) * (y % W32)
  {
    CrossProducts(x / W32, x % W32, y / W32, y % W32);
    ProductBound(x / W32, y / W32, W32);
    ProductBound(x % W32, y % W32, W32);
    ProductBound(x / W32, y % W32, W32);
    ProductBound(y / W32, x % W32, W32);
  }

  lemma HighWord(x: u64, y: u64, rh: u64, rm0: u64, rm1: u64, rl: u64, c: nat, lo: u64)
    requires x * y == rh * W64 + (rm0 + rm1) * W32 + rl
    requires (rm0 / W32 + rm1 / W32 + c) * W64 + lo == (rm0 + rm1) * W32 + rl
    ensures Wrap64(rh + rm0 / W32 + rm1 / W32 + c) * W64 + lo == x * y
  {
    var high := rh + rm0 / W32 + rm1 / W32 + c;
    HighWordFits(x, y, high, lo);
    ModUnique(high, 0, high, W64);
  }

  lemma WyCarries(rm0: u64, rm1: u64, rl: u64)
    ensures var t := Wrap64(rl + Shl64(rm0, W32));
            var lo := Wrap64(t + Shl64(rm1, W32));
            var c := (if t < rl then 1 else 0) + (if lo < t then 1 else 0);
            (rm0 / W32 + rm1 / W32 + c) * W64 + lo == (rm0 + rm1) * W32 + rl
  {
    var m0, m1 := rm0 % W32, rm1 % W32;
    ModUnique(rm0 * W32, rm0 / W32, m0 * W32, W64);
    ModUnique(rm1 * W32, rm1 / W32, m1 * W32, W64);
    var s := rl + m0 * W32;
    ModUnique(s, if s < W64 then 0 else 1, if s < W64 then s else s - W64, W64);
    var t := Wrap64(s);
    var u := t + m1 * W32;
    ModUnique(u, if u < W64 then 0 else 1, if u < W64 then u else u - W64, W64);
  }

  /** `polymur_mul128` and `XXH_mult64to128`: no intermediate sum overflows. */
  method Mult64To128(x: u64, y: u64) returns (lo: u64, hi: u64)
    ensures hi * W64 + lo == x * y
  {
    var ha, hb, la, lb := x / W32, y / W32, x % W32, y % W32;
    CrossProducts(ha, la, hb, lb);
    ProductBound(la, lb, W32);
    ProductBound(ha, lb, W32);
    ProductBound(la, hb, W32);
    var loLo, hiLo, loHi, hiHi := la * lb, ha * lb, la * hb, ha * hb;
    var cross: u64 := loLo / W32 + hiLo % W32 + loHi;
    ghost var upper := hiLo / W32 + cross / W32 + hiHi;
    CrossIsExact(loLo, hiLo, loHi, cross);
    assert upper * W64 + Or(Shl64(cross, W32), loLo % W32) == x * y;
    lo := Or(Shl64(cross, W32), loLo % W32);
    HighWordFits(x, y, upper, lo);
    hi := hiLo / W32 + cross / W32 + hiHi;
  }

  lemma CrossIsExact(loLo: u64, hiLo: u64, loHi: u64, cross: u64)
    requires cross == loLo / W32 + hiLo % W32 + loHi
    ensures var lo := Or(Shl64(cross, W32), loLo % W32);
            0 <= lo < W64 &&
            (hiLo / W32 + cross / W32) * W64 + lo == (hiLo + loHi) * W32 + loLo
  {
    ModUnique(cross * W32, cross / W32, (cross % W32) * W32, W64);
    PowersOfTwo();
    OrDisjoint(cross % W32, loLo % W32, 32);
  }
}
