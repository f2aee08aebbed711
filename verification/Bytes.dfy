/** Words as sequences of bytes, least significant first. */
module Bytes {
  import opened NumberTheory
  import opened Words

  /** The number whose base-256 digits, least first, are `s`. */
  function LittleEndian(s: seq<u8>): nat
  {
    if s == [] then 0 else s[0] + 0x100 * LittleEndian(s[1..])
  }

  lemma {:induction false} LittleEndianAppend(a: seq<u8>, b: seq<u8>)
    ensures 0 <= LittleEndian(b) * Pow(2, 8 * |a|)
    ensures LittleEndian(a + b) == LittleEndian(a) + LittleEndian(b) * Pow(2, 8 * |a|)
    ensures LittleEndian(a) < Pow(2, 8 * |a|)
  {
    if a == [] {
      assert a + b == b;
    } else {
      LittleEndianAppend(a[1..], b);
      assert (a + b)[1..] == a[1..] + b;
      ShiftByte(LittleEndian(b), |a|);
    }
  }

  lemma ShiftByte(x: int, n: nat)
    requires n > 0
    ensures x * Pow(2, 8 * n) == 0x100 * (x * Pow(2, 8 * (n - 1)))
    ensures Pow(2, 8 * n) == 0x100 * Pow(2, 8 * (n - 1))
  {
    hide Pow;
    PowersOfTwo();
    PowAdd(2, 8, 8 * (n - 1));
    MulAssoc(x, 0x100, Pow(2, 8 * (n - 1)));
    MulAssoc(0x100, x, Pow(2, 8 * (n - 1)));
  }

  /** The weight of byte `n` of a word. */
  function Place(n: nat): int
    requires n <= 8
  {
    [1, 0x100, 0x1_0000, 0x100_0000, W32, 0x100_0000_0000, 0x1_0000_0000_0000, 0x100_0000_0000_0000, W64][n]
  }

  lemma SmallPlaces()
    ensures Place(0) == 1 && Place(1) == 0x100 && Place(2) == 0x1_0000
    ensures forall k :: 0 <= k <= 4 ==> 1 <= Place(k) <= W32
  {
  }

  /** The widths that numbers come in. */
  lemma WidthPlaces()
    ensures Place(1) == 0x100 && Place(2) == 0x1_0000 && Place(4) == W32 && Place(8) == W64
  {
  }

  lemma BytePower(n: nat)
    requires n <= 8
    ensures Pow(2, 8 * n) == Place(n)
  {
    PowersOfTwo();
    hide Pow;
    assert Pow(2, 8 * 1) == 0x100;
    PowAdd(2, 8, 16);
    PowAdd(2, 32, 8);
    PowAdd(2, 32, 16);
    PowAdd(2, 32, 24);
    PowAdd(2, 32, 32);
    ZeroPower();
  }

  lemma ZeroPower()
    ensures Pow(2, 0) == 1
  {
  }

  lemma LittleEndianBound(s: seq<u8>)
    requires |s| <= 8
    ensures LittleEndian(s) < W64
    ensures |s| <= 7 ==> LittleEndian(s) < 0x100_0000_0000_0000
    ensures |s| <= 4 ==> LittleEndian(s) < W32
  {
    LittleEndianAppend(s, []);
    BytePower(|s|);
  }

  // ---------- Most significant byte first ----------

  /** The number whose base-256 digits, greatest first, are `s`. */
  function BigEndian(s: seq<u8>): nat
  {
    if s == [] then 0 else BigEndian(s[..|s| - 1]) * 0x100 + s[|s| - 1]
  }

  /** The last `w` base-256 digits of `n`, greatest first. */
  function Digits(n: nat, w: nat): (s: seq<u8>)
    ensures |s| == w
  {
    if w == 0 then [] else Digits(n / 0x100, w - 1) + [n % 0x100]
  }

  lemma PlaceStep(w: nat)
    requires 0 < w <= 8
    ensures Place(w) == 0x100 * Place(w - 1) && Place(w - 1) > 0
  {
  }

  lemma {:induction false} DigitsOfNumber(n: nat, w: nat)
    requires w <= 8 && n < Place(w)
    ensures BigEndian(Digits(n, w)) == n
  {
    if w > 0 {
      PlaceStep(w);
      DigitsOfNumber(n / 0x100, w - 1);
      assert Digits(n, w)[..w - 1] == Digits(n / 0x100, w - 1);
    }
  }

  lemma {:induction false} NumberOfDigits(s: seq<u8>)
    requires |s| <= 8
    ensures BigEndian(s) < Place(|s|) && Digits(BigEndian(s), |s|) == s
  {
    if s != [] {
      PlaceStep(|s|);
      var t := s[..|s| - 1];
      NumberOfDigits(t);
      LastDigit(BigEndian(t), s[|s| - 1]);
      assert s == t + [s[|s| - 1]];
    }
  }

  lemma LastDigit(h: nat, d: u8)
    ensures (h * 0x100 + d) / 0x100 == h && (h * 0x100 + d) % 0x100 == d
  {
  }
}
