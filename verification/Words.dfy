/** Unsigned machine words, as the integers they hold, and the bit operations
  * the hashes apply to them.
  */
module Words {
  import opened NumberTheory

  datatype Option<+T> = None | Some(value: T)

  const W32 := 0x1_0000_0000
  const W64 := 0x1_0000_0000_0000_0000

  type byte = bv8
  type u8 = x: int | 0 <= x < 0x100
  type u32 = x: int | 0 <= x < 0x1_0000_0000
  type u64 = x: int | 0 <= x < 0x1_0000_0000_0000_0000
  type i64 = x: int | -0x8000_0000_0000_0000 <= x < 0x8000_0000_0000_0000

  /** What a 64-bit register keeps of `x`. */
  function Wrap64(x: int): u64 { x % W64 }

  /** `x << k` in a 64-bit register, for a shift given by its power of two. */
  function Shl64(x: nat, p: nat): u64 { Wrap64(x * p) }

  /** Bitwise or. */
  function Or(a: nat, b: nat): nat
  {
    if a == 0 then b
    else if b == 0 then a
    else (if a % 2 == 1 || b % 2 == 1 then 1 else 0) + 2 * Or(a / 2, b / 2)
  }

  lemma PowTwice(x: int, k: nat)
    requires k > 0
    ensures x * Pow(2, k) == 2 * (x * Pow(2, k - 1))
  {
  }

  lemma PowZero()
    ensures Pow(2, 0) == 1
  {
  }

  lemma PowersOfTwo()
    ensures Pow(2, 8) == 0x100 && Pow(2, 16) == 0x1_0000 && Pow(2, 32) == W32
  {
    PowAdd(2, 4, 4);
    PowAdd(2, 8, 8);
    PowAdd(2, 16, 16);
  }

  /** Low bits of one operand only pass through; the rest is combined above them. */
  lemma {:induction false} OrAbove(low: nat, a: nat, b: nat, k: nat)
    requires low < Pow(2, k)
    ensures 0 <= a * Pow(2, k) && 0 <= b * Pow(2, k)
    ensures Or(low + a * Pow(2, k), b * Pow(2, k)) == low + Or(a, b) * Pow(2, k)
    ensures Or(b * Pow(2, k), low + a * Pow(2, k)) == low + Or(b, a) * Pow(2, k)
    decreases k
  {
    hide Or, Pow;
    var p := Pow(2, k);
    if k == 0 {
      PowZero();
    } else {
      PowTwice(1, k);
      OrAbove(low / 2, a, b, k - 1);
      PowTwice(a, k);
      PowTwice(b, k);
      PowTwice(Or(a, b), k);
      PowTwice(Or(b, a), k);
      OrDigit(low % 2, low / 2 + a * Pow(2, k - 1), b * Pow(2, k - 1));
    }
  }

  lemma OrDigit(bit: nat, x: nat, y: nat)
    requires bit <= 1
    ensures Or(bit + 2 * x, 2 * y) == bit + 2 * Or(x, y)
    ensures Or(2 * y, bit + 2 * x) == bit + 2 * Or(y, x)
  {
  }

  /** Two overlapping fields that agree where they overlap. */
  lemma {:induction false} OrOverlap(m: nat, h: nat, k: nat)
    requires m < Pow(2, k)
    ensures 0 <= h * Pow(2, k)
    ensures Or(m, m + h * Pow(2, k)) == m + h * Pow(2, k)
    decreases k
  {
    hide Or, Pow;
    if k == 0 {
      PowZero();
      OrZero(h);
    } else {
      PowTwice(1, k);
      OrOverlap(m / 2, h, k - 1);
      var x := h * Pow(2, k - 1);
      PowTwice(h, k);
      OrTwin(m % 2, m / 2, m / 2 + x);
    }
  }

  lemma OrTwin(bit: nat, x: nat, y: nat)
    requires bit <= 1
    ensures Or(bit + 2 * x, bit + 2 * y) == bit + 2 * Or(x, y)
  {
  }

  lemma OrZero(x: nat)
    ensures Or(0, x) == x == Or(x, 0)
  {
  }

  lemma OrDisjoint(hi: nat, lo: nat, k: nat)
    requires lo < Pow(2, k)
    ensures 0 <= hi * Pow(2, k)
    ensures Or(hi * Pow(2, k), lo) == hi * Pow(2, k) + lo
    ensures Or(lo, hi * Pow(2, k)) == hi * Pow(2, k) + lo
  {
    hide Or;
    OrAbove(lo, 0, hi, k);
    OrZero(hi);
  }
}
