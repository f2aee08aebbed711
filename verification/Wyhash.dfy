/** The modular arithmetic of `wyhash.h`: overflow-aware multiplication and
  * exponentiation modulo a 64-bit number, and the Miller-Rabin test that picks
  * the hash's secret primes.
  */
module Wyhash {
  import opened Words
  import opened NumberTheory

  // ---------- mul_mod ----------

  lemma CorrectedSum(x: u64, y: u64, m: u64)
    requires m > 0
    ensures var sum := Wrap64(x + y);
            var corrected := if sum < x then Wrap64(sum - m) else sum;
            Cong(corrected, if x + y < W64 + m then x + y else x + y - W64, m)
  {
    if x + y < W64 {
      ModUnique(x + y, 0, x + y, W64);
    } else {
      var sum := x + y - W64;
      ModUnique(x + y, 1, sum, W64);
      if sum < m {
        ModUnique(sum - m, -1, sum - m + W64, W64);
        CongIntro(x + y - m, x + y, m, -1);
      } else {
        ModUnique(sum - m, 0, sum - m, W64);
        CongIntro(sum - m, sum, m, -1);
      }
    }
  }

  /** One wrapped addition followed by the correction and the reduction. */
  function AddMod(x: u64, y: u64, m: u64): (r: u64)
    requires m > 0
    ensures r < m
    ensures Cong(r, if x + y < W64 + m then x + y else x + y - W64, m)
  {
    var sum := Wrap64(x + y);
    var corrected := if sum < x then Wrap64(sum - m) else sum;
    CorrectedSum(x, y, m);
    CongMod(corrected, m);
    corrected % m
  }

  /** The loop of `mul_mod` from a given state on. */
  function MulModFrom(r: u64, a: u64, b: u64, m: u64): u64
    requires m > 0
    decreases b
  {
    if b == 0 then r
    else
      var r' := if b % 2 == 1 then AddMod(r, a, m) else r;
      if b / 2 == 0 then r' else MulModFrom(r', AddMod(a, a, m), b / 2, m)
  }

  lemma HalfBit(a: int, b: nat)
    ensures a * b == (if b % 2 == 1 then a else 0) + (a + a) * (b / 2)
  {
    var h := b / 2;
    assert b == b % 2 + 2 * h;
    assert a * (b % 2 + 2 * h) == a * (b % 2) + (a + a) * h;
  }

  /** From reduced operands the loop adds the exact product. */
  lemma {:induction false} MulModFromReduced(r: u64, a: u64, b: u64, m: u64)
    requires r < m && a < m
    ensures MulModFrom(r, a, b, m) < m
    ensures Cong(MulModFrom(r, a, b, m), r + a * b, m)
    decreases b
  {
    if b == 0 {
      assert a * b == 0;
    } else {
      var r' := if b % 2 == 1 then AddMod(r, a, m) else r;
      var h := b / 2;
      HalfBit(a, b);
      if h == 0 {
        assert (a + a) * h == 0;
      } else {
        var a' := AddMod(a, a, m);
        MulModFromReduced(r', a', h, m);
        CongMul(a', a + a, h, h, m);
        CongAdd(r', if b % 2 == 1 then r + a else r, a' * h, (a + a) * h, m);
      }
    }
  }

  /** What the doubling of an unreduced `a` loses. */
  function MulModLoss(a: u64, b: u64, m: u64): int
  {
    if a + a < W64 + m then 0 else W64 * (b / 2)
  }

  lemma ReducedCong(r: nat, x: int, m: nat)
    requires r < m && Cong(r, x, m)
    ensures r == x % m
  {
    ModUnique(r, 0, r, m);
  }

  lemma MulModFromStart(a: u64, b: u64, m: u64)
    requires m > 0
    ensures MulModFrom(0, a, b, m) == (a * b - MulModLoss(a, b, m)) % m
  {
    var h := b / 2;
    HalfBit(a, b);
    if b == 0 {
      assert a * b == 0;
      ModUnique(0, 0, 0, m);
    } else {
      var r' := if b % 2 == 1 then AddMod(0, a, m) else 0;
      if h == 0 {
        assert (a + a) * h == 0;
        ModUnique(r', 0, r', m);
      } else {
        FirstDoubling(r', if b % 2 == 1 then a else 0, a, h, m);
        var lost := if a + a < W64 + m then 0 else W64;
        assert lost * h == MulModLoss(a, b, m);
        ReducedCong(MulModFrom(r', AddMod(a, a, m), h, m), a * b - MulModLoss(a, b, m), m);
      }
    }
  }

  /** The loop from the first doubling on. */
  lemma FirstDoubling(r: u64, x: int, a: u64, h: u64, m: u64)
    requires m > 0 && r < m && Cong(r, x, m)
    ensures var lost := if a + a < W64 + m then 0 else W64;
      var s := MulModFrom(r, AddMod(a, a, m), h, m);
      s < m && Cong(s, x + (a + a) * h - lost * h, m)
  {
    hide MulModFrom, Cong;
    var a' := AddMod(a, a, m);
    var lost := if a + a < W64 + m then 0 else W64;
    MulModFromReduced(r, a', h, m);
    CongMul(a', a + a - lost, h, h, m);
    CongAdd(r, x, a' * h, (a + a - lost) * h, m);
    MulSub(a + a, lost, h);
    CongTrans(MulModFrom(r, a', h, m), r + a' * h, x + (a + a - lost) * h, m);
  }

  /** `mul_mod` for every 64-bit input: the product modulo `m`, less what an
    * unreduced `a` loses when it is first doubled. */
  method MulMod(a0: u64, b0: u64, m: u64) returns (r: u64)
    requires m > 0
    ensures r == (a0 * b0 - MulModLoss(a0, b0, m)) % m
    ensures a0 < m ==> r == (a0 * b0) % m
  {
    var a, b := a0, b0;
    r := 0;
    while b != 0
      invariant MulModFrom(r, a, b, m) == MulModFrom(0, a0, b0, m)
      decreases b
    {
      if b % 2 == 1 {
        r := AddMod(r, a, m);
      }
      b := b / 2;
      if b != 0 {
        a := AddMod(a, a, m);
      }
    }
    MulModFromStart(a0, b0, m);
  }

  /** Exactly when the value `MulMod` computes is the product modulo `m`. */
  lemma MulModExactIff(a: u64, b: u64, m: u64)
    requires m > 0
    ensures (a * b - MulModLoss(a, b, m)) % m == (a * b) % m <==>
            a + a < W64 + m || (W64 * (b / 2)) % m == 0
  {
    var loss := MulModLoss(a, b, m);
    assert a * b - (a * b - loss) == loss;
    CongIffDivides(a * b, a * b - loss, m);
    if a + a < W64 + m {
      ModUnique(loss, 0, 0, m);
    }
  }

  /** An unreduced operand for which it is not: 2^63 + 2 doubled modulo 3 drops 2^64. */
  lemma MulModUnreducedCounterexample()
    ensures var a := 0x8000_0000_0000_0002;
            (a * 2 - MulModLoss(a, 2, 3)) % 3 != (a * 2) % 3
  {
  }

  // ---------- pow_mod ----------

  function PowModFrom(r: u64, a: u64, b: u64, m: u64): u64
    requires m > 0
    decreases b
  {
    if b == 0 then r
    else
      var r' := if b % 2 == 1 then (r * a - MulModLoss(r, a, m)) % m else r;
      if b / 2 == 0 then r' else PowModFrom(r', (a * a - MulModLoss(a, a, m)) % m, b / 2, m)
  }

  lemma PowHalf(a: int, b: nat)
    ensures Pow(a, b) == (if b % 2 == 1 then a else 1) * Pow(a * a, b / 2)
  {
    var h := b / 2;
    assert h + h <= b;
    PowAdd(a, h, h);
    PowProduct(a, a, h);
    PowAdd(a, b % 2, h + h);
    assert b == b % 2 + (h + h);
    assert Pow(a, 1) == a * Pow(a, 0);
  }

  lemma {:induction false} PowModFromExact(r: u64, a: u64, b: u64, m: u64)
    requires a + a < W64 + m && 0 < m && (r < m || r == 1)
    ensures Cong(PowModFrom(r, a, b, m), r * Pow(a, b), m)
    ensures b > 0 || r < m ==> PowModFrom(r, a, b, m) < m
    decreases b
  {
    if b == 0 {
    } else {
      var h := b / 2;
      var r' := if b % 2 == 1 then (r * a - MulModLoss(r, a, m)) % m else r;
      CongMod(r * a, m);
      PowHalf(a, b);
      var step := if b % 2 == 1 then a else 1;
      assert Cong(r', r * step, m);
      if h == 0 {
        assert b == 1;
        assert r' < m;
        assert Pow(a * a, 0) == 1;
        assert Pow(a, b) == step;
      } else {
        var a' := (a * a) % m;
        PowModFromExact(r', a', h, m);
        CongMod(a * a, m);
        CongPow(a', a * a, h, m);
        CongMul(r', r * step, Pow(a', h), Pow(a * a, h), m);
        MulAssoc(r, step, Pow(a * a, h));
      }
    }
  }

  /** The value of `pow_mod` for every input: only the first squaring can lose anything. */
  function PowModValue(a: u64, b: u64, m: u64): int
    requires m > 0
  {
    if b == 0 then 1 else ((if b % 2 == 1 then a else 1) * Pow(a * a - MulModLoss(a, a, m), b / 2)) % m
  }

  lemma PowModFromValue(a: u64, b: u64, m: u64)
    requires m > 0
    ensures PowModFrom(1, a, b, m) == PowModValue(a, b, m)
  {
    hide Cong;
    if b > 0 {
      var h, step := b / 2, if b % 2 == 1 then a else 1;
      var x := a * a - MulModLoss(a, a, m);
      var r: u64 := if b % 2 == 1 then a % m else 1;
      CongMod(step, m);
      assert MulModLoss(1, a, m) == 0;
      CongRefl(1, m);
      if h == 0 {
        assert b == 1 && Pow(x, 0) == 1;
      } else {
        var a': u64 := x % m;
        PowModFromExact(r, a', h, m);
        CongMod(x, m);
        CongPow(a', x, h, m);
        CongMul(r, step, Pow(a', h), Pow(x, h), m);
        CongTrans(PowModFrom(r, a', h, m), r * Pow(a', h), step * Pow(x, h), m);
        ReducedCong(PowModFrom(r, a', h, m), step * Pow(x, h), m);
      }
    }
  }

  /** What a caller can look at to know that nothing is lost: the operand can be doubled, or is not
    * squared, or what its doubling loses is a multiple of the modulus. */
  predicate PowModLossless(a: u64, b: u64, m: u64)
    requires m > 0
  {
    a + a < W64 + m || b <= 1 || (W64 * (a / 2)) % m == 0
  }

  lemma LosslessValue(a: u64, b: u64, m: u64)
    requires m > 0 && PowModLossless(a, b, m)
    ensures PowModValue(a, b, m) == Pow(a, b) % m <==> m > 1 || b > 0
  {
    hide Cong;
    if b == 0 {
      assert Pow(a, 0) == 1;
      if m > 1 {
        ModUnique(1, 0, 1, m);
      }
    } else {
      var h, step := b / 2, if b % 2 == 1 then a else 1;
      var loss := MulModLoss(a, a, m);
      PowHalf(a, b);
      if b == 1 {
        assert Pow(a * a - loss, 0) == 1 == Pow(a * a, 0);
      } else {
        LossVanishes(a, a * a, m);
        CongPow(a * a - loss, a * a, h, m);
        CongRefl(step, m);
        CongMul(step, step, Pow(a * a - loss, h), Pow(a * a, h), m);
        CongIsMod(step * Pow(a * a - loss, h), step * Pow(a * a, h), m);
      }
    }
  }

  /** Whether an operand gives the right power for every exponent can be seen from the operand and the
    * modulus alone; one that fails fails at the square already. */
  lemma PowModExactIff(a: u64, m: u64)
    requires m > 0
    ensures (forall b: u64 :: b > 0 ==> PowModValue(a, b, m) == Pow(a, b) % m) <==>
            a + a < W64 + m || (W64 * (a / 2)) % m == 0
  {
    hide Pow, PowModValue, MulModLoss;
    if a + a < W64 + m || (W64 * (a / 2)) % m == 0 {
      forall b: u64 | b > 0 ensures PowModValue(a, b, m) == Pow(a, b) % m {
        LosslessValue(a, b, m);
      }
    } else {
      SquareValue(a, m);
      MulModExactIff(a, a, m);
    }
  }

  lemma SquareValue(a: u64, m: u64)
    requires m > 0
    ensures PowModValue(a, 2, m) == (a * a - MulModLoss(a, a, m)) % m && Pow(a, 2) == a * a
  {
    var x := a * a - MulModLoss(a, a, m);
    assert Pow(x, 1) == x * Pow(x, 0) == x;
    assert Pow(a, 2) == a * Pow(a, 1) == a * (a * Pow(a, 0));
  }

  lemma LossVanishes(a: u64, x: int, m: u64)
    requires m > 0 && (a + a < W64 + m || (W64 * (a / 2)) % m == 0)
    ensures Cong(x - MulModLoss(a, a, m), x, m)
  {
    var loss := MulModLoss(a, a, m);
    assert loss == loss / m * m;
    CongIntro(x, x - loss, m, loss / m);
  }

  lemma CongIsMod(x: int, y: int, m: int)
    requires m > 0 && Cong(x, y, m)
    ensures x % m == y % m
  {
  }

  /** `pow_mod` for every input; the power modulo `m` where nothing is lost, unless it is asked for the
    * zeroth power modulo one. */
  method PowMod(a0: u64, b0: u64, m: u64) returns (r: u64)
    requires m > 0
    ensures r == PowModFrom(1, a0, b0, m) == PowModValue(a0, b0, m)
    ensures PowModLossless(a0, b0, m) ==> (r == Pow(a0, b0) % m <==> m > 1 || b0 > 0)
  {
    var a, b := a0, b0;
    r := 1;
    while b != 0
      invariant PowModFrom(r, a, b, m) == PowModFrom(1, a0, b0, m)
      decreases b
    {
      if b % 2 == 1 {
        r := MulMod(r, a, m);
      }
      b := b / 2;
      if b != 0 {
        a := MulMod(a, a, m);
      }
    }
    PowModFromValue(a0, b0, m);
    if PowModLossless(a0, b0, m) {
      LosslessValue(a0, b0, m);
    }
  }

  /** Squaring an operand that is not reduced can go wrong, here modulo 3 ... */
  lemma PowModUnreducedCounterexample()
    ensures var a := 0x8000_0000_0000_0002; PowModValue(a, 2, 3) == 2 && Pow(a, 2) % 3 == 1
  {
    SquareValue(0x8000_0000_0000_0002, 3);
  }

  /** ... and so does the zeroth power of anything modulo one. */
  lemma PowModOneCounterexample(a: u64)
    ensures PowModValue(a, 0, 1) == 1 && Pow(a, 0) % 1 == 0
  {
  }

  // ---------- sprp ----------

  lemma ShiftOut(d: nat, s: nat, k: nat, p: nat)
    requires p == Pow2(k) && p > 0 && d % p == 0
    ensures Shl(d / p, s + k) == Shl(d, s)
  {
    hide Shl, Pow2;
    ShlAdd(d / p, s, k);
    ShlIsPower(d / p, k);
    WholeQuotient(d, p);
  }

  lemma WholeQuotient(d: nat, p: nat)
    requires p > 0 && d % p == 0
    ensures d / p * p == d
  {
  }

  lemma StillEven(d: nat, p: nat)
    requires p > 0 && d % p == 0
    ensures p * p > 0 && ((d / p) % p == 0 ==> d % (p * p) == 0)
    ensures d > 0 ==> d / p > 0
  {
    if (d / p) % p == 0 {
      var k := d / p / p;
      MulAssoc(k, p, p);
      ModUnique(d, k, 0, p * p);
    }
  }

  function SquareOf(b: nat, n: nat): (r: nat)
    requires n > 0
    ensures r < n
  {
    (b * b) % n
  }

  method SquareMod(b: u64, n: u64) returns (r: u64)
    requires b < n
    ensures r == SquareOf(b, n)
  {
    r := MulMod(b, b, n);
  }

  /** `b` squared `r` times, modulo `n`. */
  function Squares(n: nat, b: nat, r: nat): nat
    requires n > 0
  {
    if r == 0 then b else SquareOf(Squares(n, b, r - 1), n)
  }

  /** `a` raised to `d * 2^r`, modulo `n`, by squaring. */
  function Squared(n: nat, a: nat, d: nat, r: nat): nat
    requires n > 0
  {
    Squares(n, Pow(a, d) % n, r)
  }

  lemma {:induction false} SquaredIsPower(n: nat, a: nat, d: nat, r: nat)
    requires n > 0
    ensures Squared(n, a, d, r) == Pow(a, Shl(d, r)) % n
  {
    if r > 0 {
      SquaredIsPower(n, a, d, r - 1);
      var e := Shl(d, r - 1);
      PowAdd(a, e, e);
      var x := Pow(a, e);
      CongMod(x, n);
      CongMul(x % n, x, x % n, x, n);
    }
  }

  lemma SquareOfBit(n: nat, b: nat)
    requires n > 1 && b <= 1
    ensures (b * b) % n == b
  {
    ModUnique(b, 0, b, n);
  }

  lemma {:induction false} SquaresOfSmall(n: nat, b: nat, r: nat, t: nat)
    requires n > 1 && Squares(n, b, r) <= 1 && r <= t
    ensures Squares(n, b, t) <= 1
    decreases t
  {
    if r < t {
      SquaresOfSmall(n, b, r, t - 1);
      SquareOfBit(n, Squares(n, b, t - 1));
    }
  }

  /** Some entry of `b, b^2, b^4, ...` up to the last but one of `s + 1` witnesses that `n` may be prime. */
  ghost predicate PassesFrom(n: nat, b: nat, s: nat)
    requires n >= 2
  {
    b == 1 || b == n - 1 || exists r :: 1 <= r < s && Squares(n, b, r) == n - 1
  }

  ghost predicate Passes(n: nat, a: nat, d: nat, s: nat)
    requires n >= 2
  {
    PassesFrom(n, Pow(a, d) % n, s)
  }

  /** `n` passes Miller and Rabin's test to base `a`. */
  ghost predicate StrongProbablePrime(n: nat, a: nat)
    requires n >= 2
  {
    Passes(n, a, OddPart(n - 1), Twos(n - 1))
  }

  /** Once the squares have come down to zero or one they cannot rise to `n - 1`. */
  lemma NoLaterWitness(n: nat, b: nat, s: nat, r: nat)
    requires n > 2 && 1 <= r && Squares(n, b, r) <= 1 && b != 1
    requires forall t :: 0 <= t < r ==> Squares(n, b, t) != n - 1
    ensures !PassesFrom(n, b, s)
  {
    assert Squares(n, b, 0) == b;
    forall t | 0 <= t < s ensures Squares(n, b, t) != n - 1 {
      if r <= t {
        SquaresOfSmall(n, b, r, t);
      }
    }
  }

  /** One of the shifts at the head of `sprp`: drop `k` zero bits if there are that many. */
  method ShiftStep(d0: u64, s0: nat, k: nat, p: nat) returns (d: u64, s: nat)
    requires d0 > 0 && p == Pow2(k) && p > 0
    ensures d > 0 && Shl(d, s) == Shl(d0, s0)
    ensures p * p > 0 && (d % p == 0 ==> d0 % (p * p) == 0)
    ensures d0 % p == 0 ==> d == d0 / p
    ensures d0 % p != 0 ==> d == d0
  {
    d, s := d0, s0;
    if d % p == 0 {
      ShiftOut(d, s, k, p);
      StillEven(d, p);
      d, s := d / p, s + k;
    }
  }

  /** Bits are dropped eight at a time, then four, two and one. */
  method SplitOff(x: u64) returns (d: u64, s: nat)
    requires x > 0
    ensures d == OddPart(x) && s == Twos(x)
  {
    d, s := x, 0;
    assert Pow2(8) == 256;
    while d % 256 == 0
      invariant d > 0 && Shl(d, s) == x
      decreases d
    {
      d, s := ShiftStep(d, s, 8, 256);
    }
    d, s := ShiftStep(d, s, 4, 16);
    d, s := ShiftStep(d, s, 2, 4);
    d, s := ShiftStep(d, s, 1, 2);
    SplitUnique(d, s);
  }

  /** `sprp` looks for a witness among the squares of what `pow_mod` gives it; and so decides Miller and
    * Rabin's test wherever `pow_mod` loses nothing. */
  method Sprp(n: u64, a: u64) returns (pass: u32)
    requires n >= 2
    ensures pass == if PassesFrom(n, PowModValue(a, OddPart(n - 1), n), Twos(n - 1)) then 1 else 0
    ensures PowModLossless(a, OddPart(n - 1), n) ==> pass == if StrongProbablePrime(n, a) then 1 else 0
  {
    assert Twos(1) == 0;
    var d, s := SplitOff(n - 1);
    var b: u64 := PowMod(a, d, n);
    pass := Witness(n, b, s);
  }

  /** The second half of `sprp`, from the first power on. */
  method Witness(n: u64, b0: u64, s: nat) returns (pass: u32)
    requires b0 < n && (n > 2 || (n == 2 && s == 0))
    ensures pass == if PassesFrom(n, b0, s) then 1 else 0
  {
    var b := b0;
    assert Squares(n, b0, 0) == b0;
    if b == 1 || b == n - 1 {
      return 1;
    }
    var r := 1;
    while r < s
      invariant 1 <= r && (r <= s || s <= 1) && b < n
      invariant b == Squares(n, b0, r - 1)
      invariant forall t :: 0 <= t < r ==> Squares(n, b0, t) != n - 1
    {
      b := SquareMod(b, n);
      assert b == Squares(n, b0, r);
      if b <= 1 {
        NoLaterWitness(n, b0, s, r);
        return 0;
      }
      if b == n - 1 {
        return 1;
      }
      r := r + 1;
    }
    return 0;
  }

  /** With a base whose doubling wraps the test can refuse a prime: 7, to the base 2^63 + 4. */
  lemma SprpUnreducedCounterexample()
    ensures var a := 0x8000_0000_0000_0004;
      Prime(7) && StrongProbablePrime(7, a) && !PassesFrom(7, PowModValue(a, OddPart(6), 7), Twos(6))
  {
    var a := 0x8000_0000_0000_0004;
    assert OddPart(3) == 3 && OddPart(6) == 3 && Twos(3) == 0 && Twos(6) == 1;
    var x := a * a - MulModLoss(a, a, 7);
    assert Pow(x, 1) == x * Pow(x, 0) == x;
    assert x == 36893488147419103248 && (a * x) % 7 == 2;
    CubeOf(a);
  }

  lemma CubeOf(a: int)
    ensures Pow(a, 3) == a * (a * a)
  {
    assert Pow(a, 1) == a * Pow(a, 0);
    assert Pow(a, 2) == a * Pow(a, 1);
  }

  // ---------- is_prime ----------

  /** An odd prime passes the test to every base it does not divide: its only
    * square roots of one are 1 and -1. */
  lemma PrimePasses(n: nat, a: nat)
    requires Prime(n) && n > 2 && !Divides(n, a)
    ensures StrongProbablePrime(n, a)
  {
    var d, s := OddPart(n - 1), Twos(n - 1);
    Fermat(n, a);
    SquaredIsPower(n, a, d, s);
    ModUnique(1, 0, 1, n);
    assert Squared(n, a, d, s) == 1;
    WitnessExists(n, a, d, s);
  }

  lemma {:induction false} WitnessExists(n: nat, a: nat, d: nat, s: nat)
    requires Prime(n) && n > 2 && Squared(n, a, d, s) == 1
    ensures Passes(n, a, d, s)
  {
    if s > 0 {
      var b := Squared(n, a, d, s - 1);
      ModUnique(1, 0, 1, n);
      SquareRootsOfOne(n, b);
      ModUnique(b, 0, b, n);
      if b == 1 {
        WitnessExists(n, a, d, s - 1);
      }
    }
  }

  const BASES: seq<nat> := [2, 3, 5, 7, 11, 13, 17, 19, 23, 29, 31, 37]

  /** An odd number that passes Miller and Rabin's test passes Fermat's. */
  lemma PassesFermat(n: nat, a: nat)
    requires n > 2 && n % 2 == 1 && StrongProbablePrime(n, a)
    ensures Pow(a, n - 1) % n == 1
  {
    hide Pow;
    var d, s := OddPart(n - 1), Twos(n - 1);
    var b := Pow(a, d) % n;
    assert s > 0;
    assert Squares(n, b, 0) == b;
    if b == 1 {
      OnesStay(n, b, 0, s);
    } else {
      var r := if b == n - 1 then 0 else var r: nat :| r < s && Squares(n, b, r) == n - 1; r;
      SquareOfMinusOne(n);
      OnesStay(n, b, r + 1, s);
    }
    SquaredIsPower(n, a, d, s);
  }

  lemma SquareOfMinusOne(n: nat)
    requires n > 1
    ensures ((n - 1) * (n - 1)) % n == 1
  {
    assert (n - 1) * (n - 1) == (n - 2) * n + 1;
    ModUnique((n - 1) * (n - 1), n - 2, 1, n);
  }

  lemma {:induction false} OnesStay(n: nat, b: nat, r: nat, t: nat)
    requires n > 1 && Squares(n, b, r) == 1 && r <= t
    ensures Squares(n, b, t) == 1
    decreases t
  {
    if r < t {
      OnesStay(n, b, r, t - 1);
      SquareOfBit(n, 1);
    }
  }

  lemma PrimeAccepted(n: nat)
    ensures Prime(n) && n != 2 ==> n > 1 && n % 2 == 1
    ensures Prime(n) && n >= 4 ==> forall a: nat :: 0 < a < 38 && a < n ==> StrongProbablePrime(n, a)
  {
    if Prime(n) && n % 2 == 0 {
      assert Divides(2, n);
    }
    if n >= 4 && Prime(n) {
      forall a: nat | 0 < a < 38 && a < n ensures StrongProbablePrime(n, a) {
        ModUnique(a, 0, a, n);
        PrimePasses(n, a);
      }
    }
  }

  lemma BasesLossless(n: u64)
    ensures n >= 2 ==> forall a: u64, d: u64 :: a < 38 ==> PowModLossless(a, d, n)
  {
  }

  lemma FermatForAccepted(n: nat)
    ensures n >= 4 && n % 2 == 1 && StrongProbablePrime(n, 2) ==> Pow(2, n - 1) % n == 1
    ensures n >= 4 && n % 2 == 1 && (forall a :: a in BASES ==> StrongProbablePrime(n, a)) ==>
      forall a: nat :: a in [3, 5, 7, 11, 13, 17, 19, 23, 29, 31, 37] ==> Pow(a, n - 1) % n == 1
  {
    hide Pow, StrongProbablePrime;
    if n >= 4 && n % 2 == 1 && StrongProbablePrime(n, 2) {
      PassesFermat(n, 2);
    }
    if n >= 4 && n % 2 == 1 && forall a :: a in BASES ==> StrongProbablePrime(n, a) {
      forall a: nat | a in [3, 5, 7, 11, 13, 17, 19, 23, 29, 31, 37] ensures Pow(a, n - 1) % n == 1 {
        assert a in BASES;
        PassesFermat(n, a);
      }
    }
  }

  /** `is_prime`: no odd prime is refused, and an accepted number passes the tests of its range, so that from
    * 2047 on it has none of the first twelve primes for a factor. */
  method IsPrime(n: u64) returns (r: u32)
    ensures r == 0 || r == 1
    ensures Prime(n) && n != 2 ==> r == 1
    ensures r == 1 <==> n > 1 && n % 2 == 1 &&
                        (n < 4 || (StrongProbablePrime(n, 2) &&
                                   (n < 2047 || forall a :: a in BASES ==> StrongProbablePrime(n, a))))
    ensures r == 1 && n >= 4 ==> Pow(2, n - 1) % n == 1
    ensures r == 1 && n >= 2047 ==>
      forall a: nat :: a in [3, 5, 7, 11, 13, 17, 19, 23, 29, 31, 37] ==> Pow(a, n - 1) % n == 1
  {
    hide Pow, Prime, StrongProbablePrime, PassesFrom, PowModLossless, PowModValue;
    FermatForAccepted(n);
    PrimeAccepted(n);
    BasesLossless(n);
    if n < 2 || n % 2 == 0 {
      return 0;
    }
    if n < 4 {
      return 1;
    }
    var pass := Sprp(n, 2);
    if pass == 0 {
      return 0;
    }
    if n < 2047 {
      return 1;
    }
    pass := Sprp(n, 3);
    if pass == 0 {
      return 0;
    }
    pass := Sprp(n, 5);
    if pass == 0 {
      return 0;
    }
    pass := Sprp(n, 7);
    if pass == 0 {
      return 0;
    }
    pass := Sprp(n, 11);
    if pass == 0 {
      return 0;
    }
    pass := Sprp(n, 13);
    if pass == 0 {
      return 0;
    }
    pass := Sprp(n, 17);
    if pass == 0 {
      return 0;
    }
    pass := Sprp(n, 19);
    if pass == 0 {
      return 0;
    }
    pass := Sprp(n, 23);
    if pass == 0 {
      return 0;
    }
    pass := Sprp(n, 29);
    if pass == 0 {
      return 0;
    }
    pass := Sprp(n, 31);
    if pass == 0 {
      return 0;
    }
    pass := Sprp(n, 37);
    if pass == 0 {
      return 0;
    }
    return 1;
  }
}
