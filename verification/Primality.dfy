/** Proofs that given numbers are prime: trial division for small ones,
  * Pocklington's criterion for large ones.
  */
module Primality {
  import opened NumberTheory

  // ---------- Trial division ----------

  /** A composite number has a prime divisor not above its square root. */
  lemma SmallPrimeDivisor(n: nat) returns (p: nat)
    requires n >= 2 && !Prime(n)
    ensures Prime(p) && Divides(p, n) && p * p <= n && p < n
  {
    var d :| 2 <= d < n && Divides(d, n);
    var e := n / d;
    assert n == d * e;
    var s := if d <= e then d else e;
    if e <= 1 {
      MulMonotone(e, 1, d);
    }
    MulMonotone(s, e, s);
    MulMonotone(s, d, e);
    assert Divides(s, n) by {
      DividesIntro(d, n, e);
      DividesIntro(e, n, d);
    }
    p := PrimeDivisor(s);
    DividesBound(p, s);
    DividesTrans(p, s, n);
    MulMonotone(p, s, p);
    MulMonotone(p, s, s);
    assert s * s <= n;
    MulMonotone(2, p, p);
  }

  lemma SmallestPrimes()
    ensures forall p :: p in [2, 3, 5, 7, 11, 13, 17, 19, 23, 29, 31] ==> Prime(p)
  {
    hide Prime;
    PrimesTo13();
    Prime17();
    Prime19();
    Prime23();
    Prime29();
    Prime31();
  }

  lemma PrimesTo13()
    ensures Prime(2) && Prime(3) && Prime(5) && Prime(7) && Prime(11) && Prime(13)
  {
  }

  lemma Prime17()
    ensures Prime(17)
  {
  }

  lemma Prime19()
    ensures Prime(19)
  {
  }

  lemma Prime23()
    ensures Prime(23)
  {
  }

  lemma Prime29()
    ensures Prime(29)
  {
  }

  lemma Prime31()
    ensures Prime(31)
  {
  }

  lemma SmallPrime(n: nat)
    requires 31 < n < 1369
    requires n % 2 != 0 && n % 3 != 0 && n % 5 != 0 && n % 7 != 0 && n % 11 != 0 && n % 13 != 0
    requires n % 17 != 0 && n % 19 != 0 && n % 23 != 0 && n % 29 != 0 && n % 31 != 0
    ensures Prime(n)
  {
    if !Prime(n) {
      var p := SmallPrimeDivisor(n);
      if p >= 37 {
        MulMonotone(37, p, p);
        MulMonotone(37, p, 37);
      }
      PrimesBelow37(p);
    }
  }

  lemma PrimesBelow37(p: nat)
    requires Prime(p) && p < 37
    ensures p in [2, 3, 5, 7, 11, 13, 17, 19, 23, 29, 31]
  {
    if p != 2 && p != 3 && p != 5 {
      assert !Divides(2, p) && !Divides(3, p) && !Divides(5, p);
      if p == 7 * 1 || p == 11 {
      } else if p < 20 {
      } else {
      }
    }
  }

  // ---------- Powers of literals ----------

  /** A factor that two more exponent bits contribute to a power of `a`: none, or a power of `a` when
    * that is one of the bases used. */
  predicate Digit(a: nat, c: nat)
  {
    || c == 1
    || (a == 2 && (c == 2 || c == 4 || c == 8))
    || (a == 37 && (c == 37 || c == 1369 || c == 50653))
  }

  /** The two exponent bits behind such a factor. */
  function Log(c: nat): nat
  {
    if c == 1 then 0 else if c == 2 || c == 37 then 1 else if c == 4 || c == 1369 then 2 else 3
  }

  /** Ten more binary digits of an exponent, two at a time. */
  lemma Raise(a: nat, n: nat, e: nat, v: nat, c0: nat, w0: nat, c1: nat, w1: nat,
              c2: nat, w2: nat, c3: nat, w3: nat, c4: nat, w4: nat)
    returns (e': nat)
    requires n > 1 && Cong(Pow(a, e), v, n)
    requires Digit(a, c0) && Digit(a, c1) && Digit(a, c2) && Digit(a, c3) && Digit(a, c4)
    requires (v * v * v * v * c0) % n == w0 && (w0 * w0 * w0 * w0 * c1) % n == w1
    requires (w1 * w1 * w1 * w1 * c2) % n == w2 && (w2 * w2 * w2 * w2 * c3) % n == w3
    requires (w3 * w3 * w3 * w3 * c4) % n == w4
    ensures e' == 1024 * e + 256 * Log(c0) + 64 * Log(c1) + 16 * Log(c2) + 4 * Log(c3) + Log(c4)
    ensures Cong(Pow(a, e'), w4, n)
  {
    hide Pow;
    e' := RaiseDigit(a, n, e, v, c0, w0);
    e' := RaiseDigit(a, n, e', w0, c1, w1);
    e' := RaiseDigit(a, n, e', w1, c2, w2);
    e' := RaiseDigit(a, n, e', w2, c3, w3);
    e' := RaiseDigit(a, n, e', w3, c4, w4);
  }

  lemma RaiseDigit(a: nat, n: nat, e: nat, v: nat, c: nat, w: nat) returns (e': nat)
    requires n > 1 && Cong(Pow(a, e), v, n) && Digit(a, c)
    requires (v * v * v * v * c) % n == w
    ensures e' == 4 * e + Log(c) && Cong(Pow(a, e'), w, n)
  {
    hide Pow, Log, Digit;
    e' := 4 * e + Log(c);
    PowLog(a, c);
    SquareCong(a, n, e, v);
    SquareCong(a, n, 2 * e, v * v);
    var v4 := (v * v) * (v * v);
    PowAdd(a, 4 * e, Log(c));
    CongMul(Pow(a, 4 * e), v4, c, c, n);
    MulAssoc(v * v, v, v);
    CongMod(v4 * c, n);
  }

  lemma PowLog(a: nat, c: nat)
    requires Digit(a, c)
    ensures Pow(a, Log(c)) == c
  {
    assert Pow(a, 1) == a * Pow(a, 0) && Pow(a, 2) == a * Pow(a, 1) && Pow(a, 3) == a * Pow(a, 2);
  }

  lemma RaiseBit(a: nat, n: nat, e: nat, v: nat, w: nat) returns (e': nat)
    requires n > 1 && Cong(Pow(a, e), v, n) && (v * v) % n == w
    ensures e' == 2 * e && Cong(Pow(a, e'), w, n)
  {
    e' := 2 * e;
    SquareCong(a, n, e, v);
    CongMod(v * v, n);
  }

  lemma Start(a: nat, n: nat) returns (e: nat)
    requires n > 1
    ensures e == 0 && Cong(Pow(a, e), 1, n)
  {
    e := 0;
  }

  lemma Start1(a: nat, n: nat) returns (e: nat)
    requires n > 1
    ensures e == 1 && Cong(Pow(a, e), a, n)
  {
    e := 1;
    assert Pow(a, 1) == a * Pow(a, 0);
  }

  lemma SquareCong(a: nat, n: nat, e: nat, v: nat)
    requires n > 1 && Cong(Pow(a, e), v, n)
    ensures Cong(Pow(a, 2 * e), v * v, n)
  {
    PowAdd(a, e, e);
    CongMul(Pow(a, e), v, Pow(a, e), v, n);
  }

  // ---------- Proth's and Pocklington's criteria ----------

  /** If `b^q = b^r = 1` for a prime `q` above `r`, then `b = 1`. */
  lemma {:induction false} CoprimeExponents(p: int, b: int, q: nat, r: nat)
    requires p > 1 && Prime(q) && 0 < r < q
    requires Cong(Pow(b, q), 1, p) && Cong(Pow(b, r), 1, p)
    ensures Cong(b, 1, p)
    decreases r
  {
    if r == 1 {
      assert Pow(b, 1) == b * Pow(b, 0);
    } else {
      var s := q % r;
      assert !Divides(r, q);
      PowRemainder(p, b, q, r);
      CoprimeExponents(p, b, q, s);
    }
  }

  /** A period of the powers of `b` may be taken out of the exponent. */
  lemma PowRemainder(p: int, b: int, x: nat, r: nat)
    requires p > 1 && r > 0 && Cong(Pow(b, r), 1, p)
    ensures Cong(Pow(b, x % r), Pow(b, x), p)
  {
    var t := x / r;
    assert x == r * t + x % r;
    PowMul(b, r, t);
    PowAdd(b, r * t, x % r);
    CongPow(Pow(b, r), 1, t, p);
    PowOne(t);
    CongMul(Pow(b, r * t), 1, Pow(b, x % r), Pow(b, x % r), p);
  }

  /** `f = a^m` has order `q` modulo `n`, and is not one modulo any prime divisor of `n`. */
  ghost predicate Evidence(n: nat, q: nat, f: int, inverse: nat)
  {
    n > 1 && Cong(Pow(f, q), 1, n) && ((f - 1) * inverse) % n == 1
  }

  lemma OrderOfPower(n: nat, a: nat, e: nat, m: nat, q: nat, f: int)
    requires n > 1 && e == m * q && Cong(Pow(a, e), 1, n) && Cong(Pow(a, m), f, n)
    ensures Cong(Pow(f, q), 1, n)
  {
    PowMul(a, m, q);
    CongPow(Pow(a, m), f, q, n);
  }

  /** Then every prime divisor of `n` is one more than a multiple of `q`. */
  lemma PrimeDivisorResidue(n: nat, q: nat, f: int, inverse: nat, p: nat)
    requires Prime(q) && Evidence(n, q, f, inverse)
    requires Prime(p) && Divides(p, n)
    ensures Divides(q, p - 1)
  {
    CongDivisor(Pow(f, q), 1, n, p);
    NotOneModulo(n, f, inverse, p);
    UnitHasInverse(p, f, q);
    Fermat(p, f);
    var r := (p - 1) % q;
    PowRemainder(p, f, p - 1, q);
    if r != 0 {
      CoprimeExponents(p, f, q, r);
    }
  }

  lemma NotOneModulo(n: nat, f: int, inverse: nat, p: nat)
    requires n > 1 && ((f - 1) * inverse) % n == 1 && Prime(p) && Divides(p, n)
    ensures !Cong(f, 1, p)
  {
    if Cong(f, 1, p) {
      CongIffDivides(f, 1, p);
      DividesMul(p, f - 1, inverse);
      ModUnique(1, 0, 1, n);
      CongDivisor((f - 1) * inverse, 1, n, p);
      ModUnique(1, 0, 1, p);
    }
  }

  lemma UnitHasInverse(p: nat, b: int, q: nat)
    requires Prime(p) && q > 0 && Cong(Pow(b, q), 1, p)
    ensures !Divides(p, b)
  {
    if Divides(p, b) {
      DividesMul(p, b, Pow(b, q - 1));
      ModUnique(1, 0, 1, p);
    }
  }

  lemma CongDivisor(x: int, y: int, n: nat, p: nat)
    requires n > 0 && p > 0 && Divides(p, n) && Cong(x, y, n)
    ensures Cong(x, y, p)
  {
    CongIffDivides(x, y, n);
    DividesTrans(p, n, x - y);
    CongIffDivides(x, y, p);
  }

  lemma DivisorIsLarge(n: nat, f: nat, p: nat)
    requires p >= 2 && f > 0 && f * f >= n && Divides(f, p - 1)
    ensures p * p > n
  {
    DividesBound(f, p - 1);
    MulMonotone(f + 1, p, p);
    MulMonotone(f, p, f);
  }

  /** None of the numbers `2 q i + 1` for `0 < i <= c` divides `n`. */
  predicate NoCandidate(n: nat, q: nat, c: nat)
  {
    c == 0 || (n % (2 * q * c + 1) != 0 && NoCandidate(n, q, c - 1))
  }

  lemma {:induction false} NoCandidateSound(n: nat, q: nat, c: nat, i: nat)
    requires 0 < i <= c && NoCandidate(n, q, c)
    ensures !Divides(2 * q * i + 1, n)
  {
    if i < c {
      NoCandidateSound(n, q, c - 1, i);
    }
  }

  /** Pocklington: an odd number is prime when a power `f` of two has a prime order `q` modulo it and
    * none of the few candidates `2 q i + 1` below its square root divides it. */
  lemma Pocklington(n: nat, q: nat, e: nat, m: nat, f: int, inverse: nat, candidates: nat)
    requires Prime(q) && q > 2 && n % 2 == 1 && n > 1
    requires e == m * q && Cong(Pow(2, e), 1, n) && Cong(Pow(2, m), f, n) && ((f - 1) * inverse) % n == 1
    requires NoCandidate(n, q, candidates)
    requires (2 * q * (candidates + 1) + 1) * (2 * q * (candidates + 1) + 1) > n
    ensures Prime(n)
  {
    hide Pow, Prime, Divides, Cong;
    if !Prime(n) {
      var p := SmallPrimeDivisor(n);
      OrderOfPower(n, 2, e, m, q, f);
      PrimeDivisorResidue(n, q, f, inverse, p);
      var i := OddResidue(n, q, p);
      if i > candidates {
        CandidateIsLarge(p, q, i, candidates + 1);
      } else {
        NoCandidateSound(n, q, candidates, i);
      }
    }
  }

  lemma AtLeastTwo(p: nat)
    requires Prime(p)
    ensures p >= 2
  {
  }

  lemma OddPrime(q: nat)
    requires Prime(q) && q > 2
    ensures q % 2 == 1
  {
    assert !Divides(2, q);
  }

  /** A divisor of an odd number that is one more than a multiple of an odd `q` is so by an even factor. */
  lemma OddResidue(n: nat, q: nat, p: nat) returns (i: nat)
    requires n % 2 == 1 && Prime(q) && q > 2 && Prime(p) && Divides(p, n) && Divides(q, p - 1)
    ensures i > 0 && p == 2 * q * i + 1
  {
    hide Prime, Divides;
    AtLeastTwo(p);
    OddPrime(q);
    var t := DividesElim(q, p - 1);
    var u := DividesElim(p, n);
    ProductParity(u, p);
    ProductParity(t, q);
    i := t / 2;
    MulAssoc(i, 2, q);
  }

  lemma CandidateIsLarge(p: nat, q: nat, i: nat, j: nat)
    requires j <= i && p == 2 * q * i + 1
    ensures p * p >= (2 * q * j + 1) * (2 * q * j + 1)
  {
    var big := 2 * q * j + 1;
    MulMonotone(j, i, 2 * q);
    assert big <= p;
    MulMonotone(big, p, p);
    MulMonotone(big, p, big);
  }

  lemma ProductParity(a: int, b: int)
    ensures (a * b) % 2 == (a % 2) * (b % 2)
  {
    CongMod(a, 2);
    CongMod(b, 2);
    CongMul(a % 2, a, b % 2, b, 2);
  }

  /** Proth: it is prime when a power of two above its square root divides `n - 1` and
    * half that power takes some `b` to minus one. */
  lemma Proth(n: nat, k: nat, e: nat, b: nat)
    requires n > 2 && n % 2 == 1 && k > 0 && Pow2(k) * Pow2(k) >= n
    requires e == Pow2(k - 1) && Cong(Pow(b, e), n - 1, n)
    ensures Prime(n)
  {
    if !Prime(n) {
      var p := SmallPrimeDivisor(n);
      var t := DividesElim(p, n);
      ProductParity(t, p);
      CongIntro(n - 1, -1, n, 1);
      CongDivisor(Pow(b, e), -1, n, p);
      TwoPowerOrder(p, b, k);
      DivisorIsLarge(n, Pow2(k), p);
    }
  }

  lemma PowerDividesShl(o: nat, j: nat, k: nat)
    requires k <= j
    ensures Divides(Pow2(k), Shl(o, j))
  {
    ShlIsPower(o, j);
    PowAdd(2, j - k, k);
    MulAssoc(o, Pow2(j - k), Pow2(k));
    DividesIntro(Pow2(k), Shl(o, j), o * Pow2(j - k));
  }

  /** If `b^(2^(k-1)) = -1` modulo an odd prime `p` then `2^k` divides `p - 1`. */
  lemma TwoPowerOrder(p: nat, b: int, k: nat)
    requires Prime(p) && p > 2 && k > 0 && Cong(Pow(b, Pow2(k - 1)), -1, p)
    ensures Divides(Pow2(k), p - 1)
  {
    var o, j := OddPart(p - 1), Twos(p - 1);
    if k <= j {
      PowerDividesShl(o, j, k);
    } else {
      ShlIsPower(o, j);
      UnitOfMinusOne(p, b, Pow2(k - 1));
      Fermat(p, b);
      OrderTooLarge(p, b, k, o, j);
    }
  }

  lemma OrderTooLarge(p: nat, b: int, k: nat, o: nat, j: nat)
    requires p > 2 && o % 2 == 1 && j < k
    requires Cong(Pow(b, Pow2(k - 1)), -1, p)
    ensures !Cong(Pow(b, o * Pow2(j)), 1, p)
  {
    var x := Pow2(k - 1 - j);
    PowAdd(2, j, k - 1 - j);
    PowMul(b, Pow2(j), x);
    PowMul(b, Pow2(j), o);
    OneIsNotMinusOne(p, Pow(b, Pow2(j)), x, o);
  }

  /** `c^x = -1` and `c^o = 1` for an odd `o` cannot both hold. */
  lemma OneIsNotMinusOne(p: nat, c: int, x: nat, o: nat)
    requires p > 2 && o % 2 == 1 && Cong(Pow(c, x), -1, p)
    ensures !Cong(Pow(c, o), 1, p)
  {
    if Cong(Pow(c, o), 1, p) {
      MinusOneOdd(o);
      CongPow(Pow(c, x), -1, o, p);
      PowMul(c, x, o);
      PowMul(c, o, x);
      CongPow(Pow(c, o), 1, x, p);
      PowOne(x);
      ModUnique(1, 0, 1, p);
      ModUnique(-1, -1, p - 1, p);
    }
  }

  lemma {:induction false} MinusOneOdd(o: nat)
    requires o % 2 == 1
    ensures Pow(-1, o) == -1
  {
    if o > 1 {
      MinusOneOdd(o - 2);
      assert Pow(-1, o - 1) == -Pow(-1, o - 2);
    }
  }

  lemma UnitOfMinusOne(p: nat, b: int, q: nat)
    requires Prime(p) && q > 0 && Cong(Pow(b, q), -1, p)
    ensures !Divides(p, b)
  {
    if Divides(p, b) {
      DividesMul(p, b, Pow(b, q - 1));
      ModUnique(-1, -1, p - 1, p);
    }
  }
}
