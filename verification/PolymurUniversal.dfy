/** Why PolymurHash seldom collides: different messages stand for different polynomials, modulo 2^61 - 1
  * as well, and so agree at few keys.
  */
module PolymurUniversal {
  import opened NumberTheory
  import opened Words
  import opened Bytes
  import opened Polynomials
  import opened PolymurGroup
  import opened Polymur
  import opened PolymurHash

  // ---------- Coefficients ----------

  /** The coefficients of the polynomial of a tail. */
  function TailCoefficients(s: seq<u8>): (c: seq<int>)
    requires |s| < 50
    ensures |c| == 14
  {
    var n := |s|;
    if n <= 7 then [LittleEndian(s) * n, n, LittleEndian(s), 1, 0, 0, 0, 0, 0, 0, 0, 0, 0, 0]
    else if n <= 21 then MiddleCoefficients(n, Word(s, 0), Word(s, (n - 7) / 2), Word(s, n - 7))
    else LongCoefficients(n, Word(s, 0), Word(s, (n - 7) / 2), Word(s, n - 7), Word(s, 7), Word(s, 14),
                          Word(s, n - 21), Word(s, n - 14))
  }

  function MiddleCoefficients(n: int, w0: int, w1: int, w2: int): (c: seq<int>)
    ensures |c| == 14
  {
    [w0 * w1 + w2 * n, n, w1, w2, 1, 0, 0, w0, 0, 1, 0, 0, 0, 0]
  }

  function LongCoefficients(n: int, w0: int, w1: int, w2: int, w3: int, w4: int, w5: int, w6: int): (c: seq<int>)
    ensures |c| == 14
  {
    [w2 * n + w3 * w4 + (w0 * w1 + w5) * w6, n, w4 + w1 * w6, w2, 1 + (w0 * w1 + w5), 0, w1,
     w3 + w0 * w6, 0, 1 + w6, 0, w0, 0, 1]
  }

  /** The part of a block's polynomial that does not depend on the key. */
  function BlockConstant(s: seq<u8>): int
    requires |s| >= 49
  {
    Word(s, 0) * Word(s, 7) + Word(s, 14) * Word(s, 21) + Word(s, 28) * Word(s, 35)
  }

  /** The seven higher coefficients of a block. */
  function BlockHigh(s: seq<u8>): (c: seq<int>)
    requires |s| >= 49
    ensures |c| == 7
  {
    [Word(s, 7), Word(s, 21), Word(s, 35), Word(s, 28), Word(s, 14), Word(s, 0), 3 + Word(s, 42)]
  }

  /** The coefficients of the block part: the lowest of a block falls on the highest of the next. */
  function BlockCoefficients(s: seq<u8>): (c: seq<int>)
    ensures |c| == 7 * BlockCount(|s|) + 1
    decreases |s|
  {
    if |s| < 50 then [0] else Laid(BlockCoefficients(s[49..]), BlockConstant(s), BlockHigh(s))
  }

  /** A row of coefficients laid over the end of another. */
  function Laid(low: seq<int>, x: int, high: seq<int>): (c: seq<int>)
    requires low != []
    ensures |c| == |low| + |high|
  {
    low[..|low| - 1] + [low[|low| - 1] + x] + high
  }

  function Coefficients(s: seq<u8>): (c: seq<int>)
    ensures |c| == 15 + 7 * BlockCount(|s|)
  {
    CountLeft(s);
    TailCoefficients(s[49 * BlockCount(|s|)..]) + BlockCoefficients(s)
  }

  lemma CountLeft(s: seq<u8>)
    ensures 49 * BlockCount(|s|) <= |s| < 49 * BlockCount(|s|) + 50
  {
  }

  // ---------- They are the polynomial's ----------

  lemma EvalTerm(c: seq<int>, k: int, i: nat)
    requires i < |c|
    ensures Pow(k, i) * Eval(c[i..], k) == c[i] * Pow(k, i) + Pow(k, i + 1) * Eval(c[i + 1..], k)
  {
    var d := c[i..];
    assert d[0] == c[i] && d[1..] == c[i + 1..];
    var p, e := Pow(k, i), Eval(c[i + 1..], k);
    assert Pow(k, i + 1) == k * p;
    MulAssoc(p, k, e);
    assert p * (c[i] + k * e) == p * c[i] + p * (k * e);
  }

  lemma EvalStart(c: seq<int>, k: int)
    ensures Eval(c, k) == Pow(k, 0) * Eval(c[0..], k)
    ensures Eval(c[|c|..], k) == 0
  {
    assert c[0..] == c;
  }

  lemma EvalEight(c: seq<int>, k: int)
    requires |c| == 8
    ensures Eval(c, k) == c[0] * Pow(k, 0) + c[1] * Pow(k, 1) + c[2] * Pow(k, 2) + c[3] * Pow(k, 3)
      + c[4] * Pow(k, 4) + c[5] * Pow(k, 5) + c[6] * Pow(k, 6) + c[7] * Pow(k, 7)
  {
    hide Eval, Pow;
    EvalStart(c, k);
    EvalTerm(c, k, 0);
    EvalTerm(c, k, 1);
    EvalTerm(c, k, 2);
    EvalTerm(c, k, 3);
    EvalTerm(c, k, 4);
    EvalTerm(c, k, 5);
    EvalTerm(c, k, 6);
    EvalTerm(c, k, 7);
  }

  lemma EvalFourteen(c: seq<int>, k: int)
    requires |c| == 14
    ensures Eval(c, k) == c[0] * Pow(k, 0) + c[1] * Pow(k, 1) + c[2] * Pow(k, 2) + c[3] * Pow(k, 3)
      + c[4] * Pow(k, 4) + c[5] * Pow(k, 5) + c[6] * Pow(k, 6) + c[7] * Pow(k, 7) + c[8] * Pow(k, 8)
      + c[9] * Pow(k, 9) + c[10] * Pow(k, 10) + c[11] * Pow(k, 11) + c[12] * Pow(k, 12) + c[13] * Pow(k, 13)
  {
    hide Eval, Pow;
    EvalStart(c, k);
    EvalTerm(c, k, 0);
    EvalTerm(c, k, 1);
    EvalTerm(c, k, 2);
    EvalTerm(c, k, 3);
    EvalTerm(c, k, 4);
    EvalTerm(c, k, 5);
    EvalTerm(c, k, 6);
    EvalTerm(c, k, 7);
    EvalTerm(c, k, 8);
    EvalTerm(c, k, 9);
    EvalTerm(c, k, 10);
    EvalTerm(c, k, 11);
    EvalTerm(c, k, 12);
    EvalTerm(c, k, 13);
  }

  lemma Foil(a: int, m: int, b: int, n: int)
    ensures (a + m) * (b + n) == a * b + n * a + m * b + m * n
  {
  }

  lemma PowProducts(k: int)
    ensures Pow(k, 0) == 1 && Pow(k, 1) == k
    ensures k * Pow(k, 2) == Pow(k, 3) && k * Pow(k, 3) == Pow(k, 4) && k * Pow(k, 6) == Pow(k, 7)
    ensures Pow(k, 2) * Pow(k, 4) == Pow(k, 6) && Pow(k, 2) * Pow(k, 5) == Pow(k, 7)
    ensures Pow(k, 2) * Pow(k, 7) == Pow(k, 9) && Pow(k, 3) * Pow(k, 4) == Pow(k, 7)
    ensures Pow(k, 7) * Pow(k, 4) == Pow(k, 11) && Pow(k, 9) * Pow(k, 4) == Pow(k, 13)
  {
    hide Pow;
    FirstPowers(k);
    PowAdd(k, 1, 2);
    PowAdd(k, 1, 3);
    PowAdd(k, 1, 6);
    PowAdd(k, 2, 4);
    PowAdd(k, 2, 5);
    PowAdd(k, 2, 7);
    PowAdd(k, 3, 4);
    PowAdd(k, 7, 4);
    PowAdd(k, 9, 4);
  }

  lemma FirstPowers(k: int)
    ensures Pow(k, 0) == 1 && Pow(k, 1) == k
  {
    assert Pow(k, 1) == k * Pow(k, 0);
  }

  lemma ShortIsPolynomial(k: int, s: seq<u8>)
    requires |s| <= 7
    ensures Eval(TailCoefficients(s), k) == TailPoly(k, s)
  {
    hide Eval, Pow, LittleEndian;
    EvalFourteen(TailCoefficients(s), k);
    PowProducts(k);
    Foil(k, LittleEndian(s), Pow(k, 2), |s|);
  }

  lemma MiddleIsPolynomial(k: int, s: seq<u8>)
    requires 8 <= |s| <= 21
    ensures Eval(TailCoefficients(s), k) == TailPoly(k, s)
  {
    hide Eval, Pow, Word;
    var n, w0, w1, w2 := |s|, Word(s, 0), Word(s, (|s| - 7) / 2), Word(s, |s| - 7);
    EvalFourteen(MiddleCoefficients(n, w0, w1, w2), k);
    PowProducts(k);
    Foil(Pow(k, 2), w0, Pow(k, 7), w1);
    Foil(k, w2, Pow(k, 3), n);
  }

  lemma LongIsPolynomial(k: int, s: seq<u8>)
    requires 22 <= |s| < 50
    ensures Eval(TailCoefficients(s), k) == TailPoly(k, s)
  {
    hide Eval, Pow, Word;
    var n, w0, w1, w2 := |s|, Word(s, 0), Word(s, (|s| - 7) / 2), Word(s, |s| - 7);
    var w3, w4, w5, w6 := Word(s, 7), Word(s, 14), Word(s, n - 21), Word(s, n - 14);
    EvalFourteen(LongCoefficients(n, w0, w1, w2, w3, w4, w5, w6), k);
    PowProducts(k);
    Foil(Pow(k, 2), w0, Pow(k, 7), w1);
    Foil(k, w2, Pow(k, 3), n);
    Foil(Pow(k, 2), w3, Pow(k, 7), w4);
    CrossIsPolynomial(Pow(k, 2), Pow(k, 4), Pow(k, 6), Pow(k, 7), Pow(k, 9), Pow(k, 11), Pow(k, 13), w0, w1, w5, w6);
    Distribute(w3, w0 * w6, Pow(k, 7));
    Distribute(w4, w1 * w6, Pow(k, 2));
    Distribute(1, w6, Pow(k, 9));
    Distribute(1, w0 * w1 + w5, Pow(k, 4));
  }

  lemma Distribute(a: int, b: int, x: int)
    ensures (a + b) * x == a * x + b * x
  {
  }

  /** The product in which a product is a factor. */
  lemma CrossIsPolynomial(k2: int, k4: int, k6: int, k7: int, k9: int, k11: int, k13: int,
                          w0: int, w1: int, w5: int, w6: int)
    requires k2 * k4 == k6 && k7 * k4 == k11 && k9 * k4 == k13
    ensures (k9 + w1 * k2 + w0 * k7 + w0 * w1 + w5) * (k4 + w6) ==
      k13 + w6 * k9 + w1 * k6 + w1 * w6 * k2 + w0 * k11 + w0 * w6 * k7 + (w0 * w1 + w5) * k4 + (w0 * w1 + w5) * w6
  {
    var u := w0 * w1 + w5;
    Foil(k9 + w1 * k2 + w0 * k7, u, k4, w6);
    Distribute(k9 + w1 * k2, w0 * k7, k4);
    Distribute(k9, w1 * k2, k4);
    MulAssoc(w0, k7, k4);
    MulAssoc(w1, k2, k4);
    Distribute(k9 + w1 * k2, w0 * k7, w6);
    Distribute(k9, w1 * k2, w6);
    Swap(w1, k2, w6);
    Swap(w0, k7, w6);
  }

  lemma Swap(a: int, b: int, c: int)
    ensures (a * b) * c == (a * c) * b
  {
    MulAssoc(a, b, c);
    MulAssoc(a, c, b);
  }

  lemma TailIsPolynomial(k: int, s: seq<u8>)
    requires |s| < 50
    ensures Eval(TailCoefficients(s), k) == TailPoly(k, s)
  {
    hide Eval, TailCoefficients, TailPoly;
    if |s| <= 7 {
      ShortIsPolynomial(k, s);
    } else if |s| <= 21 {
      MiddleIsPolynomial(k, s);
    } else {
      LongIsPolynomial(k, s);
    }
  }

  lemma OneBlock(k: int, s: seq<u8>)
    requires |s| >= 49
    ensures Eval([BlockConstant(s)] + BlockHigh(s), k) == BlockPoly(k, 0, s)
  {
    hide Eval, Pow, Word;
    EvalEight([BlockConstant(s)] + BlockHigh(s), k);
    PowProducts(k);
    Foil(k, Word(s, 0), Pow(k, 6), Word(s, 7));
    Foil(Pow(k, 2), Word(s, 14), Pow(k, 5), Word(s, 21));
    Foil(Pow(k, 3), Word(s, 28), Pow(k, 4), Word(s, 35));
    Distribute(3, Word(s, 42), Pow(k, 7));
  }

  lemma Overlap(low: seq<int>, x: int, high: seq<int>, k: int)
    requires low != []
    ensures Eval(Laid(low, x, high), k) == Eval(low, k) + Pow(k, |low| - 1) * Eval([x] + high, k)
  {
    hide Pow, Eval;
    LastApart(low);
    OverlapParts(low[..|low| - 1], low[|low| - 1], x, high, k);
  }

  lemma LastApart(low: seq<int>)
    requires low != []
    ensures low == low[..|low| - 1] + [low[|low| - 1]]
  {
  }

  lemma OverlapParts(front: seq<int>, y: int, x: int, high: seq<int>, k: int)
    ensures Eval(front + [y + x] + high, k) == Eval(front + [y], k) + Pow(k, |front|) * Eval([x] + high, k)
  {
    hide Pow, Eval;
    assert front + [y + x] + high == front + ([y + x] + high);
    EvalAppend(front, [y], k);
    EvalAppend(front, [y + x] + high, k);
    EvalOne(y, k);
    FirstAdded(y, x, high, k);
    Spread(Pow(k, |front|), y, Eval([x] + high, k));
  }

  lemma Spread(p: int, a: int, b: int)
    ensures p * (a + b) == p * a + p * b
  {
  }

  lemma FirstAdded(y: int, x: int, high: seq<int>, k: int)
    ensures Eval([y + x] + high, k) == y + Eval([x] + high, k)
  {
    assert ([y + x] + high)[1..] == high && ([x] + high)[1..] == high;
  }

  lemma {:induction false} BlocksArePolynomial(k: int, s: seq<u8>)
    ensures Eval(BlockCoefficients(s), k) == BlockSum(k, s)
    decreases |s|
  {
    hide Pow, Eval, BlockPoly, BlockConstant, BlockHigh, Laid;
    if |s| < 50 {
      EvalOne(0, k);
    } else {
      var low := BlockCoefficients(s[49..]);
      BlocksArePolynomial(k, s[49..]);
      OneBlock(k, s);
      Overlap(low, BlockConstant(s), BlockHigh(s), k);
      CountStep(|s|);
    }
  }

  /** The value of the coefficients is the polynomial the hash computes. */
  lemma CoefficientsArePolynomial(k: int, s: seq<u8>)
    ensures Eval(Coefficients(s), k) == Poly(k, s)
  {
    hide Pow, Eval, BlockSum, TailPoly, TailCoefficients, BlockCoefficients;
    CountLeft(s);
    var tail := s[49 * BlockCount(|s|)..];
    EvalAppend(TailCoefficients(tail), BlockCoefficients(s), k);
    TailIsPolynomial(k, tail);
    BlocksArePolynomial(k, s);
  }

  // ---------- They determine the message ----------

  lemma {:induction false} LittleEndianInjective(a: seq<u8>, b: seq<u8>)
    requires |a| == |b| && LittleEndian(a) == LittleEndian(b)
    ensures a == b
    decreases |a|
  {
    if a != [] {
      LittleEndianInjective(a[1..], b[1..]);
      assert a == [a[0]] + a[1..] && b == [b[0]] + b[1..];
    }
  }

  /** Equal words are equal bytes. */
  lemma SameWord(s: seq<u8>, t: seq<u8>, at: nat)
    requires at + 7 <= |s| && at + 7 <= |t| && Word(s, at) == Word(t, at)
    ensures forall i :: at <= i < at + 7 ==> s[i] == t[i]
  {
    hide LittleEndian;
    LittleEndianInjective(s[at..at + 7], t[at..at + 7]);
    forall i | at <= i < at + 7 ensures s[i] == t[i] {
      assert s[at..at + 7][i - at] == t[at..at + 7][i - at];
    }
  }

  lemma WordBound(s: seq<u8>, at: nat)
    requires at + 7 <= |s|
    ensures Word(s, at) < B56
  {
    LittleEndianBound(s[at..at + 7]);
  }

  /** Numbers below the modulus are known by their remainders, also beside a sum that is known. */
  lemma SmallSame(x: int, y: int, z: int)
    requires 0 <= x < P611 && 0 <= y < P611 && Cong(x + z, y + z, P611)
    ensures x == y
  {
    SumSame(x, y, z);
    ModUnique(x, 0, x, P611);
    ModUnique(y, 0, y, P611);
  }

  lemma SumSame(x: int, y: int, z: int)
    requires Cong(x + z, y + z, P611)
    ensures Cong(x, y, P611)
  {
    CongIffDivides(x + z, y + z, P611);
    CongIffDivides(x, y, P611);
  }

  ghost predicate Same(a: seq<int>, b: seq<int>)
  {
    |a| == |b| && forall i :: 0 <= i < |a| ==> Cong(a[i], b[i], P611)
  }

  lemma NotZero(x: int)
    requires 0 < x < P611
    ensures !Cong(x, 0, P611)
  {
    ModUnique(x, 0, x, P611);
  }

  lemma MiddleWords(n: nat, w0: nat, w1: nat, w2: nat, n': nat, v0: nat, v1: nat, v2: nat)
    requires n < 50 && n' < 50 && w0 < B56 && w1 < B56 && w2 < B56 && v0 < B56 && v1 < B56 && v2 < B56
    requires Same(MiddleCoefficients(n, w0, w1, w2), MiddleCoefficients(n', v0, v1, v2))
    ensures n == n' && w0 == v0 && w1 == v1 && w2 == v2
  {
    hide Cong;
    var a, b := MiddleCoefficients(n, w0, w1, w2), MiddleCoefficients(n', v0, v1, v2);
    assert Cong(a[1], b[1], P611) && Cong(a[2], b[2], P611) && Cong(a[3], b[3], P611) && Cong(a[7], b[7], P611);
    SmallSame(n, n', 0);
    SmallSame(w1, v1, 0);
    SmallSame(w2, v2, 0);
    SmallSame(w0, v0, 0);
  }

  lemma LongWords(n: nat, w0: nat, w1: nat, w2: nat, w3: nat, w4: nat, w5: nat, w6: nat,
                  n': nat, v0: nat, v1: nat, v2: nat, v3: nat, v4: nat, v5: nat, v6: nat)
    requires n < 50 && n' < 50
    requires w0 < B56 && w1 < B56 && w2 < B56 && w3 < B56 && w4 < B56 && w5 < B56 && w6 < B56
    requires v0 < B56 && v1 < B56 && v2 < B56 && v3 < B56 && v4 < B56 && v5 < B56 && v6 < B56
    requires Same(LongCoefficients(n, w0, w1, w2, w3, w4, w5, w6), LongCoefficients(n', v0, v1, v2, v3, v4, v5, v6))
    ensures n == n' && w0 == v0 && w1 == v1 && w2 == v2 && w3 == v3 && w4 == v4 && w5 == v5 && w6 == v6
  {
    hide Cong;
    var a := LongCoefficients(n, w0, w1, w2, w3, w4, w5, w6);
    var b := LongCoefficients(n', v0, v1, v2, v3, v4, v5, v6);
    assert Cong(a[1], b[1], P611) && Cong(a[3], b[3], P611) && Cong(a[6], b[6], P611) && Cong(a[9], b[9], P611);
    assert Cong(a[11], b[11], P611) && Cong(a[2], b[2], P611) && Cong(a[4], b[4], P611) && Cong(a[7], b[7], P611);
    SmallSame(n, n', 0);
    SmallSame(w0, v0, 0);
    SmallSame(w1, v1, 0);
    SmallSame(w2, v2, 0);
    SmallSame(1 + w6, 1 + v6, 0);
    BesideProduct(w3, v3, 0, w0, w6);
    BesideProduct(w4, v4, 0, w1, w6);
    BesideProduct(w5, v5, 1, w0, w1);
  }

  lemma BesideProduct(x: nat, y: nat, c: nat, a: nat, b: nat)
    requires x < B56 && y < B56
    requires Cong(c + (a * b + x), c + (a * b + y), P611)
    ensures x == y
  {
    SmallSame(x, y, c + a * b);
  }

  lemma MiddleDetermined(s: seq<u8>, t: seq<u8>)
    requires 8 <= |s| <= 21 && 8 <= |t| <= 21 && Same(TailCoefficients(s), TailCoefficients(t))
    ensures s == t
  {
    hide Word, Cong, MiddleCoefficients, Same;
    var n, m := |s|, |t|;
    WordBound(s, 0);
    WordBound(s, (n - 7) / 2);
    WordBound(s, n - 7);
    WordBound(t, 0);
    WordBound(t, (m - 7) / 2);
    WordBound(t, m - 7);
    MiddleWords(n, Word(s, 0), Word(s, (n - 7) / 2), Word(s, n - 7), m, Word(t, 0), Word(t, (m - 7) / 2), Word(t, m - 7));
    SameWord(s, t, 0);
    SameWord(s, t, (n - 7) / 2);
    SameWord(s, t, n - 7);
  }

  lemma LongDetermined(s: seq<u8>, t: seq<u8>)
    requires 22 <= |s| < 50 && 22 <= |t| < 50 && Same(TailCoefficients(s), TailCoefficients(t))
    ensures s == t
  {
    hide Word, Cong, LongCoefficients, Same;
    var n, m := |s|, |t|;
    LongBounds(s);
    LongBounds(t);
    LongWords(n, Word(s, 0), Word(s, (n - 7) / 2), Word(s, n - 7), Word(s, 7), Word(s, 14), Word(s, n - 21), Word(s, n - 14),
              m, Word(t, 0), Word(t, (m - 7) / 2), Word(t, m - 7), Word(t, 7), Word(t, 14), Word(t, m - 21), Word(t, m - 14));
    SameWord(s, t, 0);
    SameWord(s, t, 7);
    SameWord(s, t, 14);
    SameWord(s, t, (n - 7) / 2);
    SameWord(s, t, n - 21);
    SameWord(s, t, n - 14);
    SameWord(s, t, n - 7);
  }

  lemma LongBounds(s: seq<u8>)
    requires |s| >= 22
    ensures Word(s, 0) < B56 && Word(s, (|s| - 7) / 2) < B56 && Word(s, |s| - 7) < B56 && Word(s, 7) < B56
    ensures Word(s, 14) < B56 && Word(s, |s| - 21) < B56 && Word(s, |s| - 14) < B56
  {
    hide Word;
    WordBound(s, 0);
    WordBound(s, 7);
    WordBound(s, 14);
    WordBound(s, (|s| - 7) / 2);
    WordBound(s, |s| - 21);
    WordBound(s, |s| - 14);
    WordBound(s, |s| - 7);
  }

  lemma ShortDetermined(s: seq<u8>, t: seq<u8>)
    requires |s| <= 7 && |t| <= 7 && Same(TailCoefficients(s), TailCoefficients(t))
    ensures s == t
  {
    hide Cong, LittleEndian;
    var a, b := TailCoefficients(s), TailCoefficients(t);
    assert Cong(a[1], b[1], P611) && Cong(a[2], b[2], P611);
    LittleEndianBound(s);
    LittleEndianBound(t);
    SmallSame(|s|, |t|, 0);
    SmallSame(LittleEndian(s), LittleEndian(t), 0);
    LittleEndianInjective(s, t);
  }

  lemma ClassMarks(s: seq<u8>)
    requires |s| < 50
    ensures TailCoefficients(s)[13] == if |s| <= 21 then 0 else 1
    ensures |s| <= 21 ==> TailCoefficients(s)[9] == if |s| <= 7 then 0 else 1
  {
    hide Word, LittleEndian;
  }

  /** Tails of different classes differ in a coefficient that is one or zero. */
  lemma SameClass(s: seq<u8>, t: seq<u8>)
    requires |s| < 50 && |t| < 50 && Same(TailCoefficients(s), TailCoefficients(t))
    ensures |s| <= 7 <==> |t| <= 7
    ensures |s| <= 21 <==> |t| <= 21
  {
    hide TailCoefficients, Cong;
    var a, b := TailCoefficients(s), TailCoefficients(t);
    assert Cong(a[9], b[9], P611) && Cong(a[13], b[13], P611);
    ClassMarks(s);
    ClassMarks(t);
    NotZero(1);
    NotSym(1);
  }

  lemma TailDetermined(s: seq<u8>, t: seq<u8>)
    requires |s| < 50 && |t| < 50 && Same(TailCoefficients(s), TailCoefficients(t))
    ensures s == t
  {
    hide TailCoefficients, Same;
    SameClass(s, t);
    if |s| <= 7 {
      ShortDetermined(s, t);
    } else if |s| <= 21 {
      MiddleDetermined(s, t);
    } else {
      LongDetermined(s, t);
    }
  }

  lemma BlockBounds(s: seq<u8>)
    requires |s| >= 49
    ensures Word(s, 0) < B56 && Word(s, 7) < B56 && Word(s, 14) < B56 && Word(s, 21) < B56
    ensures Word(s, 28) < B56 && Word(s, 35) < B56 && Word(s, 42) < B56
  {
    hide Word;
    WordBound(s, 0);
    WordBound(s, 7);
    WordBound(s, 14);
    WordBound(s, 21);
    WordBound(s, 28);
    WordBound(s, 35);
    WordBound(s, 42);
  }

  lemma BlockDetermined(s: seq<u8>, t: seq<u8>)
    requires |s| >= 49 && |t| >= 49 && Same(BlockHigh(s), BlockHigh(t))
    ensures BlockConstant(s) == BlockConstant(t) && s[..49] == t[..49]
  {
    hide Word, Cong;
    var a, b := BlockHigh(s), BlockHigh(t);
    assert Cong(a[0], b[0], P611) && Cong(a[1], b[1], P611) && Cong(a[2], b[2], P611) && Cong(a[3], b[3], P611);
    assert Cong(a[4], b[4], P611) && Cong(a[5], b[5], P611) && Cong(a[6], b[6], P611);
    BlockBounds(s);
    BlockBounds(t);
    SmallSame(Word(s, 0), Word(t, 0), 0);
    SmallSame(Word(s, 7), Word(t, 7), 0);
    SmallSame(Word(s, 14), Word(t, 14), 0);
    SmallSame(Word(s, 21), Word(t, 21), 0);
    SmallSame(Word(s, 28), Word(t, 28), 0);
    SmallSame(Word(s, 35), Word(t, 35), 0);
    SmallSame(3 + Word(s, 42), 3 + Word(t, 42), 0);
    SameWord(s, t, 0);
    SameWord(s, t, 7);
    SameWord(s, t, 14);
    SameWord(s, t, 21);
    SameWord(s, t, 28);
    SameWord(s, t, 35);
    SameWord(s, t, 42);
  }

  /** The parts of a block's overlapping coefficients. */
  lemma SameParts(low: seq<int>, x: int, high: seq<int>, low': seq<int>, x': int, high': seq<int>)
    requires |low| == |low'| > 0 && |high| == |high'|
    requires Same(Laid(low, x, high), Laid(low', x', high'))
    ensures Same(high, high')
    ensures x == x' ==> Same(low, low')
  {
    hide Cong;
    var n := |low| - 1;
    var a, b := Laid(low, x, high), Laid(low', x', high');
    forall i | 0 <= i < |high| ensures Cong(high[i], high'[i], P611) {
      assert a[n + 1 + i] == high[i] && b[n + 1 + i] == high'[i];
    }
    if x == x' {
      assert a[n] == low[n] + x && b[n] == low'[n] + x;
      SumSame(low[n], low'[n], x);
      forall i | 0 <= i < n ensures Cong(low[i], low'[i], P611) {
        assert a[i] == low[i] && b[i] == low'[i];
      }
    }
  }

  lemma {:induction false} BlocksDetermined(s: seq<u8>, t: seq<u8>)
    requires BlockCount(|s|) == BlockCount(|t|) && Same(BlockCoefficients(s), BlockCoefficients(t))
    ensures var n := 49 * BlockCount(|s|); n <= |s| && n <= |t| && s[..n] == t[..n]
    decreases |s|
  {
    hide Same, BlockHigh, BlockConstant, BlockCoefficients, Laid;
    CountLeft(s);
    CountLeft(t);
    if |s| >= 50 {
      CoefficientsStep(s);
      CoefficientsStep(t);
      CountStep(|s|);
      CountStep(|t|);
      var low, low' := BlockCoefficients(s[49..]), BlockCoefficients(t[49..]);
      SameParts(low, BlockConstant(s), BlockHigh(s), low', BlockConstant(t), BlockHigh(t));
      BlockDetermined(s, t);
      BlocksDetermined(s[49..], t[49..]);
      FirstAndRest(s, t, 49 * BlockCount(|s[49..]|));
    }
  }

  lemma CoefficientsStep(s: seq<u8>)
    requires |s| >= 50
    ensures BlockCoefficients(s) == Laid(BlockCoefficients(s[49..]), BlockConstant(s), BlockHigh(s))
  {
    hide BlockConstant, BlockHigh, BlockCount, Laid;
  }

  lemma FirstAndRest(s: seq<u8>, t: seq<u8>, n: nat)
    requires 49 + n <= |s| && 49 + n <= |t| && s[..49] == t[..49] && s[49..][..n] == t[49..][..n]
    ensures s[..49 + n] == t[..49 + n]
  {
    assert s[..49 + n] == s[..49] + s[49..][..n];
    assert t[..49 + n] == t[..49] + t[49..][..n];
  }

  /** No two messages have the same coefficients, not even modulo 2^61 - 1. */
  lemma CoefficientsDetermine(s: seq<u8>, t: seq<u8>)
    requires Same(Coefficients(s), Coefficients(t))
    ensures s == t
  {
    hide TailCoefficients, BlockCoefficients, Cong, BlockCount;
    CountLeft(s);
    CountLeft(t);
    var n := 49 * BlockCount(|s|);
    assert BlockCount(|s|) == BlockCount(|t|);
    SameHalves(TailCoefficients(s[n..]), BlockCoefficients(s), TailCoefficients(t[n..]), BlockCoefficients(t));
    TailDetermined(s[n..], t[n..]);
    BlocksDetermined(s, t);
    assert s == s[..n] + s[n..] && t == t[..n] + t[n..];
  }

  lemma SameHalves(a: seq<int>, b: seq<int>, a': seq<int>, b': seq<int>)
    requires |a| == |a'| && Same(a + b, a' + b')
    ensures Same(a, a') && Same(b, b')
  {
    hide Cong;
    forall i | 0 <= i < |a| ensures Cong(a[i], a'[i], P611) {
      assert (a + b)[i] == a[i] && (a' + b')[i] == a'[i];
    }
    forall i | 0 <= i < |b| ensures Cong(b[i], b'[i], P611) {
      assert (a + b)[|a| + i] == b[i] && (a' + b')[|a| + i] == b'[i];
    }
  }

  /** The highest coefficient of a message with blocks. */
  lemma HighestNotZero(s: seq<u8>)
    requires BlockCount(|s|) > 0
    ensures var c := Coefficients(s); !Cong(c[|c| - 1], 0, P611)
  {
    hide TailCoefficients, Word, Cong;
    WordBound(s, 42);
    NotZero(3 + Word(s, 42));
    assert BlockHigh(s)[6] == 3 + Word(s, 42);
  }

  /** Two messages as polynomials of the same number of coefficients. */
  function Size(s: seq<u8>, t: seq<u8>): nat
  {
    15 + 7 * if BlockCount(|s|) <= BlockCount(|t|) then BlockCount(|t|) else BlockCount(|s|)
  }

  lemma SomeDifference(s: seq<u8>, t: seq<u8>) returns (i: nat)
    requires s != t
    ensures i < Size(s, t)
    ensures !Cong(Pad(Coefficients(s), Size(s, t))[i], Pad(Coefficients(t), Size(s, t))[i], P611)
  {
    hide Coefficients, Cong, BlockCount;
    var a, b, n := Coefficients(s), Coefficients(t), Size(s, t);
    if |a| == |b| {
      if Same(a, b) {
        CoefficientsDetermine(s, t);
      }
      i :| i < |a| && !Cong(a[i], b[i], P611);
      assert Pad(a, n)[..|a|][i] == a[i] && Pad(b, n)[..|b|][i] == b[i];
    } else {
      i := n - 1;
      if |a| < |b| {
        HighestNotZero(t);
        assert Pad(b, n)[..|b|][i] == b[i];
        NotSym(b[i]);
      } else {
        HighestNotZero(s);
        assert Pad(a, n)[..|a|][i] == a[i];
      }
    }
  }

  lemma NotSym(x: int)
    ensures Cong(x, 0, P611) <==> Cong(0, x, P611)
  {
  }

  // ---------- Few keys collide ----------

  /** The keys under which two messages have the same polynomial value. */
  ghost function Colliding(s: seq<u8>, t: seq<u8>): set<int>
  {
    set k | 0 <= k < P611 && Cong(Poly(k, s), Poly(k, t), P611)
  }

  /** The modulus is prime: every residue is a power of 37 and so has an inverse. */
  lemma ModulusPrime()
    ensures Prime(P611)
  {
    hide Pow;
    if !Prime(P611) {
      var d :| 2 <= d < P611 && Divides(d, P611);
      CongRefl(37, P611);
      FirstPowers(37);
      CoprimeToOne();
      GeneratesIffCoprime(37, 1);
      GeneratorReachesAll(37, d);
      var i: nat :| i < P611 - 1 && Cong(Pow(37, i), d, P611);
      var y := Pow(37, P611 - 1 - i);
      WholePeriod();
      PowAdd(37, i, P611 - 1 - i);
      CongRefl(y, P611);
      CongMul(Pow(37, i), d, y, y, P611);
      CongTrans(d * y, Pow(37, i) * y, 1, P611);
      CongIffDivides(d * y, 1, P611);
      DividesTrans(d, P611, d * y - 1);
      DividesMul(d, d, y);
      DividesSub(d, d * y, d * y - 1);
      DividesBound(d, 1);
    }
  }

  lemma CoprimeToOne()
    ensures Coprime(1, P611 - 1)
  {
    forall d | 2 <= d ensures !Divides(d, 1) {
      if Divides(d, 1) {
        DividesBound(d, 1);
      }
    }
  }

  /** Two different messages collide under at most `7 * c + 14` of the 2^61 - 1 keys there could be, where `c`
    * is the number of blocks of the longer one. */
  lemma Universal(s: seq<u8>, t: seq<u8>)
    requires s != t
    ensures |Colliding(s, t)| <= Size(s, t) - 1
  {
    hide Poly, Coefficients, Eval, BlockCount, Prime;
    var a, b, n := Coefficients(s), Coefficients(t), Size(s, t);
    var i := SomeDifference(s, t);
    ModulusPrime();
    AgreeBound(Pad(a, n), Pad(b, n), P611, i);
    forall k | k in Colliding(s, t) ensures k in Agree(Pad(a, n), Pad(b, n), P611) {
      EvalPad(a, n, k);
      EvalPad(b, n, k);
      CoefficientsArePolynomial(k, s);
      CoefficientsArePolynomial(k, t);
    }
    SubsetSize(Colliding(s, t), Agree(Pad(a, n), Pad(b, n), P611));
  }

  // ---------- The hash itself ----------

  lemma {:induction false} EvalCong(c: seq<int>, x: int, y: int, m: int)
    requires m > 0 && Cong(x, y, m)
    ensures Cong(Eval(c, x), Eval(c, y), m)
    decreases |c|
  {
    hide Cong;
    if c == [] {
      CongRefl(0, m);
    } else {
      EvalCong(c[1..], x, y, m);
      CongMul(x, y, Eval(c[1..], x), Eval(c[1..], y), m);
      CongRefl(c[0], m);
      CongAdd(c[0], c[0], x * Eval(c[1..], x), y * Eval(c[1..], y), m);
    }
  }

  lemma PolyCong(x: int, y: int, s: seq<u8>)
    requires Cong(x, y, P611)
    ensures Cong(Poly(x, s), Poly(y, s), P611)
  {
    hide Poly, Coefficients, Eval, Cong;
    EvalCong(Coefficients(s), x, y, P611);
    CoefficientsArePolynomial(x, s);
    CoefficientsArePolynomial(y, s);
  }

  /** `HashPoly611` gives two messages the same value only under a key where their polynomials agree,
    * whatever the tweak. */
  lemma CollisionKey(s: seq<u8>, t: seq<u8>, p: Params, tweak: u64, r: u64)
    requires Cong(Wrap64(r - tweak), Poly(p.k, s), P611) && Cong(Wrap64(r - tweak), Poly(p.k, t), P611)
    ensures p.k % P611 in Colliding(s, t)
  {
    hide Poly, Wrap64;
    CongMod(p.k, P611);
    PolyCong(p.k % P611, p.k, s);
    PolyCong(p.k % P611, p.k, t);
  }

  /** `polymur_mix` */
  function Mix(x: bv64): bv64
  {
    Fold28(Scale(Fold32(Scale(Fold32(x)))))
  }

  function Fold32(x: bv64): bv64 { x ^ (x >> 32) }

  function Fold28(x: bv64): bv64 { x ^ (x >> 28) }

  function Scale(x: bv64): bv64 { x * 0x0e98_46af_9b1a_615d }

  /** What undoes it: the shifts are undone by shifts, the odd factor by its inverse. */
  function Unmix(x: bv64): bv64
  {
    Fold32(Unscale(Fold32(Unscale(Unfold28(x)))))
  }

  function Unfold28(x: bv64): bv64 { x ^ (x >> 28) ^ (x >> 56) }

  function Unscale(x: bv64): bv64 { x * 0x153ed04bd89cfaf5 }

  lemma Unfolded32(x: bv64) returns (y: bv64)
    ensures Fold32(x) == y && Fold32(y) == x
  {
    y := x ^ (x >> 32);
  }

  lemma Unfolded28(x: bv64) returns (y: bv64)
    ensures Fold28(x) == y && Unfold28(y) == x
  {
    y := x ^ (x >> 28);
  }

  lemma Unscaled(x: bv64) returns (y: bv64)
    ensures Scale(x) == y && Unscale(y) == x
  {
    y := x * 0x0e98_46af_9b1a_615d;
  }

  /** The final mixing loses nothing, so that it makes no more messages collide. */
  lemma UnmixMix(x: bv64)
    ensures Unmix(Mix(x)) == x
  {
    hide Fold32, Fold28, Scale, Unscale, Unfold28;
    var y := Unfolded32(x);
    y := Unscaled(y);
    y := Unfolded32(y);
    y := Unscaled(y);
    y := Unfolded28(y);
  }

  /** The mixed value of a word. */
  lemma MixKnown()
    ensures Mix(0x0123_4567_89ab_cdef) == 0x960cbea3c15f985a
  {
  }

  // ---------- Known values ----------

  /** The bytes one, two, three and so on. */
  ghost predicate Counting(s: seq<u8>, first: nat)
  {
    forall i :: 0 <= i < |s| ==> s[i] == first + i
  }

  lemma CountingWord(s: seq<u8>, first: nat, at: nat)
    requires Counting(s, first) && at + 7 <= |s|
    ensures Word(s, at) == 0x06_0504_0302_0100 + (first + at) * 0x01_0101_0101_0101
  {
    hide LittleEndian;
    var c: u8 := s[at];
    var w := s[at..at + 7];
    SevenDigits(w);
    assert forall j :: 0 <= j < 7 ==> w[j] == c + j;
  }

  lemma SevenDigits(w: seq<u8>)
    requires |w| == 7
    ensures LittleEndian(w) == w[0] + 0x100 * (w[1] as int) + 0x1_0000 * (w[2] as int) + 0x100_0000 * (w[3] as int) + 0x1_0000_0000 * (w[4] as int)
      + 0x100_0000_0000 * (w[5] as int) + 0x1_0000_0000_0000 * (w[6] as int)
  {
    hide LittleEndian;
    LowDigit(w);
    LowDigit(w[1..]);
    LowDigit(w[1..][1..]);
    LowDigit(w[1..][1..][1..]);
    LowDigit(w[1..][1..][1..][1..]);
    LowDigit(w[1..][1..][1..][1..][1..]);
    LowDigit(w[1..][1..][1..][1..][1..][1..]);
    LowDigit(w[1..][1..][1..][1..][1..][1..][1..]);
  }

  lemma LowDigit(w: seq<u8>)
    ensures LittleEndian(w) == if w == [] then 0 else w[0] + 0x100 * LittleEndian(w[1..])
  {
  }

  lemma PowersOfKey()
    ensures Pow(2, 0) == 1 && Pow(2, 1) == 2 && Pow(2, 2) == 4 && Pow(2, 3) == 8 && Pow(2, 4) == 16
    ensures Pow(2, 5) == 32 && Pow(2, 6) == 64 && Pow(2, 7) == 128 && Pow(2, 14) == 16384
  {
    PowAdd(2, 7, 7);
  }

  /** Under the key two: tails of three, fifteen and forty such bytes ... */
  lemma KnownShort(s: seq<u8>)
    requires |s| == 3 && Counting(s, 1)
    ensures Poly(2, s) == 1379861
  {
    hide Pow, LittleEndian;
    PowersOfKey();
    LowDigit(s);
    LowDigit(s[1..]);
    LowDigit(s[1..][1..]);
    LowDigit(s[1..][1..][1..]);
    assert s[0..] == s;
  }

  lemma KnownMiddle(s: seq<u8>)
    requires |s| == 15 && Counting(s, 1)
    ensures Poly(2, s) == 6142874631074455284664470671766
  {
    hide Pow, Word;
    PowersOfKey();
    CountingWord(s, 1, 0);
    CountingWord(s, 1, 4);
    CountingWord(s, 1, 8);
    assert s[0..] == s;
  }

  lemma KnownLong(s: seq<u8>)
    requires |s| == 40 && Counting(s, 1)
    ensures Poly(2, s) == 119781434063712497800035819019737608422426196119
  {
    hide Pow, Word;
    PowersOfKey();
    CountingWord(s, 1, 0);
    CountingWord(s, 1, 7);
    CountingWord(s, 1, 14);
    CountingWord(s, 1, 16);
    CountingWord(s, 1, 19);
    CountingWord(s, 1, 26);
    CountingWord(s, 1, 33);
    assert s[0..] == s;
  }

  /** ... and two blocks with one byte behind them. */
  lemma KnownBlocks(s: seq<u8>)
    requires |s| == 99 && Counting(s, 1)
    ensures Poly(2, s) == 382610940011179964424600875134459806201
  {
    hide Pow, Word, LittleEndian, BlockPoly;
    PowersOfKey();
    CountingBlock(s, 1);
    CountingRest(s);
    CountingBlock(s[49..], 50);
    LowDigit([99]);
    LowDigit([]);
    assert s[98..] == [99] && [99][1..] == [];
    TwoBlocks(s);
  }

  lemma TwoBlocks(s: seq<u8>)
    requires |s| == 99
    ensures BlockSum(2, s) == BlockPoly(2, 0, s) * 128 + BlockPoly(2, 0, s[49..])
  {
    hide Pow, BlockPoly;
    PowersOfKey();
    assert BlockSum(2, s[49..][49..]) == 0;
  }

  lemma CountingRest(s: seq<u8>)
    requires |s| == 99 && Counting(s, 1)
    ensures Counting(s[49..], 50)
  {
  }

  /** A block of such bytes. */
  lemma CountingBlock(s: seq<u8>, first: nat)
    requires |s| >= 49 && Counting(s, first) && (first == 1 || first == 50)
    ensures BlockPoly(2, 0, s) == if first == 1 then 172112250059657762596894275359454 else 1322350498905552263122488511708382
  {
    hide Pow, Word, Counting;
    PowersOfKey();
    CountingWord(s, first, 0);
    CountingWord(s, first, 7);
    CountingWord(s, first, 14);
    CountingWord(s, first, 21);
    CountingWord(s, first, 28);
    CountingWord(s, first, 35);
    CountingWord(s, first, 42);
  }
}
