/** Integer facts used by the hash functions and by the hash map's prime-sized
  * tables: congruences, Euclid's lemma and Fermat's little theorem.
  */
module NumberTheory {

  // ---------- Quotients and remainders ----------

  /** The remainder is the only number in `0..m` that differs from `x` by a multiple of `m`. */
  lemma ModUnique(x: int, q: int, r: int, m: int)
    requires 0 <= r < m
    requires x == q * m + r
    ensures x % m == r && x / m == q
  {
    var k := x / m - q;
    assert k * m == r - x % m by {
      assert x == (x / m) * m + x % m;
      assert (x / m - q) * m == (x / m) * m - q * m;
    }
    if k >= 1 {
      MulMonotone(1, k, m);
    } else if k <= -1 {
      MulMonotone(k, -1, m);
    }
  }

  /** A counter that wraps is the true count modulo its range. */
  lemma CountWraps(n: nat, len: nat, m: nat)
    requires m > 0
    ensures (n % m + len) % m == (n + len) % m
  {
    ModUnique(n + len, n / m + (n % m + len) / m, (n % m + len) % m, m);
    MulSum(n / m, (n % m + len) / m, m);
  }

  lemma MulSum(x: int, y: int, z: int)
    ensures (x + y) * z == x * z + y * z
  {
  }

  lemma MulMonotone(a: int, b: int, m: int)
    requires a <= b && 0 <= m
    ensures a * m <= b * m
  {
  }

  lemma MulSub(x: int, y: int, z: int)
    ensures (x - y) * z == x * z - y * z
  {
  }

  lemma MulAssoc(x: int, y: int, z: int)
    ensures (x * y) * z == x * (y * z)
  {
  }

  lemma Regroup(a: int, b: int, x: int, y: int)
    ensures (a * b) * (x * y) == (a * x) * (b * y)
  {
    MulAssoc(a, b, x * y);
    MulAssoc(b, x, y);
    MulAssoc(x, b, y);
    MulAssoc(a, x, b * y);
  }

  /** `a` and `b` leave the same remainder. */
  ghost predicate Cong(a: int, b: int, m: int)
    requires m > 0
  {
    a % m == b % m
  }

  lemma CongIntro(a: int, b: int, m: int, q: int)
    requires m > 0
    requires a == b + q * m
    ensures Cong(a, b, m)
  {
    assert b == (b / m) * m + b % m;
    assert a == (b / m + q) * m + b % m by {
      assert (b / m + q) * m == (b / m) * m + q * m;
    }
    ModUnique(a, b / m + q, b % m, m);
  }

  lemma CongElim(a: int, b: int, m: int) returns (q: int)
    requires m > 0
    requires Cong(a, b, m)
    ensures a == b + q * m
  {
    q := a / m - b / m;
    assert a == (a / m) * m + a % m;
    assert b == (b / m) * m + b % m;
    assert q * m == (a / m) * m - (b / m) * m;
  }

  lemma CongRefl(a: int, m: int)
    requires m > 0
    ensures Cong(a, a, m)
  {
  }

  lemma CongTrans(a: int, b: int, c: int, m: int)
    requires m > 0 && Cong(a, b, m) && Cong(b, c, m)
    ensures Cong(a, c, m)
  {
  }

  lemma CongMod(a: int, m: int)
    requires m > 0
    ensures Cong(a % m, a, m)
  {
    assert a == (a / m) * m + a % m;
    CongIntro(a, a % m, m, a / m);
  }

  lemma CongAdd(a: int, b: int, c: int, d: int, m: int)
    requires m > 0
    requires Cong(a, b, m) && Cong(c, d, m)
    ensures Cong(a + c, b + d, m)
  {
    var q := CongElim(a, b, m);
    var r := CongElim(c, d, m);
    assert (q + r) * m == q * m + r * m;
    CongIntro(a + c, b + d, m, q + r);
  }

  lemma CongScale(a: int, b: int, c: int, m: int)
    requires m > 0 && Cong(a, b, m)
    ensures Cong(a * c, b * c, m)
  {
    hide Cong;
    var q := CongElim(a, b, m);
    MulAssoc(q, m, c);
    MulAssoc(q, c, m);
    ScaleSum(a, b, q * m, c);
    CongIntro(a * c, b * c, m, q * c);
  }

  lemma ScaleSum(a: int, b: int, d: int, c: int)
    requires a == b + d
    ensures a * c == b * c + d * c
  {
  }

  lemma CongMul(a: int, b: int, c: int, d: int, m: int)
    requires m > 0
    requires Cong(a, b, m) && Cong(c, d, m)
    ensures Cong(a * c, b * d, m)
  {
    CongScale(a, b, c, m);
    CongScale(c, d, b, m);
    assert c * b == b * c && d * b == b * d;
  }

  // ---------- Powers ----------

  function Pow(a: int, e: nat): int
  {
    if e == 0 then 1 else a * Pow(a, e - 1)
  }

  lemma {:induction false} PowAdd(a: int, x: nat, y: nat)
    ensures Pow(a, x + y) == Pow(a, x) * Pow(a, y)
  {
    if x == 0 {
    } else {
      PowAdd(a, x - 1, y);
      assert a * (Pow(a, x - 1) * Pow(a, y)) == (a * Pow(a, x - 1)) * Pow(a, y);
    }
  }

  lemma {:induction false} PowMul(a: int, x: nat, y: nat)
    ensures 0 <= x * y
    ensures Pow(a, x * y) == Pow(Pow(a, x), y)
  {
    MulMonotone(0, x, y);
    if y == 0 {
    } else {
      PowMul(a, x, y - 1);
      assert x * y == x + x * (y - 1);
      PowAdd(a, x, x * (y - 1));
    }
  }

  lemma {:induction false} PowProduct(a: int, b: int, e: nat)
    ensures Pow(a * b, e) == Pow(a, e) * Pow(b, e)
  {
    if e == 0 {
    } else {
      PowProduct(a, b, e - 1);
      Regroup(a, b, Pow(a, e - 1), Pow(b, e - 1));
    }
  }

  lemma {:induction false} PowOne(e: nat)
    ensures Pow(1, e) == 1
  {
    if e > 0 {
      PowOne(e - 1);
    }
  }

  lemma {:induction false} CongPow(a: int, b: int, e: nat, m: int)
    requires m > 0 && Cong(a, b, m)
    ensures Cong(Pow(a, e), Pow(b, e), m)
  {
    if e > 0 {
      CongPow(a, b, e - 1, m);
      CongMul(a, b, Pow(a, e - 1), Pow(b, e - 1), m);
    }
  }

  // ---------- Powers of two and odd parts ----------

  function Pow2(k: nat): (p: nat)
    ensures p > 0 && p == Pow(2, k)
  {
    if k == 0 then 1 else 2 * Pow2(k - 1)
  }

  /** `d` shifted left by `s` bits. */
  function Shl(d: nat, s: nat): nat
  {
    if s == 0 then d else 2 * Shl(d, s - 1)
  }

  lemma {:induction false} ShlIsPower(d: nat, s: nat)
    ensures Shl(d, s) == d * Pow(2, s)
  {
    if s > 0 {
      ShlIsPower(d, s - 1);
      MulAssoc(d, Pow(2, s - 1), 2);
    }
  }

  lemma {:induction false} ShlAdd(d: nat, s: nat, k: nat)
    ensures Shl(d, s + k) == Shl(Shl(d, k), s)
  {
    if s > 0 {
      ShlAdd(d, s - 1, k);
    }
  }

  /** The odd factor left when all twos are divided out of `x`, and how many there were. */
  function OddPart(x: nat): (d: nat)
    requires x > 0
    ensures d % 2 == 1 && d <= x
  {
    if x % 2 == 1 then x else OddPart(x / 2)
  }

  function Twos(x: nat): (s: nat)
    requires x > 0
    ensures Shl(OddPart(x), s) == x
  {
    if x % 2 == 1 then 0 else Twos(x / 2) + 1
  }

  lemma {:induction false} SplitUnique(d: nat, s: nat)
    requires d % 2 == 1
    ensures Shl(d, s) > 0 && d == OddPart(Shl(d, s)) && s == Twos(Shl(d, s))
  {
    if s > 0 {
      SplitUnique(d, s - 1);
      Doubled(Shl(d, s - 1));
    }
  }

  lemma Doubled(x: nat)
    requires x > 0
    ensures OddPart(2 * x) == OddPart(x) && Twos(2 * x) == Twos(x) + 1
  {
    assert 2 * x % 2 == 0 && 2 * x / 2 == x;
  }

  // ---------- Divisibility and primes ----------

  ghost predicate Divides(d: int, n: int)
    requires d > 0
  {
    n % d == 0
  }

  lemma DividesIntro(d: int, n: int, q: int)
    requires d > 0 && n == q * d
    ensures Divides(d, n)
  {
    ModUnique(n, q, 0, d);
  }

  lemma DividesElim(d: int, n: int) returns (q: int)
    requires d > 0 && Divides(d, n)
    ensures n == q * d
  {
    q := n / d;
  }

  lemma DividesSub(d: int, a: int, b: int)
    requires d > 0 && Divides(d, a) && Divides(d, b)
    ensures Divides(d, a - b)
  {
    var x := DividesElim(d, a);
    var y := DividesElim(d, b);
    assert (x - y) * d == x * d - y * d;
    DividesIntro(d, a - b, x - y);
  }

  lemma DividesMul(d: int, a: int, b: int)
    requires d > 0 && Divides(d, a)
    ensures Divides(d, a * b)
  {
    var x := DividesElim(d, a);
    assert a * b == (x * b) * d;
    DividesIntro(d, a * b, x * b);
  }

  lemma DividesTrans(d: int, e: int, n: int)
    requires d > 0 && e > 0 && Divides(d, e) && Divides(e, n)
    ensures Divides(d, n)
  {
    var x := DividesElim(e, n);
    DividesMul(d, e, x);
  }

  lemma DividesBound(d: int, n: int)
    requires d > 0 && n > 0 && Divides(d, n)
    ensures d <= n
  {
  }

  lemma CongIffDivides(a: int, b: int, m: int)
    requires m > 0
    ensures Cong(a, b, m) <==> Divides(m, a - b)
  {
    if Cong(a, b, m) {
      var q := CongElim(a, b, m);
      DividesIntro(m, a - b, q);
    }
    if Divides(m, a - b) {
      var q := DividesElim(m, a - b);
      CongIntro(a, b, m, q);
    }
  }

  ghost predicate Prime(p: int)
  {
    p >= 2 && forall d :: 2 <= d < p ==> !Divides(d, p)
  }

  /** Euclid's lemma, by Euclid's algorithm on the non-multiple. */
  lemma {:induction false} EuclidStep(p: int, a: int, b: int)
    requires Prime(p) && 0 < a < p
    requires Divides(p, a * b)
    ensures Divides(p, b)
    decreases a
  {
    if a == 1 {
    } else {
      var r := p % a;
      assert !Divides(a, p);
      assert 0 < r < a;
      RemainderTimes(p, a, b);
      DividesMul(p, p, b);
      DividesMul(p, a * b, p / a);
      DividesSub(p, p * b, (a * b) * (p / a));
      EuclidStep(p, r, b);
    }
  }

  lemma RemainderTimes(p: int, a: int, b: int)
    requires a > 0
    ensures p % a * b == p * b - (a * b) * (p / a)
  {
    var q := p / a;
    MulSub(p, a * q, b);
    MulAssoc(a, q, b);
    MulAssoc(a, b, q);
  }

  lemma Euclid(p: int, a: int, b: int)
    requires Prime(p) && Divides(p, a * b)
    ensures Divides(p, a) || Divides(p, b)
  {
    if !Divides(p, a) {
      var r := a % p;
      CongMod(a, p);
      CongMul(r, a, b, b, p);
      EuclidStep(p, r, b);
    }
  }

  /** A factor prime to the modulus cancels. */
  lemma Cancel(p: int, k: int, a: int, b: int)
    requires Prime(p) && !Divides(p, k)
    requires Cong(k * a, k * b, p)
    ensures Cong(a, b, p)
  {
    CongIffDivides(k * a, k * b, p);
    assert k * a - k * b == k * (a - b);
    Euclid(p, k, a - b);
    CongIffDivides(a, b, p);
  }

  lemma {:induction false} EuclidPow(p: int, a: int, e: nat)
    requires Prime(p) && Divides(p, Pow(a, e))
    ensures Divides(p, a)
  {
    if e > 0 && !Divides(p, a) {
      Euclid(p, a, Pow(a, e - 1));
      EuclidPow(p, a, e - 1);
    }
  }

  /** Every number above one has a prime divisor. */
  lemma {:induction false} PrimeDivisor(n: int) returns (p: int)
    requires n >= 2
    ensures Prime(p) && Divides(p, n)
  {
    if Prime(n) {
      p := n;
    } else {
      var d :| 2 <= d < n && Divides(d, n);
      p := PrimeDivisor(d);
      DividesTrans(p, d, n);
    }
  }

  /** One has only the two square roots 1 and -1 modulo a prime. */
  lemma SquareRootsOfOne(p: int, x: int)
    requires Prime(p) && Cong(x * x, 1, p)
    ensures x % p == 1 || x % p == p - 1
  {
    CongIffDivides(x * x, 1, p);
    assert x * x - 1 == (x - 1) * (x + 1);
    Euclid(p, x - 1, x + 1);
    if Divides(p, x - 1) {
      var q := DividesElim(p, x - 1);
      ModUnique(x, q, 1, p);
    } else {
      var q := DividesElim(p, x + 1);
      assert x == (q - 1) * p + (p - 1);
      ModUnique(x, q - 1, p - 1, p);
    }
  }

  // ---------- Fermat's little theorem ----------

  function Product(s: seq<int>): int
  {
    if s == [] then 1 else s[0] * Product(s[1..])
  }

  lemma {:induction false} ProductRemove(s: seq<int>, i: nat)
    requires i < |s|
    ensures Product(s) == s[i] * Product(s[..i] + s[i + 1..])
  {
    if i == 0 {
      assert s[..0] + s[1..] == s[1..];
    } else {
      var rest := s[1..];
      ProductRemove(rest, i - 1);
      var t := s[..i] + s[i + 1..];
      assert t[0] == s[0] && t[1..] == rest[..i - 1] + rest[i..];
      assert s[0] * (s[i] * Product(t[1..])) == s[i] * (s[0] * Product(t[1..]));
    }
  }

  lemma FirstFactor(s: seq<int>)
    requires s != []
    ensures Product(s) == s[0] * Product(s[1..])
  {
  }

  lemma LessOne(s: seq<int>, i: nat)
    requires i < |s|
    ensures multiset(s[..i] + s[i + 1..]) == multiset(s) - multiset{s[i]}
  {
    assert s == s[..i] + [s[i]] + s[i + 1..];
  }

  lemma {:induction false} ProductPermutation(s: seq<int>, t: seq<int>)
    requires multiset(s) == multiset(t)
    ensures Product(s) == Product(t)
  {
    hide Product;
    if s == [] {
      assert |multiset(t)| == 0;
    } else {
      var i := FirstIn(s, t);
      FirstFactor(s);
      ProductRemove(t, i);
      ProductPermutation(s[1..], t[..i] + t[i + 1..]);
    }
  }

  /** Where the first number of `s` is in a permutation of it, and that the others permute the others. */
  lemma FirstIn(s: seq<int>, t: seq<int>) returns (i: nat)
    requires s != [] && multiset(s) == multiset(t)
    ensures i < |t| && t[i] == s[0] && multiset(s[1..]) == multiset(t[..i] + t[i + 1..])
  {
    assert s[0] in multiset(t);
    i :| i < |t| && t[i] == s[0];
    LessOne(t, i);
    LessOne(s, 0);
    assert s[..0] + s[1..] == s[1..];
  }

  /** `[1, 2, ..., n]` */
  function Upto(n: nat): (s: seq<int>)
    ensures |s| == n && forall i :: 0 <= i < n ==> s[i] == i + 1
  {
    seq(n, i => i + 1)
  }

  /** `[a % p, 2a % p, ..., na % p]` */
  function Multiples(a: int, n: nat, p: int): (s: seq<int>)
    requires p > 0
    ensures |s| == n && forall i :: 0 <= i < n ==> s[i] == ((i + 1) * a) % p
  {
    seq(n, i requires 0 <= i => ((i + 1) * a) % p)
  }

  /** A sequence of `n` different numbers from `1..n` is a permutation of `1..n`. */
  lemma DistinctInRange(s: seq<int>, n: nat)
    requires |s| == n
    requires forall i :: 0 <= i < n ==> 1 <= s[i] <= n
    requires forall i, j :: 0 <= i < j < n ==> s[i] != s[j]
    ensures multiset(s) == multiset(Upto(n))
  {
    var u := Upto(n);
    DistinctCard(s);
    DistinctCard(u);
    forall x | x in SeqSet(s) ensures x in SeqSet(u) {
      assert u[x - 1] == x;
    }
    SubsetCard(SeqSet(s), SeqSet(u));
    DistinctMultiset(s);
    DistinctMultiset(u);
  }

  ghost function SeqSet(s: seq<int>): set<int> { set i | 0 <= i < |s| :: s[i] }

  lemma {:induction false} DistinctCard(s: seq<int>)
    requires forall i, j :: 0 <= i < j < |s| ==> s[i] != s[j]
    ensures |SeqSet(s)| == |s|
  {
    if s == [] {
    } else {
      var t := s[..|s| - 1];
      DistinctCard(t);
      assert SeqSet(s) == SeqSet(t) + {s[|s| - 1]};
    }
  }

  lemma SubsetCard<T>(a: set<T>, b: set<T>)
    requires a <= b && |a| == |b|
    ensures a == b
  {
    assert b == a + (b - a);
  }

  lemma {:induction false} DistinctMultiset(s: seq<int>)
    requires forall i, j :: 0 <= i < j < |s| ==> s[i] != s[j]
    ensures multiset(s) == multiset(SeqSet(s))
  {
    if s == [] {
    } else {
      var t := s[..|s| - 1];
      DistinctMultiset(t);
      assert s == t + [s[|s| - 1]];
      assert SeqSet(s) == SeqSet(t) + {s[|s| - 1]};
    }
  }

  lemma MultiplesDistinct(a: int, p: int)
    requires Prime(p) && !Divides(p, a)
    ensures multiset(Multiples(a, p - 1, p)) == multiset(Upto(p - 1))
  {
    var s := Multiples(a, p - 1, p);
    forall i | 0 <= i < p - 1 ensures 1 <= s[i] <= p - 1 {
      if Divides(p, (i + 1) * a) {
        Euclid(p, i + 1, a);
        DividesBound(p, i + 1);
      }
    }
    forall i, j | 0 <= i < j < p - 1 ensures s[i] != s[j] {
      if s[i] == s[j] {
        assert Cong(a * (j + 1), a * (i + 1), p);
        Cancel(p, a, j + 1, i + 1);
        CongIffDivides(j + 1, i + 1, p);
        DividesBound(p, j - i);
      }
    }
    DistinctInRange(s, p - 1);
  }

  lemma {:induction false} MultiplesProduct(a: int, n: nat, p: int)
    requires p > 0
    ensures Cong(Product(Multiples(a, n, p)), Pow(a, n) * Product(Upto(n)), p)
  {
    if n == 0 {
    } else {
      MultiplesProduct(a, n - 1, p);
      var s, u := Multiples(a, n, p), Upto(n);
      ProductRemove(s, n - 1);
      ProductRemove(u, n - 1);
      assert s[..n - 1] + s[n..] == Multiples(a, n - 1, p);
      assert u[..n - 1] + u[n..] == Upto(n - 1);
      CongMod(n * a, p);
      CongMul((n * a) % p, n * a, Product(Multiples(a, n - 1, p)), Pow(a, n - 1) * Product(Upto(n - 1)), p);
      Regroup(a, n, Pow(a, n - 1), Product(Upto(n - 1)));
    }
  }

  lemma {:induction false} FactorialNotDivisible(p: int, n: nat)
    requires Prime(p) && n < p
    ensures !Divides(p, Product(Upto(n)))
  {
    if n == 0 {
    } else {
      FactorialNotDivisible(p, n - 1);
      var u := Upto(n);
      ProductRemove(u, n - 1);
      assert u[..n - 1] + u[n..] == Upto(n - 1);
      if Divides(p, n * Product(Upto(n - 1))) {
        Euclid(p, n, Product(Upto(n - 1)));
        DividesBound(p, n);
      }
    }
  }

  /** Fermat's little theorem. */
  lemma Fermat(p: int, a: int)
    requires Prime(p) && !Divides(p, a)
    ensures Cong(Pow(a, p - 1), 1, p)
  {
    MultiplesDistinct(a, p);
    ProductPermutation(Multiples(a, p - 1, p), Upto(p - 1));
    MultiplesProduct(a, p - 1, p);
    var f := Product(Upto(p - 1));
    FactorialNotDivisible(p, p - 1);
    assert f * Pow(a, p - 1) == Pow(a, p - 1) * f;
    Cancel(p, f, Pow(a, p - 1), 1);
  }
}
