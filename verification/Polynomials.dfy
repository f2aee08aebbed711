/** Polynomials as the sequences of their coefficients, lowest first; and how many roots one can have
  * modulo a prime.
  */
module Polynomials {
  import opened NumberTheory

  /** The value at `x`. */
  function Eval(c: seq<int>, x: int): int
  {
    if c == [] then 0 else c[0] + x * Eval(c[1..], x)
  }

  lemma {:induction false} EvalAppend(a: seq<int>, b: seq<int>, x: int)
    ensures Eval(a + b, x) == Eval(a, x) + Pow(x, |a|) * Eval(b, x)
    decreases |a|
  {
    if a == [] {
      assert a + b == b;
    } else {
      assert (a + b)[1..] == a[1..] + b;
      EvalAppend(a[1..], b, x);
      MulAssoc(x, Pow(x, |a| - 1), Eval(b, x));
    }
  }

  lemma EvalStep(c: seq<int>, x: int)
    ensures Eval(c, x) == if c == [] then 0 else c[0] + x * Eval(c[1..], x)
  {
  }

  lemma EvalOne(c: int, x: int)
    ensures Eval([c], x) == c
  {
  }

  /** Zeros at the high end change nothing. */
  function Zeros(n: nat): (z: seq<int>)
    ensures |z| == n && forall i :: 0 <= i < n ==> z[i] == 0
  {
    if n == 0 then [] else [0] + Zeros(n - 1)
  }

  lemma {:induction false} EvalZeros(n: nat, x: int)
    ensures Eval(Zeros(n), x) == 0
  {
    if n > 0 {
      EvalZeros(n - 1, x);
      assert Zeros(n)[1..] == Zeros(n - 1);
    }
  }

  function Pad(c: seq<int>, n: nat): (p: seq<int>)
    requires |c| <= n
    ensures |p| == n && p[..|c|] == c && forall i :: |c| <= i < n ==> p[i] == 0
  {
    c + Zeros(n - |c|)
  }

  lemma EvalPad(c: seq<int>, n: nat, x: int)
    requires |c| <= n
    ensures Eval(Pad(c, n), x) == Eval(c, x)
  {
    hide Pow;
    EvalAppend(c, Zeros(n - |c|), x);
    EvalZeros(n - |c|, x);
  }

  function Minus(a: seq<int>, b: seq<int>): (d: seq<int>)
    requires |a| == |b|
    ensures |d| == |a| && forall i :: 0 <= i < |a| ==> d[i] == a[i] - b[i]
  {
    if a == [] then [] else [a[0] - b[0]] + Minus(a[1..], b[1..])
  }

  lemma {:induction false} EvalMinus(a: seq<int>, b: seq<int>, x: int)
    requires |a| == |b|
    ensures Eval(Minus(a, b), x) == Eval(a, x) - Eval(b, x)
    decreases |a|
  {
    if a != [] {
      EvalMinus(a[1..], b[1..], x);
      assert Minus(a, b)[1..] == Minus(a[1..], b[1..]);
      assert x * (Eval(a[1..], x) - Eval(b[1..], x)) == x * Eval(a[1..], x) - x * Eval(b[1..], x);
    }
  }

  // ---------- Roots ----------

  /** What is left when the value at `r` is taken off and the factor `x - r` taken out. */
  function Quotient(c: seq<int>, r: int): (q: seq<int>)
    requires c != []
    ensures |q| == |c| - 1 && (|c| > 1 ==> q[|q| - 1] == c[|c| - 1])
  {
    if |c| == 1 then []
    else
      assert |c| == 2 ==> c[1..] == [c[1]];
      EvalOne(c[1], r);
      [Eval(c[1..], r)] + Quotient(c[1..], r)
  }

  lemma {:induction false} Division(c: seq<int>, r: int, x: int)
    requires c != []
    ensures Eval(c, x) - Eval(c, r) == (x - r) * Eval(Quotient(c, r), x)
    decreases |c|
  {
    hide Eval;
    EvalStep(c, x);
    EvalStep(c, r);
    if |c| == 1 {
      EvalStep(c[1..], x);
      EvalStep(c[1..], r);
    } else {
      var d := c[1..];
      EvalStep(Quotient(c, r), x);
      var q := Quotient(d, r);
      Division(d, r, x);
      assert Quotient(c, r)[0] == Eval(d, r) && Quotient(c, r)[1..] == q;
      Regrouped(x, r, Eval(d, x), Eval(d, r), Eval(q, x));
    }
  }

  lemma Regrouped(x: int, r: int, dx: int, dr: int, q: int)
    requires dx - dr == (x - r) * q
    ensures x * dx - r * dr == (x - r) * (dr + x * q)
  {
    assert x * (dx - dr) == x * ((x - r) * q) == (x - r) * (x * q);
    assert x * dx - r * dr == x * (dx - dr) + (x - r) * dr;
  }

  ghost function Roots(c: seq<int>, p: nat): set<int>
    requires p > 0
  {
    set x | 0 <= x < p && Cong(Eval(c, x), 0, p)
  }

  /** A root either is `r` or a root of the quotient. */
  lemma OtherRoots(c: seq<int>, p: nat, r: int, x: int)
    requires Prime(p) && c != [] && r in Roots(c, p) && x in Roots(c, p)
    ensures x == r || x in Roots(Quotient(c, r), p)
  {
    hide Eval, Quotient;
    Division(c, r, x);
    var q := Eval(Quotient(c, r), x);
    CongIffDivides(Eval(c, x), Eval(c, r), p);
    Euclid(p, x - r, q);
    if Divides(p, x - r) {
      if x > r {
        DividesBound(p, x - r);
      } else if r > x {
        DividesSub(p, 0, x - r);
        DividesBound(p, r - x);
      }
    }
  }

  /** Modulo a prime a polynomial has no more roots than its degree. */
  lemma {:induction false} RootBound(c: seq<int>, p: nat)
    requires Prime(p) && c != [] && !Cong(c[|c| - 1], 0, p)
    ensures |Roots(c, p)| <= |c| - 1
    decreases |c|
  {
    if |c| == 1 {
      assert c == [c[0]];
      forall x: int ensures Eval(c, x) == c[0] {
        EvalOne(c[0], x);
      }
      assert Roots(c, p) == {};
    } else if r :| r in Roots(c, p) {
      var q := Quotient(c, r);
      RootBound(q, p);
      forall x | x in Roots(c, p) ensures x in {r} + Roots(q, p) {
        OtherRoots(c, p, r, x);
      }
      SubsetSize(Roots(c, p), {r} + Roots(q, p));
    } else {
      assert Roots(c, p) == {};
    }
  }

  lemma SubsetSize<T>(a: set<T>, b: set<T>)
    requires a <= b
    ensures |a| <= |b|
  {
    assert b == a + (b - a);
  }

  /** So it is when any coefficient is not zero. */
  lemma {:induction false} SomeCoefficient(c: seq<int>, p: nat, i: nat)
    requires Prime(p) && i < |c| && !Cong(c[i], 0, p)
    ensures |Roots(c, p)| <= |c| - 1
    decreases |c|
  {
    hide Eval;
    var n := |c| - 1;
    if !Cong(c[n], 0, p) {
      RootBound(c, p);
    } else {
      SomeCoefficient(c[..n], p, i);
      forall x | x in Roots(c, p) ensures x in Roots(c[..n], p) {
        TopIsZero(c, p, x);
      }
      SubsetSize(Roots(c, p), Roots(c[..n], p));
    }
  }

  lemma TopIsZero(c: seq<int>, p: nat, x: int)
    requires p > 0 && c != [] && Cong(c[|c| - 1], 0, p)
    ensures Cong(Eval(c[..|c| - 1], x), Eval(c, x), p)
  {
    hide Eval, Pow;
    var n := |c| - 1;
    assert c == c[..n] + [c[n]];
    EvalAppend(c[..n], [c[n]], x);
    EvalOne(c[n], x);
    CongRefl(Pow(x, n), p);
    CongMul(Pow(x, n), Pow(x, n), c[n], 0, p);
    CongRefl(Eval(c[..n], x), p);
    CongAdd(Eval(c[..n], x), Eval(c[..n], x), Pow(x, n) * c[n], 0, p);
  }

  /** Where two polynomials agree. */
  ghost function Agree(a: seq<int>, b: seq<int>, p: nat): set<int>
    requires p > 0
  {
    set x | 0 <= x < p && Cong(Eval(a, x), Eval(b, x), p)
  }

  /** Different polynomials agree at fewer places than they have coefficients. */
  lemma AgreeBound(a: seq<int>, b: seq<int>, p: nat, i: nat)
    requires Prime(p) && i < |a| == |b| && !Cong(a[i], b[i], p)
    ensures |Agree(a, b, p)| <= |a| - 1
  {
    hide Eval;
    var d := Minus(a, b);
    CongIffDivides(a[i], b[i], p);
    CongIffDivides(d[i], 0, p);
    SomeCoefficient(d, p, i);
    forall x | x in Agree(a, b, p) ensures x in Roots(d, p) {
      EvalMinus(a, b, x);
      CongIffDivides(Eval(a, x), Eval(b, x), p);
      CongIffDivides(Eval(d, x), 0, p);
    }
    SubsetSize(Agree(a, b, p), Roots(d, p));
  }
}
