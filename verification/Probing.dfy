/** The double-hash probe sequence of `simple.h`: slot `k % n` first, then steps of
  * `1 + k % (n - 1)` modulo the table size `n`.
  */
module Probing {
  import opened Words
  import opened NumberTheory

  function Increment(h: nat, n: nat): (inc: nat)
    requires n > 1
    ensures 1 <= inc < n
  {
    1 + h % (n - 1)
  }

  /** The `j`-th slot probed for hash `h`. */
  function Probe(h: nat, n: nat, j: nat): (i: nat)
    requires n > 1
    ensures i < n
  {
    (h + j * Increment(h, n)) % n
  }

  lemma ProbeStart(h: nat, n: nat)
    requires n > 1
    ensures Probe(h, n, 0) == h % n
  {
  }

  /** `next_slot`, in 32-bit arithmetic. */
  function NextSlot(slot: u32, inc: u32, size: u32): (next: u32)
  {
    var s := (slot + inc) % W32;
    if s >= size then s - size else s
  }

  /** `next_slot` adds modulo the table size exactly when the plain sum fits 32 bits ... */
  lemma NextSlotExactIff(slot: u32, inc: u32, size: u32)
    requires slot < size && inc < size
    ensures NextSlot(slot, inc, size) == (slot + inc) % size <==> slot + inc < W32
  {
    var sum := slot + inc;
    ModUnique(sum, if sum < size then 0 else 1, if sum < size then sum else sum - size, size);
    ModUnique(sum, if sum < W32 then 0 else 1, if sum < W32 then sum else sum - W32, W32);
  }

  /** ... and then takes the probe sequence one step further. */
  lemma ProbeNext(h: nat, n: u32, j: nat)
    requires 1 < n <= W32 / 2
    ensures NextSlot(Probe(h, n, j), Increment(h, n), n) == Probe(h, n, j + 1)
  {
    var inc := Increment(h, n);
    var x := h + j * inc;
    assert h + (j + 1) * inc == x + inc by { assert (j + 1) * inc == j * inc + inc; }
    NextSlotExactIff(Probe(h, n, j), inc, n);
    CongMod(x, n);
    CongAdd(x % n, x, inc, inc, n);
  }

  /** In the largest table the sum can wrap: the step below lands five slots short. */
  lemma NextSlotWrapsInLargestTable()
    ensures NextSlot(4294967290, 4294967290, 4294967291) == 4294967284
    ensures (4294967290 + 4294967290) % 4294967291 == 4294967289
  {
  }

  /** The probes of two hashes run alike exactly when the hashes agree modulo `n` and modulo `n - 1`; that makes
    * `n * (n - 1)` different sequences. */
  lemma SameProbesIff(h: nat, g: nat, n: nat)
    requires n > 1
    ensures (forall j: nat :: Probe(h, n, j) == Probe(g, n, j)) <==> Cong(h, g, n * (n - 1))
  {
    hide Probe, Cong;
    if Cong(h, g, n * (n - 1)) {
      SameProbes(h, g, n);
    } else if forall j: nat :: Probe(h, n, j) == Probe(g, n, j) {
      assert Probe(h, n, 0) == Probe(g, n, 0) && Probe(h, n, 1) == Probe(g, n, 1);
      SameStartAndStep(h, g, n);
    }
  }

  lemma SameProbes(h: nat, g: nat, n: nat)
    requires n > 1 && Cong(h, g, n * (n - 1))
    ensures forall j: nat :: Probe(h, n, j) == Probe(g, n, j)
  {
    var q := CongElim(h, g, n * (n - 1));
    Factors(q, n);
    CongIntro(h, g, n - 1, q * n);
    CongIntro(h, g, n, q * (n - 1));
    var inc := Increment(h, n);
    forall j: nat ensures Probe(h, n, j) == Probe(g, n, j) {
      CongRefl(j * inc, n);
      CongAdd(h, g, j * inc, j * inc, n);
    }
  }

  lemma Factors(q: int, n: int)
    ensures q * (n * (n - 1)) == (q * n) * (n - 1) == (q * (n - 1)) * n
  {
    MulAssoc(q, n, n - 1);
    MulAssoc(q, n - 1, n);
  }

  lemma SameStartAndStep(h: nat, g: nat, n: nat)
    requires n > 1 && Probe(h, n, 0) == Probe(g, n, 0) && Probe(h, n, 1) == Probe(g, n, 1)
    ensures Cong(h, g, n * (n - 1))
  {
    hide Divides;
    var x, y := Increment(h, n), Increment(g, n);
    CongIffDivides(h, g, n);
    CongIffDivides(h + x, g + y, n);
    DividesSub(n, (h + x) - (g + y), h - g);
    SmallDifference(x, y, n);
    BothDivide(h, g, n);
  }

  /** Neighbouring numbers have no common factor. */
  lemma BothDivide(h: int, g: int, n: int)
    requires n > 1 && Divides(n, h - g) && Cong(h, g, n - 1)
    ensures Cong(h, g, n * (n - 1))
  {
    hide Divides, Cong;
    var q := CongElim(h, g, n - 1);
    var a := DividesElim(n, h - g);
    MulSub(n, 1, q);
    MulSub(q, a, n);
    DividesIntro(n, q, q - a);
    var b := DividesElim(n, q);
    MulAssoc(b, n, n - 1);
    MulMonotone(1, n, n - 1);
    CongIntro(h, g, n * (n - 1), b);
  }

  lemma SmallDifference(x: int, y: int, n: int)
    requires 1 <= x < n && 1 <= y < n && Divides(n, x - y)
    ensures x == y
  {
    if x > y {
      DividesBound(n, x - y);
    } else if y > x {
      DividesSub(n, 0, x - y);
      DividesBound(n, y - x);
    }
  }

  // ---------- A prime-sized table is covered ----------

  /** Different probes of the first `n` hit different slots. */
  lemma ProbeInjective(h: nat, n: nat, j: nat, k: nat)
    requires Prime(n) && j < n && k < n && Probe(h, n, j) == Probe(h, n, k)
    ensures j == k
  {
    if j > k {
      ProbeInjectiveOrdered(h, n, k, j);
    } else if j < k {
      ProbeInjectiveOrdered(h, n, j, k);
    }
  }

  lemma ProbeInjectiveOrdered(h: nat, n: nat, j: nat, k: nat)
    requires Prime(n) && j < k < n
    ensures Probe(h, n, j) != Probe(h, n, k)
  {
    if Probe(h, n, j) == Probe(h, n, k) {
      var inc := Increment(h, n);
      CongIffDivides(h + k * inc, h + j * inc, n);
      MulSub(k, j, inc);
      Euclid(n, k - j, inc);
      if Divides(n, inc) {
        DividesBound(n, inc);
      } else {
        DividesBound(n, k - j);
      }
    }
  }

  /** Fermat's theorem gives the inverse of the increment, hence the probe that hits a given slot. */
  lemma ProbeSurjective(h: nat, n: nat, i: nat) returns (j: nat)
    requires Prime(n) && i < n
    ensures j < n && Probe(h, n, j) == i
  {
    var inc := Increment(h, n);
    var inverse := Pow(inc, n - 2);
    if Divides(n, inc) {
      DividesBound(n, inc);
    }
    Fermat(n, inc);
    var x := (i - h) * inverse;
    j := x % n;
    CongMod(x, n);
    CongMul(j, x, inc, inc, n);
    assert x * inc == (i - h) * Pow(inc, n - 1) by {
      MulAssoc(i - h, inverse, inc);
    }
    CongMul(i - h, i - h, Pow(inc, n - 1), 1, n);
    CongAdd(h, h, j * inc, i - h, n);
    ModUnique(i, 0, i, n);
  }

  /** Which of the first `n` probes hits slot `i`. */
  ghost function ProbeIndex(h: nat, n: nat, i: nat): (j: nat)
    requires Prime(n) && i < n
    ensures j < n && Probe(h, n, j) == i
  {
    ProbeExists(h, n, i);
    var j: nat :| j < n && Probe(h, n, j) == i;
    j
  }

  /** The probe sequence of hash `h` visits slot `i`. */
  ghost predicate Visits(h: nat, n: nat, i: nat)
    requires n > 1
  {
    exists j: nat :: j < n && Probe(h, n, j) == i
  }

  lemma ProbeExists(h: nat, n: nat, i: nat)
    requires Prime(n) && i < n
    ensures Visits(h, n, i)
  {
    var j := ProbeSurjective(h, n, i);
  }

  lemma ProbeIndexOf(h: nat, n: nat, j: nat)
    requires Prime(n) && j < n
    ensures ProbeIndex(h, n, Probe(h, n, j)) == j
  {
    ProbeInjective(h, n, ProbeIndex(h, n, Probe(h, n, j)), j);
  }

  /** The probe sequence of every hash visits every slot exactly when the table size is prime. */
  lemma ProbesCoverIffPrime(n: nat)
    requires n > 1
    ensures Prime(n) <==> forall h: nat, i: nat :: i < n ==> Visits(h, n, i)
  {
    if Prime(n) {
      forall h: nat, i: nat | i < n ensures Visits(h, n, i) {
        ProbeExists(h, n, i);
      }
    } else {
      var d :| 2 <= d < n && Divides(d, n);
      var h := d - 1;
      forall j: nat ensures Probe(h, n, j) != 0 {
        CompositeMissesSlot(n, d, j);
      }
      assert !Visits(d - 1, n, 0);
    }
  }

  /** With an increment `d` dividing `n`, the probes from slot `d - 1` keep the remainder `d - 1`. */
  lemma CompositeMissesSlot(n: nat, d: nat, j: nat)
    requires 2 <= d < n && Divides(d, n)
    ensures Probe(d - 1, n, j) != 0
  {
    ModUnique(d - 1, 0, d - 1, n - 1);
    assert Increment(d - 1, n) == d;
    var x := d - 1 + j * d;
    if x % n == 0 {
      DividesTrans(d, n, x);
      ModUnique(x, j, d - 1, d);
    }
  }
}
