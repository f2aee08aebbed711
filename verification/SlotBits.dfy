/** The packed slot flags of `simple.h`: a 32-bit word holds sixteen "exist" bits below
  * sixteen "dirty" bits.
  */
module SlotBits {

  function Mask(k: nat): bv32
    requires k < 32
  {
    (1 as bv32) << k
  }

  function HasAny(w: bv32, m: bv32): bool { w & m != 0 }

  function WithAll(w: bv32, m: bv32): bv32 { w | m }

  function WithNone(w: bv32, m: bv32): bv32 { w & !m }

  lemma MasksDisjoint(a: nat, c: nat)
    requires a < 32 && c < 32
    ensures Mask(a) != 0
    ensures a != c ==> Mask(a) & Mask(c) == 0
  {
  }

  lemma SetOneBit(w: bv32, a: nat, m: bv32, c: nat, n: bv32)
    requires a < 32 && c < 32 && m == Mask(a) && n == Mask(c)
    ensures HasAny(WithAll(w, m), n) == (HasAny(w, n) || a == c)
  {
    hide Mask;
    MasksDisjoint(a, c);
    hide HasAny, WithAll;
    OrMask(w, m, n, a == c);
  }

  lemma OrMask(w: bv32, m: bv32, n: bv32, same: bool)
    requires m != 0 && (if same then m == n else m & n == 0)
    ensures HasAny(WithAll(w, m), n) == (HasAny(w, n) || same)
  {
    if same {
      OrSame(w, m, n);
    } else {
      OrOther(w, m, n);
    }
  }

  lemma OrSame(w: bv32, m: bv32, n: bv32)
    requires m == n
    ensures (w | m) & n == m
    ensures (w & !m) & n == 0
  {
  }

  lemma OrOther(w: bv32, m: bv32, n: bv32)
    requires m & n == 0
    ensures (w | m) & n == w & n
    ensures (w & !m) & n == w & n
  {
  }

  lemma ClearOneBit(w: bv32, a: nat, m: bv32, c: nat, n: bv32)
    requires a < 32 && c < 32 && m == Mask(a) && n == Mask(c)
    ensures HasAny(WithNone(w, m), n) == (HasAny(w, n) && a != c)
  {
    hide Mask;
    MasksDisjoint(a, c);
    hide HasAny, WithNone;
    AndNotMask(w, m, n, a == c);
  }

  lemma AndNotMask(w: bv32, m: bv32, n: bv32, same: bool)
    requires m != 0 && (if same then m == n else m & n == 0)
    ensures HasAny(WithNone(w, m), n) == (HasAny(w, n) && !same)
  {
    if same {
      OrSame(w, m, n);
    } else {
      OrOther(w, m, n);
    }
  }

  function ExistBit(b: seq<bv32>, i: nat): bool
    requires i / 16 < |b|
  {
    HasAny(b[i / 16], Mask(i % 16))
  }

  function DirtyBit(b: seq<bv32>, i: nat): bool
    requires i / 16 < |b|
  {
    HasAny(b[i / 16], Mask(i % 16 + 16))
  }

  function SetExist(b: seq<bv32>, i: nat): seq<bv32>
    requires i / 16 < |b|
  {
    b[i / 16 := WithAll(b[i / 16], Mask(i % 16))]
  }

  function SetFree(b: seq<bv32>, i: nat): seq<bv32>
    requires i / 16 < |b|
  {
    b[i / 16 := WithNone(b[i / 16], Mask(i % 16))]
  }

  function SetDirty(b: seq<bv32>, i: nat): seq<bv32>
    requires i / 16 < |b|
  {
    b[i / 16 := WithAll(b[i / 16], Mask(i % 16 + 16))]
  }

  /** The low half of a word holds "exist" bits and the high half "dirty" bits, the first slot's lowest. */
  lemma FlagPositions()
    ensures ExistBit([0x0000_0001], 0) && ExistBit([0x0000_8000], 15) && DirtyBit([0x0001_0000], 0) && DirtyBit([0x8000_0000], 15)
    ensures ExistBit([0, 0x0000_0002], 17) && DirtyBit([0, 0x0002_0000], 17)
  {
    Positions();
    hide Mask;
  }

  lemma Positions()
    ensures Mask(0) == 1 && Mask(1) == 2 && Mask(15) == 0x8000
    ensures Mask(16) == 0x1_0000 && Mask(17) == 0x2_0000 && Mask(31) == 0x8000_0000
  {
  }

  /** Setting a slot's "exist" bit changes that one flag ... */
  lemma SetExistEffect(b: seq<bv32>, i: nat, j: nat)
    requires i / 16 < |b| && j / 16 < |b|
    ensures ExistBit(SetExist(b, i), j) == (ExistBit(b, j) || i == j)
    ensures DirtyBit(SetExist(b, i), j) == DirtyBit(b, j)
  {
    hide Mask, HasAny, WithAll;
    SetOneBit(b[i / 16], i % 16, Mask(i % 16), j % 16, Mask(j % 16));
    SetOneBit(b[i / 16], i % 16, Mask(i % 16), j % 16 + 16, Mask(j % 16 + 16));
  }

  /** ... as does clearing it ... */
  lemma SetFreeEffect(b: seq<bv32>, i: nat, j: nat)
    requires i / 16 < |b| && j / 16 < |b|
    ensures ExistBit(SetFree(b, i), j) == (ExistBit(b, j) && i != j)
    ensures DirtyBit(SetFree(b, i), j) == DirtyBit(b, j)
  {
    hide Mask, HasAny, WithNone;
    ClearOneBit(b[i / 16], i % 16, Mask(i % 16), j % 16, Mask(j % 16));
    ClearOneBit(b[i / 16], i % 16, Mask(i % 16), j % 16 + 16, Mask(j % 16 + 16));
  }

  /** ... and setting its "dirty" bit. */
  lemma SetDirtyEffect(b: seq<bv32>, i: nat, j: nat)
    requires i / 16 < |b| && j / 16 < |b|
    ensures ExistBit(SetDirty(b, i), j) == ExistBit(b, j)
    ensures DirtyBit(SetDirty(b, i), j) == (DirtyBit(b, j) || i == j)
  {
    hide Mask, HasAny, WithAll;
    SetOneBit(b[i / 16], i % 16 + 16, Mask(i % 16 + 16), j % 16, Mask(j % 16));
    SetOneBit(b[i / 16], i % 16 + 16, Mask(i % 16 + 16), j % 16 + 16, Mask(j % 16 + 16));
  }

  lemma ZeroWord(m: bv32)
    ensures !HasAny(0, m)
  {
  }
}
