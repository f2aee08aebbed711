/** One open-addressing table of `simple.h`: its node array, its flag words and its counters,
  * updated in place.
  */
module HashTable {
  import opened Words
  import opened PrimeList
  import opened Probing
  import opened OpenTable
  import opened SlotBits

  function TableSize(i: nat): (n: u32)
    requires i <= 28
    ensures 3 <= n <= 1610612741
  {
    PRIMES[i]
  }

  /** The load bound: seven tenths of the slots. */
  function UpperBound(n: u32): u32 { n * 7 / 10 }

  /** The largest number of slots that is no more than seven tenths of the table. */
  lemma SevenTenths(n: u32)
    ensures 10 * UpperBound(n) <= 7 * n < 10 * (UpperBound(n) + 1)
  {
  }

  class Table<K(==, 0), V(0)> {
    ghost const index: nat
    const nBuckets: u32
    const upperBound: u32
    const p: array<Node<K, V>>
    const b: array<bv32>
    var nDirty: u32
    var size: u32
    /** The slots as plain values. */
    ghost var slots: Slots<K, V>

    ghost predicate Sized()
    {
      && index <= 28 && nBuckets == TableSize(index) && upperBound == UpperBound(nBuckets)
      && p.Length == nBuckets && b.Length == nBuckets / 16 + 1
    }

    /** The arrays hold exactly the abstract slots. */
    ghost predicate Represented()
      requires Sized()
      reads this`slots, p, b
    {
      && slots.nodes == p[..] && |slots.exist| == nBuckets && |slots.dirty| == nBuckets
      && forall i :: 0 <= i < nBuckets ==>
           slots.exist[i] == ExistBit(b[..], i) && slots.dirty[i] == DirtyBit(b[..], i)
    }

    ghost predicate Counted()
      reads this
    {
      && |slots.exist| == |slots.nodes| == |slots.dirty| == nBuckets
      && size == Count(slots.exist) && nDirty == slots.UsedCount() && nDirty < nBuckets
    }

    ghost predicate Valid()
      reads this, p, b
    {
      Sized() && Represented() && slots.Inv() && Counted()
    }

    ghost function Contents(): map<Key<K>, V>
      requires Valid()
      reads this, p, b
    {
      slots.Contents()
    }

    constructor (ghost index: nat, nBuckets: u32)
      requires index <= 28 && nBuckets == TableSize(index)
      ensures fresh(p) && fresh(b) && this.index == index && this.nBuckets == nBuckets
      ensures Valid() && Contents() == map[] && size == 0 && nDirty == 0
    {
      this.index := index;
      this.nBuckets := nBuckets;
      upperBound := UpperBound(nBuckets);
      p := new Node<K, V>[nBuckets];
      b := new bv32[nBuckets / 16 + 1](_ => 0);
      nDirty, size := 0, 0;
      new;
      slots := Slots(p[..], seq(nBuckets, _ => false), seq(nBuckets, _ => false));
      AllPrime(index);
      assert Represented() by {
        hide Mask;
        forall i | 0 <= i < nBuckets ensures !ExistBit(b[..], i) && !DirtyBit(b[..], i) {
          ZeroWord(Mask(i % 16));
          ZeroWord(Mask(i % 16 + 16));
        }
      }
      EmptyTable(slots);
    }

    // ---------- Flags ----------

    method IsExist(i: nat) returns (e: bool)
      requires Sized() && Represented() && i < nBuckets
      ensures e == slots.exist[i]
    {
      hide TableSize;
      e := HasAny(b[i / 16], Mask(i % 16));
    }

    method IsDirty(i: nat) returns (d: bool)
      requires Sized() && Represented() && i < nBuckets
      ensures d == slots.dirty[i]
    {
      hide TableSize;
      d := HasAny(b[i / 16], Mask(i % 16 + 16));
    }

    method SetDirtyFlag(i: nat)
      requires Sized() && Represented() && i < nBuckets
      modifies this`slots, b
      ensures Represented() && slots == old(slots).(dirty := old(slots).dirty[i := true])
    {
      hide TableSize;
      b[i / 16] := WithAll(b[i / 16], Mask(i % 16 + 16));
      slots := slots.(dirty := slots.dirty[i := true]);
      assert b[..] == SetDirty(old(b[..]), i);
      forall j | 0 <= j < nBuckets
        ensures slots.exist[j] == ExistBit(b[..], j) && slots.dirty[j] == DirtyBit(b[..], j)
      {
        SetDirtyEffect(old(b[..]), i, j);
      }
    }

    method SetExistFlag(i: nat)
      requires Sized() && Represented() && i < nBuckets
      modifies this`slots, b
      ensures Represented() && slots == old(slots).(exist := old(slots).exist[i := true])
    {
      hide TableSize;
      b[i / 16] := WithAll(b[i / 16], Mask(i % 16));
      slots := slots.(exist := slots.exist[i := true]);
      assert b[..] == SetExist(old(b[..]), i);
      forall j | 0 <= j < nBuckets
        ensures slots.exist[j] == ExistBit(b[..], j) && slots.dirty[j] == DirtyBit(b[..], j)
      {
        SetExistEffect(old(b[..]), i, j);
      }
    }

    method SetFreeFlag(i: nat)
      requires Sized() && Represented() && i < nBuckets
      modifies this`slots, b
      ensures Represented() && slots == old(slots).(exist := old(slots).exist[i := false])
    {
      hide TableSize;
      b[i / 16] := WithNone(b[i / 16], Mask(i % 16));
      slots := slots.(exist := slots.exist[i := false]);
      assert b[..] == SetFree(old(b[..]), i);
      forall j | 0 <= j < nBuckets
        ensures slots.exist[j] == ExistBit(b[..], j) && slots.dirty[j] == DirtyBit(b[..], j)
      {
        SetFreeEffect(old(b[..]), i, j);
      }
    }

    /** What the loops need to know of a valid table. */
    lemma Layout()
      requires Valid()
      ensures 2 < nBuckets <= W32 / 2 && p.Length == nBuckets && slots.nodes == p[..]
      ensures |slots.nodes| == |slots.exist| == |slots.dirty| == nBuckets
      ensures slots.UsedCount() < nBuckets && slots.Inv() && Sized() && Represented() && Counted()
      ensures Contents() == slots.Contents()
    {
    }

    lemma Bounds()
      requires Valid()
      ensures index <= 28 && nBuckets == TableSize(index) && upperBound == UpperBound(nBuckets)
    {
    }

    /** Validity from its parts. */
    lemma Revalidate()
      requires Sized() && Represented() && slots.Inv() && Counted()
      ensures Valid() && Contents() == slots.Contents()
    {
    }

    // ---------- Lookup ----------

    /** `find`; `get` is the same loop with the key taken from a node. */
    method Find(key: Key<K>) returns (x: nat)
      requires Valid()
      ensures x <= nBuckets
      ensures x < nBuckets ==> slots.Matches(x, key) && key in Contents() && Contents()[key] == p[x].value
      ensures x == nBuckets ==> key !in Contents()
    {
      hide Table.Valid, Table.Sized, Table.Represented, Table.Counted, Table.Contents;
      hide Slots.Inv, Slots.Contents, Slots.UsedCount;
      hide Walking, Increment, NextSlot, TableSize;
      Layout();
      var k := key.hash;
      var i: u32 := k % nBuckets;
      var inc: u32 := Increment(k, nBuckets);
      WalkStart(slots, key);
      ghost var j: nat := 0;
      while true
        invariant Walking(slots, key, i, j)
        decreases nBuckets - j
      {
        var exist := IsExist(i);
        if exist && p[i].key == key {
          WalkFound(slots, key, i);
          return i;
        }
        var dirty := IsDirty(i);
        if !dirty {
          WalkAbsent(slots, key, i, j);
          return nBuckets;
        }
        WalkNext(slots, key, i, j);
        i := NextSlot(i, inc, nBuckets);
        j := j + 1;
      }
    }

    // ---------- Insertion ----------

    /** The end of `put_slot`: a free slot is taken and counted. */
    method Claim(i: nat)
      requires Sized() && Represented() && Counted() && i < nBuckets && !slots.exist[i] && nDirty + 1 < nBuckets
      modifies this`slots, this`size, this`nDirty, b
      ensures Represented() && Counted() && slots == old(slots).(exist := old(slots).exist[i := true])
      ensures size == old(size) + 1 && nDirty == old(nDirty) + (if old(slots).dirty[i] then 0 else 1)
    {
      hide Table.Sized, Table.Represented, Slots.UsedCount, Count;
      CountersOnExist(slots, i, true);
      size := size + 1;
      var d := IsDirty(i);
      if !d {
        nDirty := nDirty + 1;
      }
      SetExistFlag(i);
    }

    /** The first loop of `put_slot`: skip taken slots, marking each as part of a chain. */
    method SkipTaken(key: Key<K>) returns (i: u32, found: bool, ghost j: nat)
      requires Valid()
      modifies this`slots, b
      ensures size == old(size) && nDirty == old(nDirty)
      ensures Valid() && Contents() == old(Contents())
      ensures slots.nodes == old(slots.nodes) && slots.exist == old(slots.exist)
      ensures Walking(slots, key, i, j) && i < nBuckets
      ensures if found then slots.Matches(i, key) else !slots.exist[i]
    {
      hide Table.Valid, Table.Sized, Table.Represented, Table.Counted, Table.Contents;
      hide Slots.Inv, Slots.Contents, Slots.UsedCount;
      hide Walking, Increment, NextSlot, TableSize;
      Layout();
      var k := key.hash;
      i := k % nBuckets;
      var inc: u32 := Increment(k, nBuckets);
      WalkStart(slots, key);
      j := 0;
      var e := IsExist(i);
      while e
        invariant Valid() && i < nBuckets == |slots.exist|
        invariant Walking(slots, key, i, j) && e == slots.exist[i]
        invariant size == old(size) && nDirty == old(nDirty)
        invariant slots.nodes == old(slots.nodes) && slots.exist == old(slots.exist) && Contents() == old(Contents())
        decreases nBuckets - j
      {
        Layout();
        if p[i].key == key {
          return i, true, j;
        }
        WalkMark(slots, key, i, j);
        SetDirtyFlag(i);
        Revalidate();
        i := NextSlot(i, inc, nBuckets);
        j := j + 1;
        e := IsExist(i);
      }
      return i, false, j;
    }

    /** The second loop of `put_slot`: follow dirty slots to the end of the chain, looking for
      * the key beyond the free slot. */
    method SeekDuplicate(key: Key<K>, i0: u32, ghost j0: nat) returns (i: u32, found: bool)
      requires Valid() && Walking(slots, key, i0, j0) && !slots.exist[i0]
      ensures i < nBuckets && (found ==> slots.Matches(i, key))
      ensures !found ==> key !in Contents()
    {
      hide Table.Valid, Table.Sized, Table.Represented, Table.Counted, Table.Contents;
      hide Slots.Inv, Slots.Contents, Slots.UsedCount;
      hide Walking, Increment, NextSlot, TableSize;
      Layout();
      var k := key.hash;
      var inc: u32 := Increment(k, nBuckets);
      i := i0;
      ghost var j := j0;
      var d := IsDirty(i);
      while d
        invariant i < nBuckets && Walking(slots, key, i, j) && !slots.Matches(i, key) && d == slots.dirty[i]
        decreases nBuckets - j
      {
        WalkNext(slots, key, i, j);
        i := NextSlot(i, inc, nBuckets);
        j := j + 1;
        var e := IsExist(i);
        if e && p[i].key == key {
          return i, true;
        }
        d := IsDirty(i);
      }
      WalkAbsent(slots, key, i, j);
      return i, false;
    }

    /** `put_slot`: the slot for a node, found or claimed. The caller stores the node there,
      * and the table then represents the updated map. */
    method PutSlot(node: Node<K, V>) returns (x: nat, exist: bool)
      requires Valid() && nDirty + 1 < nBuckets
      modifies this`slots, this`size, this`nDirty, b
      ensures Sized() && Represented() && Counted() && x < nBuckets
      ensures slots.nodes == old(slots.nodes) && x < |slots.exist| && slots.exist == old(slots.exist)[x := true]
      ensures exist <==> node.key in old(Contents())
      ensures exist ==> slots.Matches(x, node.key) && old(Contents())[node.key] == slots.nodes[x].value
      ensures exist ==> nDirty == old(nDirty)
      ensures !exist ==> old(nDirty) <= nDirty <= old(nDirty) + 1
      ensures var t := slots.(nodes := slots.nodes[x := node]);
              t.Inv() && t.Contents() == old(Contents())[node.key := node.value]
    {
      hide Table.Valid, Table.Sized, Table.Represented, Table.Counted, Table.Contents;
      hide Slots.Inv, Slots.Contents, Slots.UsedCount;
      hide Walking, TableSize, Count;
      Layout();
      ghost var j;
      x, exist, j := SkipTaken(node.key);
      Layout();
      if exist {
        WalkFound(slots, node.key, x);
        Overwrite(slots, x, node);
        return;
      }
      var save := x;
      WalkChained(slots, node.key, save, j);
      x, exist := SeekDuplicate(node.key, save, j);
      if exist {
        WalkFound(slots, node.key, x);
        Overwrite(slots, x, node);
        return;
      }
      Insert(slots, save, node);
      Claim(save);
      return save, false;
    }

    /** A put into a table that is not resizing, and the last steps of every put: the slot for
      * the node, then the node. */
    method Put(node: Node<K, V>) returns (x: nat, replaced: Option<Node<K, V>>)
      requires Valid() && nDirty + 1 < nBuckets
      modifies this`slots, this`size, this`nDirty, b, p
      ensures Valid() && x < nBuckets && p[x] == node
      ensures Contents() == old(Contents())[node.key := node.value]
      ensures old(nDirty) <= nDirty <= old(nDirty) + 1
      ensures replaced == if node.key in old(Contents()) then Some(Node(node.key, old(Contents())[node.key])) else None
      ensures slots.nodes == old(slots.nodes)[x := node] && slots.exist == old(slots.exist)[x := true]
    {
      hide Table.Represented, Table.Counted, Slots.Inv, Slots.Contents, TableSize;
      Layout();
      var exist;
      x, exist := PutSlot(node);
      replaced := if exist then Some(p[x]) else None;
      Store(x, node);
    }

    method Store(x: nat, node: Node<K, V>)
      requires Sized() && Represented() && Counted() && x < nBuckets
      requires slots.(nodes := slots.nodes[x := node]).Inv()
      modifies this`slots, p
      ensures Valid() && slots == old(slots).(nodes := old(slots).nodes[x := node]) && p[x] == node
    {
      hide Slots.Inv, TableSize, ExistBit, DirtyBit, Count;
      p[x] := node;
      slots := slots.(nodes := slots.nodes[x := node]);
    }

    // ---------- Removal ----------

    /** `del` in a table that is not resizing, and its first steps in every table. */
    method Delete(x: nat) returns (deleted: bool)
      requires Valid() && x <= nBuckets
      modifies this`slots, this`size, this`nDirty, b
      ensures Valid() && nDirty <= old(nDirty)
      ensures deleted == (x < nBuckets && old(slots).exist[x])
      ensures slots == if deleted then old(slots).(exist := old(slots).exist[x := false]) else old(slots)
      ensures deleted ==> Contents() == old(Contents()) - {slots.nodes[x].key} && slots.nodes[x].key in old(Contents())
      ensures !deleted ==> Contents() == old(Contents())
    {
      hide Table.Sized, Table.Represented, Slots.Inv, Slots.Contents, Slots.UsedCount, TableSize, Count;
      Layout();
      if x == nBuckets {
        return false;
      }
      deleted := IsExist(x);
      if deleted {
        DeletedEntry(slots, x);
        SetFreeFlag(x);
        size := size - 1;
        var d := IsDirty(x);
        if !d {
          nDirty := nDirty - 1;
        }
      }
    }
  }
}
