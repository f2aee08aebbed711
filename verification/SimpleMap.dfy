/** The map of `simple.h` with its incremental resize: while a shadow table fills a batch of
  * slots at a time, puts and deletes go on in both tables.
  */
module SimpleMap {
  import opened NumberTheory
  import opened Words
  import opened PrimeList
  import opened OpenTable
  import opened HashTable

  // ---------- Room for a growing table ----------

  /** A resize in progress has done `t` batches of at least 256 slots, up to slot `pos`. Even if
    * every batch came with a put of a new key, neither table is full, and the new one
    * is below its own load bound. */
  lemma Room(i: nat, j: nat, pos: nat, t: nat)
    requires i < j <= 28 && pos <= TableSize(i) && 256 * t <= pos
    ensures pos + t < UpperBound(TableSize(j)) < TableSize(j)
    ensures t > 0 ==> UpperBound(TableSize(i)) + t + 1 < TableSize(i)
  {
    SizesGrow(i, j);
    hide TableSize;
  }

  /** The next size leaves at least 71/70 of the old size below its load bound. */
  lemma SizesGrow(i: nat, j: nat)
    requires i < j <= 28
    ensures 71 * TableSize(i) < 70 * UpperBound(TableSize(j))
  {
  }

  // ---------- The two tables of a resize ----------

  /** The shadow `s` agrees with the main table `m` and holds every key found in the first `pos` slots. */
  ghost predicate Migrated<K, V>(m: Slots<K, V>, s: Slots<K, V>, pos: nat)
  {
    && m.Inv() && s.Inv() && pos <= m.Size()
    && (forall key :: key in s.Contents() ==> key in m.Contents() && m.Contents()[key] == s.Contents()[key])
    && (forall i :: 0 <= i < pos && m.exist[i] ==> m.nodes[i].key in s.Contents())
  }

  lemma MigrateSlot<K, V>(m: Slots<K, V>, s: Slots<K, V>, s': Slots<K, V>, i: nat)
    requires Migrated(m, s, i) && i < m.Size() && s'.Inv()
    requires s'.Contents() == if m.exist[i] then s.Contents()[m.nodes[i].key := m.nodes[i].value] else s.Contents()
    ensures Migrated(m, s', i + 1)
  {
    hide Slots.Inv, Slots.Contents;
    OneSlotPerKey(m);
    if m.exist[i] {
      PresentAt(m, i);
    }
  }

  lemma OneSlotPerKey<K, V>(m: Slots<K, V>)
    requires m.Inv()
    ensures |m.exist| == m.Size() && m.Distinct()
  {
  }

  /** When every slot has been migrated the two tables hold the same map, so their sizes agree. */
  lemma MigrationComplete<K, V>(m: Slots<K, V>, s: Slots<K, V>)
    requires Migrated(m, s, m.Size())
    ensures s.Contents() == m.Contents() && Count(s.exist) == Count(m.exist)
  {
    hide Slots.Inv, Slots.Contents;
    OneSlotPerKey(m);
    OneSlotPerKey(s);
    CountIsCardinality(m);
    CountIsCardinality(s);
    forall key | key in m.Contents() ensures key in s.Contents() {
      var i := StoredSlot(m, key);
    }
  }

  lemma StoredSlot<K, V>(m: Slots<K, V>, key: Key<K>) returns (i: nat)
    requires key in m.Contents()
    ensures i < m.Size() == |m.exist| && m.Matches(i, key)
  {
    i :| 0 <= i < m.Size() && m.exist[i] && m.nodes[i].key == key;
  }

  /** A put into both tables keeps the shadow in step. */
  lemma MigratePut<K, V>(m: Slots<K, V>, s: Slots<K, V>, m': Slots<K, V>, s': Slots<K, V>, pos: nat, x: nat, node: Node<K, V>)
    requires Migrated(m, s, pos) && m'.Inv() && s'.Inv() && x < m.Size()
    requires m'.nodes == m.nodes[x := node] && m'.exist == m.exist[x := true]
    requires m'.Contents() == m.Contents()[node.key := node.value]
    requires s'.Contents() == s.Contents()[node.key := node.value]
    ensures Migrated(m', s', pos)
  {
    hide Slots.Inv, Slots.Contents;
    OneSlotPerKey(m);
  }

  /** So does a delete from both. */
  lemma MigrateDelete<K, V>(m: Slots<K, V>, s: Slots<K, V>, m': Slots<K, V>, s': Slots<K, V>, pos: nat, x: nat)
    requires Migrated(m, s, pos) && m'.Inv() && s'.Inv() && x < m.Size() && m.exist[x]
    requires m'.nodes == m.nodes && m'.exist == m.exist[x := false]
    requires m'.Contents() == m.Contents() - {m.nodes[x].key}
    requires s'.Contents() == s.Contents() - {m.nodes[x].key}
    ensures Migrated(m', s', pos)
  {
    hide Slots.Inv, Slots.Contents;
    OneSlotPerKey(m);
  }

  lemma EmptyShadow<K, V>(m: Slots<K, V>, s: Slots<K, V>)
    requires m.Inv() && s.Inv() && s.Contents() == map[]
    ensures Migrated(m, s, 0)
  {
  }

  /** One more batch, counted by the position. */
  lemma NextBatch(pos: nat, batch: nat)
    requires batch > 0 && pos % batch == 0
    ensures (pos + batch) % batch == 0 && (pos + batch) / batch == pos / batch + 1
    ensures pos / batch * batch + batch <= pos + batch
  {
    ModUnique(pos + batch, pos / batch + 1, 0, batch);
  }

  lemma BatchesSoFar(pos: nat, batch: nat)
    requires batch >= 256 && pos % batch == 0
    ensures 256 * (pos / batch) <= pos
  {
    MulMonotone(256, batch, pos / batch);
  }

  /** How many slots a step migrates: what is asked for or else a 262144th of the table, but 256 at least. */
  function BatchSize(asked: u32, buckets: u32): (n: u32)
    ensures n >= 256 && (asked >= 256 ==> n == asked)
    ensures asked == 0 ==> n == 256 || (n * 262144 <= buckets < (n + 1) * 262144)
    ensures n > 256 ==> n == asked || asked == 0
  {
    var n := if asked > 0 then asked else buckets / (256 * 1024);
    if n < 256 then 256 else n
  }

  lemma SizeOf(i: nat)
    requires i <= 28
    ensures PRIMES[i] == TableSize(i)
  {
  }

  lemma NextIsLarger(i: nat)
    requires i < 28
    ensures TableSize(i) < TableSize(i + 1) <= TableSize(28)
  {
  }

  lemma {:induction false} CountBelowUsed(s: seq<bool>, t: seq<bool>)
    requires |s| == |t|
    ensures Count(s) <= CountEither(s, t)
  {
    if s != [] {
      CountBelowUsed(s[..|s| - 1], t[..|s| - 1]);
    }
  }

  // ---------- The map ----------

  class Map<K(==, 0), V(0)> {
    var main: Table<K, V>
    /** The table being filled, present exactly while a resize is in progress. */
    var shadow: Table?<K, V>
    /** The index of the newest table's size in the prime list. */
    var prime: nat
    var resizeCnt: nat
    var resizePosition: u32
    var batch: u32

    ghost function Repr(): set<object>
      reads this
    {
      {this, main, main.p, main.b} + if shadow == null then {} else {shadow, shadow.p, shadow.b}
    }

    /** The tables are separate objects. */
    ghost predicate Separate()
      reads this
    {
      && main.p as object != main.b as object
      && (shadow != null ==>
            && shadow != main && shadow.p != main.p && shadow.b != main.b
            && shadow.p as object != shadow.b as object
            && shadow.p as object != main.b as object && shadow.b as object != main.p as object)
    }

    /** A resize that has come as far as slot `pos` in `t` batches: the shadow agrees with the
      * main table, and neither has grown by more than one slot a batch. */
    ghost predicate Filling(pos: nat, t: nat)
      reads this, Repr()
    {
      && Separate() && main.Valid() && shadow != null && shadow.Valid()
      && main.index < prime <= 28 && shadow.index == prime
      && 256 <= batch && 256 * t <= pos <= main.nBuckets
      && Migrated(main.slots, shadow.slots, pos)
      && main.nDirty <= main.upperBound + t && shadow.nDirty <= pos + t
    }

    ghost predicate Steady()
      reads this, Repr()
    {
      && Separate() && shadow == null && resizePosition == 0
      && main.Valid() && main.index == prime && main.nDirty <= main.upperBound
    }

    ghost predicate Valid()
      reads this, Repr()
    {
      if resizePosition == 0 then Steady()
      else
        && batch > 0 && resizePosition % batch == 0 && resizePosition < main.nBuckets
        && Filling(resizePosition, resizePosition / batch)
    }

    /** The main table alone is the map, whatever a resize in progress has reached. */
    ghost function Contents(): map<Key<K>, V>
      requires Valid()
      reads this, Repr()
    {
      main.slots.Contents()
    }

    constructor ()
      ensures Valid() && Contents() == map[] && fresh(Repr())
    {
      main := new Table<K, V>(0, 3);
      shadow := null;
      prime, resizeCnt, resizePosition, batch := 0, 0, 0, 0;
    }

    /** One step of the migration: a stored node is put into the shadow. */
    method MigrateOne(i: u32, ghost t: nat)
      requires Filling(i, t) && i < main.nBuckets
      modifies shadow`slots, shadow`size, shadow`nDirty, shadow.p, shadow.b
      ensures Filling(i + 1, t)
    {
      hide Table.Valid, Table.Sized, Table.Represented, Table.Counted, Table.Contents;
      hide Slots.Inv, Slots.Contents, Migrated, TableSize, UpperBound;
      main.Layout();
      shadow.Layout();
      main.Bounds();
      shadow.Bounds();
      Room(main.index, prime, i, t);
      var exist := main.IsExist(i);
      if exist {
        var _, _ := shadow.Put(main.p[i]);
        shadow.Layout();
      }
      MigrateSlot(main.slots, old(shadow.slots), shadow.slots, i);
    }

    /** At the last slot the tables agree, so the sizes do, and the new table has room. */
    lemma ReadyToSwap(t: nat)
      requires Filling(main.nBuckets, t)
      ensures shadow != null && shadow.Valid() && shadow.size == main.size && shadow.index == prime <= 28
      ensures shadow.slots.Contents() == main.slots.Contents()
      ensures shadow.nDirty < shadow.upperBound && shadow.p as object != shadow.b as object
    {
      hide Table.Sized, Table.Represented, Slots.Contents, TableSize, UpperBound, Count, Slots.UsedCount;
      MigrationComplete(main.slots, shadow.slots);
      main.Bounds();
      shadow.Bounds();
      Room(main.index, prime, main.nBuckets, t);
    }

    lemma FillingFrame(pos: nat, t: nat)
      requires Filling(pos, t)
      ensures shadow != null && pos <= main.nBuckets && Separate() && batch >= 256
    {
    }

    /** `resize`: migrate one batch of slots, and swap the tables when the last one is done. */
    method Resize(ghost t: nat)
      requires Filling(resizePosition, t)
      modifies Repr()
      ensures prime == old(prime) && batch == old(batch) && Repr() <= old(Repr())
      ensures main.slots.Contents() == old(main.slots.Contents())
      ensures resizePosition == 0 ==> Steady() && main.nDirty < main.upperBound && main == old(shadow)
      ensures resizePosition > 0 ==>
                && resizePosition == old(resizePosition) + batch < main.nBuckets
                && Filling(resizePosition, t) && main == old(main) && shadow == old(shadow)
                && main.slots == old(main.slots)
    {
      hide Map.Filling, Table.Valid, Slots.Contents, TableSize, UpperBound;
      FillingFrame(resizePosition, t);
      var left := batch;
      var i := resizePosition;
      while i < main.nBuckets
        invariant old(resizePosition) <= i <= main.nBuckets && left == batch - (i - old(resizePosition)) >= 0
        invariant main == old(main) && shadow == old(shadow) != null
        invariant prime == old(prime) && batch == old(batch) && resizePosition == old(resizePosition)
        invariant main.slots == old(main.slots) && Filling(i, t) && Separate()
      {
        if left == 0 {
          ghost var pos := i;
          SetPosition(i, t);
          return;
        }
        left := left - 1;
        MigrateOne(i, t);
        i := i + 1;
      }
      ReadyToSwap(t);
      assert shadow.size == main.size;
      main := shadow;
      shadow := null;
      resizePosition := 0;
      resizeCnt := resizeCnt + 1;
    }

    method SetPosition(pos: u32, ghost t: nat)
      requires Filling(pos, t)
      modifies this`resizePosition
      ensures resizePosition == pos && Filling(pos, t)
    {
      resizePosition := pos;
    }

    /** `start_resize`: pick the next size, set up an empty shadow and migrate the first batch. */
    method StartResize(buckets: nat, batch0: u32)
      requires Valid()
      requires resizePosition > 0 || buckets < main.nBuckets || main.nBuckets < buckets <= TableSize(28)
      modifies Repr()
      ensures fresh(Repr() - old(Repr()))
      ensures main.slots.Contents() == old(main.slots.Contents())
      ensures old(resizePosition) > 0 || buckets < old(main.nBuckets) ==>
                Valid() && resizePosition == old(resizePosition) && main == old(main) && shadow == old(shadow)
      ensures old(resizePosition) == 0 && old(main.nBuckets) < buckets ==>
                && prime <= 28 && buckets <= TableSize(prime)
                && forall k :: old(prime) <= k < prime ==> TableSize(k) < buckets
      ensures old(resizePosition) == 0 && old(main.nBuckets) < buckets ==> Advanced() && prime > old(prime)
      ensures old(resizePosition) == 0 && old(main.nBuckets) < buckets ==> batch == BatchSize(batch0, old(main.nBuckets))
      ensures resizePosition > 0 ==> main == old(main)
    {
      hide Table.Sized, Table.Represented, Table.Counted, Slots.Inv, Slots.Contents, UpperBound;
      if resizePosition > 0 {
        return;
      }
      if buckets < main.nBuckets {
        return;
      }
      var newPrime := prime;
      main.Bounds();
      while newPrime < 30
        invariant prime <= newPrime <= 28
        invariant forall k :: prime <= k < newPrime ==> TableSize(k) < buckets
      {
        if PRIMES[newPrime] >= buckets {
          break;
        }
        assert newPrime < 28;
        newPrime := newPrime + 1;
      }
      Begin(newPrime, batch0);
    }

    method Begin(newPrime: nat, batch0: u32)
      requires Valid() && resizePosition == 0 && prime < newPrime <= 28
      modifies Repr()
      ensures fresh(Repr() - old(Repr()))
      ensures main.slots.Contents() == old(main.slots.Contents())
      ensures prime == newPrime && Advanced() && batch == BatchSize(batch0, old(main.nBuckets))
      ensures resizePosition > 0 ==> main == old(main)
    {
      hide Map.Filling, Table.Valid, Slots.Contents, TableSize, UpperBound, Map.Separate;
      var newBatch: u32 := if batch0 > 0 then batch0 else main.nBuckets / (256 * 1024);
      if newBatch < 256 {
        newBatch := 256;
      }
      SetUp(newPrime, newBatch);
      Resize(0);
      NextBatch(0, newBatch);
    }

    method SetUp(newPrime: nat, newBatch: u32)
      requires Steady() && prime < newPrime <= 28 && newBatch >= 256
      modifies this
      ensures main == old(main) && resizePosition == 0 && prime == newPrime && batch == newBatch
      ensures shadow != null && fresh({shadow, shadow.p, shadow.b}) && Filling(0, 0)
    {
      hide Table.Valid, Table.Contents, Slots.Inv, Slots.Contents, TableSize, UpperBound;
      SizeOf(newPrime);
      main.Layout();
      prime := newPrime;
      batch := newBatch;
      shadow := new Table<K, V>(newPrime, PRIMES[newPrime]);
      main.Layout();
      shadow.Layout();
      EmptyShadow(main.slots, shadow.slots);
    }

    /** What a put finds when its resize step is over: a table with room, or a migration whose
      * tables are one slot short of what they may have grown by. */
    ghost predicate Advanced()
      reads this, Repr()
    {
      if resizePosition == 0 then Steady() && main.nDirty < main.upperBound
      else
        && 256 <= batch <= resizePosition < main.nBuckets && resizePosition % batch == 0
        && Filling(resizePosition, resizePosition / batch - 1)
    }

    /** At the load bound, and only there, the table gives way to one of the next size. */
    ghost predicate Grows(table: Table<K, V>, oldPrime: nat, buckets: u32, full: bool)
      reads this
    {
      if full then prime == oldPrime + 1 && batch == BatchSize(0, buckets) && (resizePosition == 0 || main == table)
      else main == table && prime == oldPrime && resizePosition == 0
    }

    /** The same resize is one batch further. */
    ghost predicate MovedOn(table: Table<K, V>, position: nat, size: nat)
      reads this
    {
      main == table && batch == size && resizePosition == position + size < main.nBuckets
    }

    /** The same resize, no less far. */
    ghost predicate StillOn(table: Table<K, V>, position: nat, size: nat)
      reads this
    {
      main == table && batch == size && position <= resizePosition < main.nBuckets
    }

    /** The resize step at the head of every put. */
    method Advance()
      requires Valid()
      requires resizePosition > 0 || main.nDirty < main.upperBound || prime < 28
      modifies Repr()
      ensures fresh(Repr() - old(Repr()))
      ensures Advanced() && main.slots.Contents() == old(main.slots.Contents())
      ensures old(resizePosition) > 0 && resizePosition > 0 ==> MovedOn(old(main), old(resizePosition), old(batch))
      ensures old(resizePosition) == 0 ==> Grows(old(main), old(prime), old(main.nBuckets), old(main.nDirty >= main.upperBound))
    {
      hide Map.Filling, Table.Valid, Slots.Contents, TableSize, UpperBound, Map.Separate;
      if resizePosition > 0 {
        ghost var t := resizePosition / batch;
        NextBatch(resizePosition, batch);
        Resize(t);
        BatchIsLarge(t);
      } else if main.nDirty >= main.upperBound {
        NextSize();
        StartResize(main.nBuckets + 1, 0);
      }
    }

    lemma BatchIsLarge(t: nat)
      ensures Filling(resizePosition, t) ==> batch >= 256
    {
    }

    lemma NextSize()
      requires Steady() && prime < 28
      ensures main.nBuckets + 1 <= TableSize(28) && main.nBuckets + 1 <= TableSize(prime + 1)
    {
      hide Table.Sized, Table.Represented, Table.Counted, Slots.Inv, TableSize, UpperBound;
      main.Bounds();
      NextIsLarger(prime);
    }

    /** `put` and `put_copy`: a resize step, then the node into the shadow while there is one, then
      * into the main table. The map gains the node whatever the resize did. */
    method Put(node: Node<K, V>) returns (x: nat, replaced: Option<Node<K, V>>)
      requires Valid()
      requires resizePosition > 0 || main.nDirty < main.upperBound || prime < 28
      modifies Repr()
      ensures Valid() && fresh(Repr() - old(Repr()))
      ensures Contents() == old(Contents())[node.key := node.value]
      ensures replaced == if node.key in old(Contents()) then Some(Node(node.key, old(Contents())[node.key])) else None
      ensures x < main.nBuckets && main.p[x] == node
      ensures old(resizePosition) > 0 && resizePosition > 0 ==> MovedOn(old(main), old(resizePosition), old(batch))
      ensures old(resizePosition) == 0 ==> Grows(old(main), old(prime), old(main.nBuckets), old(main.nDirty >= main.upperBound))
    {
      hide Map.Filling, Table.Valid, Slots.Contents, TableSize, UpperBound, Map.Separate;
      SizeBelowCapacity();
      assert main.size < main.nBuckets;
      Advance();
      if resizePosition > 0 {
        ghost var t := resizePosition / batch - 1;
        BatchesSoFar(resizePosition, batch);
        FillingFrame(resizePosition, t);
        x, replaced := PutInBoth(node, t);
      } else {
        x, replaced := PutSteady(node);
      }
    }

    method PutInBoth(node: Node<K, V>, ghost t: nat) returns (x: nat, replaced: Option<Node<K, V>>)
      requires Filling(resizePosition, t) && 256 * (t + 1) <= resizePosition < main.nBuckets
      modifies main`slots, main`size, main`nDirty, main.p, main.b
      modifies shadow`slots, shadow`size, shadow`nDirty, shadow.p, shadow.b
      ensures Filling(resizePosition, t + 1)
      ensures main.slots.Contents() == old(main.slots.Contents())[node.key := node.value]
      ensures replaced == if node.key in old(main.slots.Contents()) then Some(Node(node.key, old(main.slots.Contents())[node.key])) else None
      ensures x < main.nBuckets && main.p[x] == node
    {
      hide Table.Valid, Table.Sized, Table.Represented, Table.Counted, Table.Contents;
      hide Slots.Inv, Slots.Contents, Migrated, TableSize, UpperBound;
      main.Layout();
      shadow.Layout();
      main.Bounds();
      shadow.Bounds();
      Room(main.index, prime, resizePosition, t + 1);
      assert shadow.nDirty < shadow.upperBound;
      var _, _ := shadow.Put(node);
      main.Layout();
      x, replaced := main.Put(node);
      main.Layout();
      shadow.Layout();
      MigratePut(old(main.slots), old(shadow.slots), main.slots, shadow.slots, resizePosition, x, node);
    }

    method PutSteady(node: Node<K, V>) returns (x: nat, replaced: Option<Node<K, V>>)
      requires Steady() && main.nDirty < main.upperBound
      modifies main`slots, main`size, main`nDirty, main.p, main.b
      ensures Steady()
      ensures main.slots.Contents() == old(main.slots.Contents())[node.key := node.value]
      ensures replaced == if node.key in old(main.slots.Contents()) then Some(Node(node.key, old(main.slots.Contents())[node.key])) else None
      ensures x < main.nBuckets && main.p[x] == node
    {
      hide Table.Valid, Table.Sized, Table.Represented, Table.Counted, Table.Contents;
      hide Slots.Inv, Slots.Contents, TableSize;
      main.Layout();
      main.Bounds();
      x, replaced := main.Put(node);
      main.Layout();
    }

    lemma SizeBelowCapacity()
      requires Valid()
      ensures main.size < main.nBuckets
    {
      CountBelowUsed(main.slots.exist, main.slots.dirty);
    }

    /** `find` and `find_value` look at the main table only. */
    method FindValue(key: Key<K>) returns (r: Option<V>)
      requires Valid()
      ensures r == if key in Contents() then Some(Contents()[key]) else None
    {
      hide Table.Sized, Table.Represented, Table.Counted, Slots.Inv, Slots.Contents, TableSize, UpperBound, Migrated;
      MainIsValid();
      var x := main.Find(key);
      r := if x != main.nBuckets then Some(main.p[x].value) else None;
    }

    lemma MainIsValid()
      requires Valid()
      ensures main.Valid() && main.p.Length == main.nBuckets
      ensures main.Contents() == Contents() == main.slots.Contents()
    {
    }

    /** `del`: free the slot; during a resize delete the key from the shadow too and migrate on. */
    method Delete(x: nat)
      requires Valid() && x <= main.nBuckets
      modifies Repr()
      ensures Valid() && fresh(Repr() - old(Repr()))
      ensures Contents() == if x < old(main.nBuckets) && old(main.slots).exist[x]
                            then old(Contents()) - {old(main.slots).nodes[x].key} else old(Contents())
      ensures old(resizePosition) == 0 ==> resizePosition == 0
      ensures old(resizePosition) > 0 && resizePosition > 0 ==> StillOn(old(main), old(resizePosition), old(batch))
    {
      hide Map.Filling, Table.Valid, Slots.Contents, TableSize, UpperBound, Map.Separate;
      MainIsValid();
      MainLengths();
      if resizePosition > 0 {
        FillingFrame(resizePosition, resizePosition / batch);
        var deleted := DeleteFromBoth(x, resizePosition / batch);
        if deleted {
          StepAfterDelete();
        }
      } else {
        var _ := DeleteSteady(x);
      }
    }

    /** The resize step that ends `del_resize`. */
    method StepAfterDelete()
      requires Valid() && resizePosition > 0
      modifies Repr()
      ensures Valid() && fresh(Repr() - old(Repr()))
      ensures Contents() == old(Contents())
      ensures resizePosition > 0 ==> MovedOn(old(main), old(resizePosition), old(batch))
    {
      hide Map.Filling, Table.Valid, Slots.Contents, TableSize, UpperBound, Map.Separate;
      ghost var t := resizePosition / batch;
      NextBatch(resizePosition, batch);
      FillingFrame(resizePosition, t);
      Resize(t);
      if resizePosition > 0 {
        FillingGrows(resizePosition, t);
      }
    }

    lemma MainLengths()
      requires main.Valid()
      ensures |main.slots.exist| == |main.slots.nodes| == main.nBuckets
    {
    }

    lemma FillingGrows(pos: nat, t: nat)
      requires Filling(pos, t) && t * batch + batch <= pos
      ensures Filling(pos, t + 1)
    {
      hide Table.Valid, Migrated;
      MulMonotone(256, batch, t + 1);
    }

    method DeleteSteady(x: nat) returns (deleted: bool)
      requires Steady() && x <= main.nBuckets
      modifies main`slots, main`size, main`nDirty, main.b
      ensures Steady() && |old(main.slots).exist| == |old(main.slots).nodes| == main.nBuckets
      ensures deleted == (x < main.nBuckets && old(main.slots).exist[x])
      ensures main.slots.Contents() == if deleted then old(main.slots.Contents()) - {old(main.slots).nodes[x].key}
                                       else old(main.slots.Contents())
    {
      hide Table.Valid, Table.Sized, Table.Represented, Table.Counted, Table.Contents;
      hide Slots.Inv, Slots.Contents, TableSize;
      main.Layout();
      deleted := main.Delete(x);
      main.Layout();
    }

    /** The deletes of `del` and `del_resize`, before the resize step. */
    method DeleteFromBoth(x: nat, ghost t: nat) returns (deleted: bool)
      requires Filling(resizePosition, t) && x <= main.nBuckets
      modifies main`slots, main`size, main`nDirty, main.b
      modifies shadow`slots, shadow`size, shadow`nDirty, shadow.b
      ensures Filling(resizePosition, t) && |old(main.slots).exist| == |old(main.slots).nodes| == main.nBuckets
      ensures deleted == (x < main.nBuckets && old(main.slots).exist[x])
      ensures main.slots.Contents() == if deleted then old(main.slots.Contents()) - {old(main.slots).nodes[x].key}
                                       else old(main.slots.Contents())
    {
      hide Table.Valid, Table.Sized, Table.Represented, Table.Counted, Table.Contents;
      hide Slots.Inv, Slots.Contents, Migrated, TableSize;
      main.Layout();
      shadow.Layout();
      deleted := main.Delete(x);
      main.Layout();
      if deleted {
        DeleteFromShadow(main.p[x].key);
        main.Layout();
        MigrateDelete(old(main.slots), old(shadow.slots), main.slots, shadow.slots, resizePosition, x);
      }
    }

    /** The first half of `del_resize`: the key need not have been migrated yet. */
    method DeleteFromShadow(key: Key<K>)
      requires shadow != null && shadow.Valid()
      modifies shadow`slots, shadow`size, shadow`nDirty, shadow.b
      ensures shadow.Valid() && shadow.nDirty <= old(shadow.nDirty) && shadow.slots.Inv()
      ensures shadow.slots.Contents() == old(shadow.slots.Contents()) - {key}
    {
      hide Table.Valid, Table.Sized, Table.Represented, Table.Counted, Table.Contents;
      hide Slots.Inv, Slots.Contents, TableSize;
      shadow.Layout();
      var y := shadow.Find(key);
      shadow.Layout();
      var found := shadow.Delete(y);
      shadow.Layout();
      assert !found ==> shadow.slots.Contents() == old(shadow.slots.Contents()) - {key};
    }

    lemma LargestIsFull()
      requires Valid() && resizePosition == 0 && main.nDirty >= main.upperBound && prime >= 28
      ensures prime == 28 && main.nDirty == main.upperBound
    {
    }

    /** `remove`: look the key up and delete what was found. */
    method Remove(key: Key<K>)
      requires Valid()
      modifies Repr()
      ensures Valid() && fresh(Repr() - old(Repr()))
      ensures Contents() == old(Contents()) - {key}
      ensures old(resizePosition) == 0 ==> resizePosition == 0
      ensures old(resizePosition) > 0 && resizePosition > 0 ==> StillOn(old(main), old(resizePosition), old(batch))
    {
      hide Map.Filling, Table.Valid, Slots.Contents, TableSize, UpperBound, Map.Separate;
      MainIsValid();
      MainLengths();
      var x := main.Find(key);
      if x != main.nBuckets {
        Delete(x);
      }
    }

    /** `size` is the number of keys in the map, at every moment of a resize. */
    lemma SizeIsCardinality()
      requires Valid()
      ensures main.size == |Contents()|
    {
      CountIsCardinality(main.slots);
    }
  }

  // ---------- Whole runs ----------

  datatype Operation<K, V> = PutOp(node: Node<K, V>) | RemoveOp(key: Key<K>)

  /** What a sequence of operations makes of a mathematical map. */
  ghost function Replay<K, V>(m: map<Key<K>, V>, ops: seq<Operation<K, V>>): map<Key<K>, V>
  {
    if ops == [] then m
    else
      var before := Replay(m, ops[..|ops| - 1]);
      match ops[|ops| - 1]
      case PutOp(node) => before[node.key := node.value]
      case RemoveOp(key) => before - {key}
  }

  lemma ReplayNext<K, V>(m: map<Key<K>, V>, ops: seq<Operation<K, V>>, n: nat)
    requires n < |ops|
    ensures Replay(m, ops[..n + 1]) ==
      match ops[n] { case PutOp(node) => Replay(m, ops[..n])[node.key := node.value] case RemoveOp(key) => Replay(m, ops[..n]) - {key} }
    ensures PutCount(ops[..n + 1]) == PutCount(ops[..n]) + (if ops[n].PutOp? then 1 else 0)
  {
    assert ops[..n + 1][..n] == ops[..n];
  }

  /** How many of the operations are puts. */
  function PutCount<K, V>(ops: seq<Operation<K, V>>): (n: nat)
  {
    if ops == [] then 0 else PutCount(ops[..|ops| - 1]) + (if ops[|ops| - 1].PutOp? then 1 else 0)
  }

  /** One operation. */
  method Perform<K(==, 0), V(0)>(h: Map<K, V>, op: Operation<K, V>)
    requires h.Valid()
    requires op.PutOp? ==> h.resizePosition > 0 || h.main.nDirty < h.main.upperBound || h.prime < 28
    modifies h.Repr()
    ensures h.Valid() && fresh(h.Repr() - old(h.Repr()))
    ensures h.Contents() == match op { case PutOp(node) => old(h.Contents())[node.key := node.value] case RemoveOp(key) => old(h.Contents()) - {key} }
    ensures old(h.resizePosition) > 0 && h.resizePosition > 0 ==>
      if op.PutOp? then h.MovedOn(old(h.main), old(h.resizePosition), old(h.batch))
      else h.StillOn(old(h.main), old(h.resizePosition), old(h.batch))
  {
    hide Map.Valid, Map.Contents;
    match op
    case PutOp(node) =>
      var _, _ := h.Put(node);
    case RemoveOp(key) =>
      h.Remove(key);
  }

  /** Any interleaving of puts and removes, across any number of resizes, leaves the map that
    * the operations describe. It stops early only where the largest modelled table is full. */
  method Run<K(==, 0), V(0)>(h: Map<K, V>, ops: seq<Operation<K, V>>) returns (done: nat)
    requires h.Valid()
    modifies h.Repr()
    ensures h.Valid() && fresh(h.Repr() - old(h.Repr()))
    ensures done <= |ops| && h.Contents() == Replay(old(h.Contents()), ops[..done])
    ensures done < |ops| ==> h.resizePosition == 0 && h.prime == 28 && h.main.nDirty == h.main.upperBound
  {
    hide Map.Valid, Map.Contents, Replay;
    done := 0;
    ReplayNothing(h.Contents(), ops);
    while done < |ops|
      invariant h.Valid() && fresh(h.Repr() - old(h.Repr()))
      invariant done <= |ops| && h.Contents() == Replay(old(h.Contents()), ops[..done])
    {
      ReplayNext(old(h.Contents()), ops, done);
      if ops[done].PutOp? && h.resizePosition == 0 && h.main.nDirty >= h.main.upperBound && h.prime >= 28 {
        h.LargestIsFull();
        return;
      }
      Perform(h, ops[done]);
      done := done + 1;
    }
  }

  lemma ReplayNothing<K, V>(m: map<Key<K>, V>, ops: seq<Operation<K, V>>)
    ensures Replay(m, ops[..0]) == m && PutCount(ops[..0]) == 0
  {
  }

  /** A resize that has come to some position is over before one put more than the batches it lacks,
    * whatever removes go on between the puts; until then every operation does what it describes. */
  method FinishResize<K(==, 0), V(0)>(h: Map<K, V>, ops: seq<Operation<K, V>>) returns (done: nat)
    requires h.Valid() && h.resizePosition > 0
    modifies h.Repr()
    ensures h.Valid() && fresh(h.Repr() - old(h.Repr()))
    ensures done <= |ops| && h.Contents() == Replay(old(h.Contents()), ops[..done])
    ensures old(h.batch) > 0
    ensures PutCount(ops[..done]) <= (old(h.main.nBuckets) - old(h.resizePosition)) / old(h.batch) + 1
    ensures h.resizePosition == 0 || done == |ops|
    ensures PutCount(ops) > (old(h.main.nBuckets) - old(h.resizePosition)) / old(h.batch) ==> h.resizePosition == 0
  {
    hide Map.Valid, Map.Contents, Replay, PutCount;
    ghost var left, size := h.main.nBuckets - h.resizePosition, h.batch;
    Resizing(h);
    done := 0;
    ReplayNothing(h.Contents(), ops);
    ghost var puts := 0;
    while done < |ops| && h.resizePosition > 0
      invariant h.Valid() && fresh(h.Repr() - old(h.Repr()))
      invariant done <= |ops| && h.Contents() == Replay(old(h.Contents()), ops[..done])
      invariant puts == PutCount(ops[..done]) <= left / size + 1
      invariant h.resizePosition > 0 ==>
        h.main == old(h.main) && h.batch == size && old(h.resizePosition) + puts * size <= h.resizePosition < h.main.nBuckets
    {
      ReplayNext(old(h.Contents()), ops, done);
      BatchesLeft(left, size, puts);
      Perform(h, ops[done]);
      puts := puts + if ops[done].PutOp? then 1 else 0;
      done := done + 1;
    }
    if h.resizePosition > 0 {
      BatchesLeft(left, size, puts);
      assert ops[..|ops|] == ops;
    }
  }

  lemma Resizing<K(0), V(0)>(h: Map<K, V>)
    requires h.Valid() && h.resizePosition > 0
    ensures h.batch > 0 && h.resizePosition < h.main.nBuckets
  {
  }

  lemma BatchesLeft(left: nat, size: nat, puts: nat)
    requires size > 0 && 0 <= puts * size < left
    ensures puts <= left / size && (puts + 1) * size == puts * size + size
  {
    if puts > left / size {
      MulMonotone(left / size + 1, puts, size);
    }
  }
}
