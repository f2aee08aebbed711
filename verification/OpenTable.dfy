/** What a double-hashed table with tombstones means: its slots as plain sequences, the
  * invariant that makes lookups sound, and the map it represents.
  */
module OpenTable {
  import opened Words
  import opened NumberTheory
  import opened Probing

  /** A key and the hash the caller's macros compute from it: equal keys have equal hashes. */
  datatype Key<K> = Key(id: K, hash: u32)

  datatype Node<K, V> = Node(key: Key<K>, value: V)

  /** One node, one "exist" bit and one "dirty" bit a slot. */
  datatype Slots<K, V> = Slots(nodes: seq<Node<K, V>>, exist: seq<bool>, dirty: seq<bool>)
  {
    function Size(): nat { |nodes| }

    ghost predicate Shaped()
    {
      && |exist| == |nodes| && |dirty| == |nodes|
      && 2 < |nodes| <= W32 / 2 && Prime(|nodes|)
    }

    /** How many slots cannot be taken without growing `n_dirty`. */
    ghost function UsedCount(): (c: nat)
      requires |exist| == |nodes| && |dirty| == |nodes|
      ensures c <= |nodes|
    {
      CountEither(exist, dirty)
    }

    /** Every slot probed for hash `h` before slot `i` is marked as part of a chain. */
    ghost predicate Chained(h: nat, i: nat)
      requires Shaped() && i < |nodes|
    {
      forall j :: 0 <= j < ProbeIndex(h, |nodes|, i) ==> dirty[Probe(h, |nodes|, j)]
    }

    /** Every stored node can be reached, and no key is stored twice. */
    ghost predicate Inv()
    {
      && Shaped()
      && (forall i :: 0 <= i < |nodes| && exist[i] ==> Chained(nodes[i].key.hash, i))
      && Distinct()
    }

    ghost predicate Distinct()
      requires |exist| == |nodes|
    {
      forall i, j :: 0 <= i < |nodes| && 0 <= j < |nodes| && exist[i] && exist[j] && nodes[i].key == nodes[j].key ==> i == j
    }

    /** The map the slots stand for. */
    ghost function Contents(): map<Key<K>, V>
    {
      if |exist| == |nodes| && Distinct()
      then map i | 0 <= i < |nodes| && exist[i] :: nodes[i].key := nodes[i].value
      else map[]
    }

    ghost predicate Matches(i: nat, key: Key<K>)
      requires |exist| == |nodes| && i < |nodes|
    {
      exist[i] && nodes[i].key == key
    }
  }

  // ---------- Counting slots ----------

  function Count(s: seq<bool>): (c: nat)
    ensures c <= |s|
  {
    if s == [] then 0 else Count(s[..|s| - 1]) + (if s[|s| - 1] then 1 else 0)
  }

  lemma {:induction false} CountUpdate(s: seq<bool>, i: nat, v: bool)
    requires i < |s|
    ensures Count(s[i := v]) == Count(s) - (if s[i] then 1 else 0) + (if v then 1 else 0)
  {
    var last := |s| - 1;
    if i == last {
      assert s[i := v][..last] == s[..last];
    } else {
      CountUpdate(s[..last], i, v);
      assert s[i := v][..last] == s[..last][i := v];
    }
  }

  /** At how many places one of the two is set. */
  function CountEither(s: seq<bool>, t: seq<bool>): (c: nat)
    requires |s| == |t|
    ensures c <= |s|
  {
    if s == [] then 0
    else
      var last := |s| - 1;
      CountEither(s[..last], t[..last]) + (if s[last] || t[last] then 1 else 0)
  }

  lemma {:induction false} CountEitherUpdate(s: seq<bool>, t: seq<bool>, i: nat, v: bool, w: bool)
    requires |s| == |t| && i < |s|
    ensures CountEither(s[i := v], t[i := w])
         == CountEither(s, t) - (if s[i] || t[i] then 1 else 0) + (if v || w then 1 else 0)
  {
    var last := |s| - 1;
    if i == last {
      assert s[i := v][..last] == s[..last] && t[i := w][..last] == t[..last];
    } else {
      CountEitherUpdate(s[..last], t[..last], i, v, w);
      assert s[i := v][..last] == s[..last][i := v] && t[i := w][..last] == t[..last][i := w];
    }
  }

  lemma {:induction false} CleanSlot(s: seq<bool>, t: seq<bool>) returns (i: nat)
    requires |s| == |t| && CountEither(s, t) < |s|
    ensures i < |s| && !s[i] && !t[i]
  {
    i := |s| - 1;
    if s[i] || t[i] {
      i := CleanSlot(s[..i], t[..i]);
    }
  }

  lemma {:induction false} CountNone(s: seq<bool>, t: seq<bool>)
    requires |s| == |t| && forall i :: 0 <= i < |s| ==> !s[i] && !t[i]
    ensures Count(s) == 0 && CountEither(s, t) == 0
  {
    if s != [] {
      CountNone(s[..|s| - 1], t[..|s| - 1]);
    }
  }

  /** The keys stored in the first `m` slots. */
  ghost function KeysUpto<K, V>(t: Slots<K, V>, m: nat): set<Key<K>>
    requires |t.exist| == |t.nodes| && m <= |t.nodes|
  {
    if m == 0 then {} else KeysUpto(t, m - 1) + (if t.exist[m - 1] then {t.nodes[m - 1].key} else {})
  }

  lemma {:induction false} KeysUptoMember<K, V>(t: Slots<K, V>, m: nat, key: Key<K>)
    requires |t.exist| == |t.nodes| && m <= |t.nodes|
    ensures key in KeysUpto(t, m) <==> exists i :: 0 <= i < m && t.exist[i] && t.nodes[i].key == key
  {
    if m > 0 {
      KeysUptoMember(t, m - 1, key);
    }
  }

  lemma {:induction false} KeysUptoCount<K, V>(t: Slots<K, V>, m: nat)
    requires |t.exist| == |t.nodes| && m <= |t.nodes| && t.Distinct()
    ensures Count(t.exist[..m]) == |KeysUpto(t, m)|
  {
    if m > 0 {
      KeysUptoCount(t, m - 1);
      assert t.exist[..m][..m - 1] == t.exist[..m - 1];
      KeysUptoMember(t, m - 1, t.nodes[m - 1].key);
    }
  }

  /** The number of "exist" bits is the number of keys. */
  lemma CountIsCardinality<K, V>(t: Slots<K, V>)
    requires |t.exist| == |t.nodes| && t.Distinct()
    ensures Count(t.exist) == |t.Contents()|
  {
    var n := |t.nodes|;
    KeysUptoCount(t, n);
    assert t.exist[..n] == t.exist;
    forall key: Key<K> ensures key in t.Contents().Keys <==> key in KeysUpto(t, n) {
      KeysUptoMember(t, n, key);
    }
    SameMembers(t.Contents().Keys, KeysUpto(t, n));
  }

  lemma SameMembers<T>(a: set<T>, b: set<T>)
    requires forall x :: x in a <==> x in b
    ensures a == b
  {
  }

  /** What a changed "exist" bit does to the two counters. */
  lemma CountersOnExist<K, V>(t: Slots<K, V>, i: nat, v: bool)
    requires |t.exist| == |t.nodes| == |t.dirty| && i < t.Size() && t.exist[i] != v
    ensures var t' := t.(exist := t.exist[i := v]);
            var d := if v then 1 else -1;
            && Count(t'.exist) == Count(t.exist) + d
            && t'.UsedCount() == t.UsedCount() + (if t.dirty[i] then 0 else d)
  {
    CountUpdate(t.exist, i, v);
    CountEitherUpdate(t.exist, t.dirty, i, v, t.dirty[i]);
    assert t.dirty[i := t.dirty[i]] == t.dirty;
  }

  lemma EmptyTable<K, V>(t: Slots<K, V>)
    requires t.Shaped()
    requires forall i :: 0 <= i < t.Size() ==> !t.exist[i] && !t.dirty[i]
    ensures t.Inv() && t.Contents() == map[]
    ensures Count(t.exist) == 0 && t.UsedCount() == 0
  {
    CountNone(t.exist, t.dirty);
  }

  // ---------- Lookup ----------

  /** The probe of a stored key never leaves its chain before it reaches the node. */
  lemma StoredWithin<K, V>(t: Slots<K, V>, i: nat, j: nat)
    requires t.Inv() && i < t.Size() && t.exist[i]
    requires !t.dirty[Probe(t.nodes[i].key.hash, t.Size(), j)]
    ensures ProbeIndex(t.nodes[i].key.hash, t.Size(), i) <= j
  {
    hide Probe;
    assert t.Chained(t.nodes[i].key.hash, i);
  }

  /** A probe that passed dirty slots without a match and stops at a clean one proves absence. */
  lemma AbsentWhenClean<K, V>(t: Slots<K, V>, key: Key<K>, j: nat)
    requires t.Inv() && j < t.Size()
    requires !t.dirty[Probe(key.hash, t.Size(), j)]
    requires forall k :: 0 <= k <= j ==> !t.Matches(Probe(key.hash, t.Size(), k), key)
    ensures key !in t.Contents()
  {
    hide Probe;
    hide Slots.Chained;
    forall i | 0 <= i < t.Size() && t.exist[i] ensures t.nodes[i].key != key {
      if t.nodes[i].key == key {
        StoredWithin(t, i, j);
      }
    }
  }

  lemma PresentAt<K, V>(t: Slots<K, V>, i: nat)
    requires |t.exist| == |t.nodes| && t.Distinct() && i < t.Size() && t.exist[i]
    ensures t.nodes[i].key in t.Contents() && t.Contents()[t.nodes[i].key] == t.nodes[i].value
  {
  }

  /** A probe along dirty slots has not yet used up the table while a clean slot is left. */
  lemma ProbeBounded(n: nat, dirty: seq<bool>, h: nat, j: nat, clean: nat)
    requires Prime(n) && |dirty| == n && clean < n && !dirty[clean]
    requires forall k :: 0 <= k < j ==> dirty[Probe(h, n, k)]
    ensures j <= ProbeIndex(h, n, clean) < n
  {
    hide Probe;
    var c := ProbeIndex(h, n, clean);
    assert Probe(h, n, c) == clean;
    assert !(0 <= c < j);
  }

  // ---------- Walking a chain ----------

  /** Marking more slots dirty breaks no chain. */
  lemma DirtyGrows<K, V>(t: Slots<K, V>, t': Slots<K, V>)
    requires t.Inv()
    requires t'.nodes == t.nodes && t'.exist == t.exist && |t'.dirty| == |t.dirty|
    requires forall i :: 0 <= i < |t.dirty| && t.dirty[i] ==> t'.dirty[i]
    ensures t'.Inv() && t'.Contents() == t.Contents()
  {
    hide Probe;
    forall i | 0 <= i < |t'.nodes| && t'.exist[i] ensures t'.Chained(t'.nodes[i].key.hash, i) {
      assert t.Chained(t.nodes[i].key.hash, i);
    }
  }

  /** A walk for `key` stands at slot `i`, its `j`-th probe, having seen only dirty slots
    * without a match. */
  ghost predicate Walking<K, V>(t: Slots<K, V>, key: Key<K>, i: nat, j: nat)
    ensures Walking(t, key, i, j) ==> t.Inv() && i < t.Size() && j < t.Size()
  {
    && t.Inv() && j < t.Size() && i == Probe(key.hash, t.Size(), j)
    && (forall m :: 0 <= m < j ==> t.dirty[Probe(key.hash, t.Size(), m)])
    && (forall m :: 0 <= m < j ==> !t.Matches(Probe(key.hash, t.Size(), m), key))
  }

  lemma WalkStart<K, V>(t: Slots<K, V>, key: Key<K>)
    requires t.Inv()
    ensures Walking(t, key, key.hash % t.Size(), 0)
  {
    ProbeStart(key.hash, t.Size());
  }

  lemma WalkFound<K, V>(t: Slots<K, V>, key: Key<K>, i: nat)
    requires t.Inv() && i < t.Size() && t.Matches(i, key)
    ensures key in t.Contents() && t.Contents()[key] == t.nodes[i].value
  {
    PresentAt(t, i);
  }

  lemma WalkAbsent<K, V>(t: Slots<K, V>, key: Key<K>, i: nat, j: nat)
    requires Walking(t, key, i, j) && !t.Matches(i, key) && !t.dirty[i]
    ensures key !in t.Contents()
  {
    hide Probe;
    AbsentWhenClean(t, key, j);
  }

  lemma WalkChained<K, V>(t: Slots<K, V>, key: Key<K>, i: nat, j: nat)
    requires Walking(t, key, i, j)
    ensures t.Chained(key.hash, i)
  {
    ProbeIndexOf(key.hash, t.Size(), j);
    hide Probe;
  }

  /** While some slot is neither used nor dirty the walk can go on, and it ends before the table does. */
  lemma WalkNext<K, V>(t: Slots<K, V>, key: Key<K>, i: nat, j: nat)
    requires Walking(t, key, i, j) && !t.Matches(i, key) && t.dirty[i]
    requires t.UsedCount() < t.Size()
    ensures Walking(t, key, NextSlot(i, Increment(key.hash, t.Size()), t.Size()), j + 1)
  {
    var clean := CleanSlot(t.exist, t.dirty);
    ProbeNext(key.hash, t.Size(), j);
    assert t.Shaped();
    hide Probe, NextSlot, Increment;
    hide Slots.Inv, Slots.Matches;
    forall m | 0 <= m < j + 1
      ensures t.dirty[Probe(key.hash, t.Size(), m)] && !t.Matches(Probe(key.hash, t.Size(), m), key)
    {
      assert m < j || m == j;
    }
    ProbeBounded(t.Size(), t.dirty, key.hash, j + 1, clean);
  }

  /** Marking the current slot, which holds another key, lets the walk go on. */
  lemma WalkMark<K, V>(t: Slots<K, V>, key: Key<K>, i: nat, j: nat)
    requires Walking(t, key, i, j) && !t.Matches(i, key) && t.exist[i]
    requires t.UsedCount() < t.Size()
    ensures var t' := t.(dirty := t.dirty[i := true]);
            && Walking(t', key, NextSlot(i, Increment(key.hash, t.Size()), t.Size()), j + 1)
            && t'.Contents() == t.Contents() && t'.UsedCount() == t.UsedCount()
  {
    var t' := t.(dirty := t.dirty[i := true]);
    DirtyGrows(t, t');
    CountEitherUpdate(t.exist, t.dirty, i, true, true);
    assert t.exist[i := true] == t.exist;
    assert Walking(t', key, i, j) by {
      hide Probe, NextSlot, Increment;
      hide Slots.Chained, Slots.Distinct, Slots.Inv;
    }
    hide Walking;
    WalkNext(t', key, i, j);
  }

  // ---------- Updates ----------

  /** The two tables differ in slot `i` only. */
  ghost predicate SameElsewhere<K, V>(t: Slots<K, V>, t': Slots<K, V>, i: nat)
  {
    && |t.exist| == |t.nodes| == |t'.exist| == |t'.nodes| && i < |t.nodes|
    && t.Distinct() && t'.Distinct()
    && forall k :: 0 <= k < |t.nodes| && k != i ==> t'.nodes[k] == t.nodes[k] && t'.exist[k] == t.exist[k]
  }

  lemma EntryElsewhere<K, V>(t: Slots<K, V>, t': Slots<K, V>, i: nat, key: Key<K>)
    requires SameElsewhere(t, t', i) && key in t.Contents() && (t.exist[i] ==> t.nodes[i].key != key)
    ensures key in t'.Contents() && t'.Contents()[key] == t.Contents()[key]
  {
    var k :| 0 <= k < |t.nodes| && t.exist[k] && t.nodes[k].key == key;
    PresentAt(t, k);
    PresentAt(t', k);
  }

  lemma ContentsSet<K, V>(t: Slots<K, V>, t': Slots<K, V>, i: nat)
    requires SameElsewhere(t, t', i) && t'.exist[i] && (t.exist[i] ==> t.nodes[i].key == t'.nodes[i].key)
    ensures t'.Contents() == t.Contents()[t'.nodes[i].key := t'.nodes[i].value]
  {
    hide Slots.Contents, Slots.Distinct;
    var m := t.Contents()[t'.nodes[i].key := t'.nodes[i].value];
    PresentAt(t', i);
    forall key | key in t.Contents() && key != t'.nodes[i].key
      ensures key in t'.Contents() && t'.Contents()[key] == t.Contents()[key]
    {
      EntryElsewhere(t, t', i, key);
    }
    forall key | key in t'.Contents() && key != t'.nodes[i].key ensures key in t.Contents() {
      EntryElsewhere(t', t, i, key);
    }
    assert t'.Contents().Keys == m.Keys;
  }

  lemma ContentsRemoved<K, V>(t: Slots<K, V>, t': Slots<K, V>, i: nat)
    requires SameElsewhere(t, t', i) && t.exist[i] && !t'.exist[i]
    ensures t'.Contents() == t.Contents() - {t.nodes[i].key}
  {
    hide Slots.Contents, Slots.Distinct;
    forall key | key in t.Contents() && key != t.nodes[i].key
      ensures key in t'.Contents() && t'.Contents()[key] == t.Contents()[key]
    {
      EntryElsewhere(t, t', i, key);
    }
    SameElsewhereBack(t, t', i);
    forall key | key in t'.Contents() ensures key in t.Contents() && key != t.nodes[i].key {
      EntryElsewhere(t', t, i, key);
      KeyElsewhere(t, t', i, key);
    }
  }

  lemma SameElsewhereBack<K, V>(t: Slots<K, V>, t': Slots<K, V>, i: nat)
    requires SameElsewhere(t, t', i)
    ensures SameElsewhere(t', t, i)
  {
  }

  lemma KeyElsewhere<K, V>(t: Slots<K, V>, t': Slots<K, V>, i: nat, key: Key<K>)
    requires SameElsewhere(t, t', i) && t.exist[i] && !t'.exist[i] && key in t'.Contents()
    ensures key != t.nodes[i].key
  {
    var k :| 0 <= k < |t.nodes| && t'.exist[k] && t'.nodes[k].key == key;
  }

  /** An existing slot keeps its chain when no dirty bit is lost. */
  lemma ChainsKept<K, V>(t: Slots<K, V>, t': Slots<K, V>, i: nat)
    requires t.Inv() && t'.Shaped() && t'.Size() == t.Size() && t'.dirty == t.dirty && i < t.Size()
    requires forall k :: 0 <= k < t.Size() && k != i && t'.exist[k] ==> t'.nodes[k] == t.nodes[k] && t.exist[k]
    requires t'.exist[i] ==> t.Chained(t'.nodes[i].key.hash, i)
    ensures forall k :: 0 <= k < t.Size() && t'.exist[k] ==> t'.Chained(t'.nodes[k].key.hash, k)
  {
    hide Probe;
    forall k | 0 <= k < t.Size() && t'.exist[k] ensures t'.Chained(t'.nodes[k].key.hash, k) {
      if k != i {
        assert t.Chained(t.nodes[k].key.hash, k);
      }
    }
  }

  lemma Insert<K, V>(t: Slots<K, V>, i: nat, node: Node<K, V>)
    requires t.Inv() && i < t.Size() && !t.exist[i]
    requires node.key !in t.Contents() && t.Chained(node.key.hash, i)
    ensures var t' := t.(nodes := t.nodes[i := node], exist := t.exist[i := true]);
            t'.Inv() && t'.Contents() == t.Contents()[node.key := node.value]
  {
    var t' := t.(nodes := t.nodes[i := node], exist := t.exist[i := true]);
    assert t'.Inv() by {
      ChainsKept(t, t', i);
      forall k | 0 <= k < t.Size() && t.exist[k] ensures t.nodes[k].key != node.key {
        PresentAt(t, k);
      }
    }
    ContentsSet(t, t', i);
  }

  lemma Overwrite<K, V>(t: Slots<K, V>, i: nat, node: Node<K, V>)
    requires t.Inv() && i < t.Size() && t.Matches(i, node.key)
    ensures var t' := t.(nodes := t.nodes[i := node]);
            t'.Inv() && t'.Contents() == t.Contents()[node.key := node.value]
  {
    var t' := t.(nodes := t.nodes[i := node]);
    assert t'.Inv() by {
      assert t.Chained(t.nodes[i].key.hash, i);
      ChainsKept(t, t', i);
    }
    ContentsSet(t, t', i);
  }

  lemma Delete<K, V>(t: Slots<K, V>, i: nat)
    requires t.Inv() && i < t.Size() && t.exist[i]
    ensures var t' := t.(exist := t.exist[i := false]);
            t'.Inv() && t'.Contents() == t.Contents() - {t.nodes[i].key}
  {
    var t' := t.(exist := t.exist[i := false]);
    assert t'.Inv() by {
      ChainsKept(t, t', i);
    }
    ContentsRemoved(t, t', i);
  }

  /** Freeing a slot: invariant, map and counters at once. */
  lemma DeletedEntry<K, V>(t: Slots<K, V>, i: nat)
    requires t.Inv() && i < t.Size() && t.exist[i]
    ensures var t' := t.(exist := t.exist[i := false]);
            && t'.Inv() && t'.Contents() == t.Contents() - {t.nodes[i].key} && t.nodes[i].key in t.Contents()
            && Count(t.exist) > 0 && Count(t'.exist) == Count(t.exist) - 1
            && t'.UsedCount() == t.UsedCount() - (if t.dirty[i] then 0 else 1)
  {
    Delete(t, i);
    PresentAt(t, i);
    CountersOnExist(t, i, false);
  }
}
