/** Inserting a batch of tuples: one MessagePack array, cut into the ranges of its elements. */
module StorageBatch {
  import opened Words
  import opened Bytes
  import opened MsgPack
  import opened MsgPackScan
  import opened MsgPackCodec

  /** What the box answers: whether it takes a tuple after those the transaction has inserted, and
    * whether the transaction commits. */
  datatype Box = Box(insert: (seq<seq<u8>>, seq<u8>) -> bool, commit: bool)

  /** The ranges of a buffer that lie next to each other from `at` on and hold these values. */
  ghost predicate Slices(b: seq<u8>, at: nat, ranges: seq<(nat, nat)>, items: seq<Value>, end: nat)
    decreases |ranges|
  {
    if ranges == [] then items == [] && at == end
    else
      && items != [] && at == ranges[0].0 < ranges[0].1 <= |b|
      && b[ranges[0].0..ranges[0].1] == Written(items[0])
      && Slices(b, ranges[0].1, ranges[1..], items[1..], end)
  }

  /** One more range behind the others. */
  lemma {:induction false} SlicesSnoc(b: seq<u8>, at: nat, ranges: seq<(nat, nat)>, items: seq<Value>, end: nat, v: Value)
    requires Slices(b, at, ranges, items, end) && StartsWith(b, end, Written(v)) && Written(v) != []
    ensures Slices(b, at, ranges + [(end, end + |Written(v)|)], items + [v], end + |Written(v)|)
    decreases |ranges|
  {
    hide Written;
    var range := (end, end + |Written(v)|);
    if ranges == [] {
      assert ranges + [range] == [range] && items + [v] == [v];
      assert Slices(b, range.1, [], [], range.1);
    } else {
      SlicesSnoc(b, ranges[0].1, ranges[1..], items[1..], end, v);
      assert (ranges + [range])[1..] == ranges[1..] + [range] && (items + [v])[1..] == items[1..] + [v];
    }
  }

  /** The ranges together are all the bytes of the values, in order. */
  lemma {:induction false} SlicesCover(ok: ExtCheck, b: seq<u8>, at: nat, ranges: seq<(nat, nat)>, items: seq<Value>, end: nat)
    requires Slices(b, at, ranges, items, end) && at <= |b|
    ensures |ranges| == |items| && at <= end <= |b| && b[at..end] == AllWritten(items)
    ensures forall i :: 0 < i < |ranges| ==> ranges[i - 1].1 == ranges[i].0
    ensures ranges != [] ==> ranges[0].0 == at && ranges[|ranges| - 1].1 == end
    decreases |ranges|
  {
    hide Written;
    if ranges != [] {
      SlicesCover(ok, b, ranges[0].1, ranges[1..], items[1..], end);
      assert b[at..end] == b[at..ranges[0].1] + b[ranges[0].1..end];
      forall i | 0 < i < |ranges| ensures ranges[i - 1].1 == ranges[i].0 {
        if i > 1 {
          assert ranges[1..][i - 1 - 1].1 == ranges[1..][i - 1].0;
        }
      }
    }
  }

  ghost function Tuples(items: seq<Value>): (s: seq<seq<u8>>)
  {
    if items == [] then [] else Tuples(items[..|items| - 1]) + [Written(items[|items| - 1])]
  }

  /** Whether the box takes element `i` after those before it. */
  ghost predicate TakenAt(box: Box, items: seq<Value>, i: nat)
    requires i < |items|
  {
    box.insert(Tuples(items[..i]), Written(items[i]))
  }

  ghost predicate Taken(box: Box, items: seq<Value>)
  {
    forall i :: 0 <= i < |items| ==> TakenAt(box, items, i)
  }

  /** One more element, taken after the others. */
  lemma TakenNext(box: Box, items: seq<Value>, i: nat)
    requires i < |items| && Taken(box, items[..i])
    ensures TakenAt(box, items, i) <==> box.insert(Tuples(items[..i]), Written(items[i]))
    ensures Taken(box, items[..i + 1]) <==> TakenAt(box, items, i)
    ensures Taken(box, items) ==> TakenAt(box, items, i)
    ensures Tuples(items[..i + 1]) == Tuples(items[..i]) + [Written(items[i])]
  {
    hide Written, Taken;
    assert items[..i + 1][..i] == items[..i];
    TakenPrefix(box, items, i);
    TakenPrefix(box, items, i + 1);
    TakenPrefix(box, items, |items|);
    assert items[..|items|] == items;
  }

  lemma TakenPrefix(box: Box, items: seq<Value>, n: nat)
    requires n <= |items|
    ensures Taken(box, items[..n]) <==> forall j :: 0 <= j < n ==> TakenAt(box, items, j)
  {
    hide Written, TakenAt;
    forall j | 0 <= j < n ensures TakenAt(box, items[..n], j) <==> TakenAt(box, items, j) {
      TakenInPrefix(box, items, n, j);
    }
  }

  lemma TakenInPrefix(box: Box, items: seq<Value>, n: nat, j: nat)
    requires j < n <= |items|
    ensures TakenAt(box, items[..n], j) <==> TakenAt(box, items, j)
  {
    hide Written, Tuples;
    assert items[..n][..j] == items[..j];
  }

  /** The payload of a batch: an array at the start of the buffer. */
  ghost predicate Batch(ok: ExtCheck, b: seq<u8>, v: Value)
  {
    ValueAt(ok, b, 0, v) && v.Group? && (0x90 <= v.first <= 0x9f || 0xdc <= v.first <= 0xdd)
  }

  lemma BatchHeader(ok: ExtCheck, b: seq<u8>, v: Value)
    requires Batch(ok, b, v)
    ensures HeaderAt(b, 0) && (0x90 <= b[0] <= 0x9f || 0xdc <= b[0] <= 0xdd)
    ensures DecodeArray(b, 0) == Read(|v.items|, |Opening(v)|)
    ensures StartsWith(b, |Opening(v)|, AllWritten(v.items)) && AllWellFormed(ok, v.items)
    ensures |Written(v)| == |Opening(v)| + |AllWritten(v.items)|
  {
    hide StartsWith, AllWritten, AllWellFormed, Place, Load;
    WrittenParts(v);
    StartsWithBoth(b, 0, Opening(v), AllWritten(v.items));
    HeadOfValue(ok, b, 0, v);
    ItemsWellFormed(ok, v);
    FirstByte(b, v);
  }

  lemma FirstByte(b: seq<u8>, v: Value)
    requires StartsWith(b, 0, Opening(v)) && v.Group?
    ensures b != [] && b[0] == v.first
  {
    assert Opening(v)[0] == v.first;
  }

  /** The next element, and what is left behind it. */
  lemma NextElement(ok: ExtCheck, b: seq<u8>, at: nat, items: seq<Value>, i: nat)
    requires i < |items| && AllWellFormed(ok, items[i..]) && StartsWith(b, at, AllWritten(items[i..]))
    ensures ValueAt(ok, b, at, items[i]) && AllWellFormed(ok, items[i + 1..]) && Written(items[i]) != []
    ensures StartsWith(b, at + |Written(items[i])|, AllWritten(items[i + 1..]))
    ensures |AllWritten(items[i..])| == |Written(items[i])| + |AllWritten(items[i + 1..])|
  {
    hide Written, WellFormed, StartsWith, AllWritten, AllWellFormed;
    assert items[i..] == [items[i]] + items[i + 1..];
    AllCons(ok, items[i], items[i + 1..]);
    WrittenParts(items[i]);
    StartsWithBoth(b, at, Written(items[i]), AllWritten(items[i + 1..]));
  }

  /** `storage_space_insert_many`: on success the port holds every element's range; it fails when
    * the box refuses an element, at the first one refused, or does not commit. */
  method InsertMany(box: Box, b: seq<u8>, ghost ok: ExtCheck, ghost v: Value)
    returns (port: Option<seq<(nat, nat)>>, attempted: seq<(nat, nat)>)
    requires |b| < ADDRESSABLE && Batch(ok, b, v)
    ensures port.Some? <==> Taken(box, v.items) && box.commit
    ensures port.Some? ==> port.value == attempted && Slices(b, |Opening(v)|, attempted, v.items, |Written(v)|)
    ensures |attempted| <= |v.items|
    ensures Slices(b, |Opening(v)|, attempted, v.items[..|attempted|], if attempted == [] then |Opening(v)| else attempted[|attempted| - 1].1)
    ensures |attempted| < |v.items| ==> attempted != [] && !TakenAt(box, v.items, |attempted| - 1)
  {
    hide Written, WellFormed, StartsWith, AllWritten, AllWellFormed, Opening, DecodeArray, Tuples, Taken, TakenAt;
    BatchHeader(ok, b, v);
    ghost var items := v.items;
    var header := DecodeArray(b, 0);
    var count: nat, next: nat, i: nat := header.value, header.next, 0;
    ghost var from := next;
    attempted := [];
    var inserted: seq<seq<u8>> := [];
    AllItems(box, items);
    while count > 0
      invariant count + i == |items| && |attempted| == i
      invariant AllWellFormed(ok, items[i..]) && StartsWith(b, next, AllWritten(items[i..]))
      invariant next + |AllWritten(items[i..])| == |Written(v)|
      invariant Slices(b, from, attempted, items[..i], next)
      invariant attempted != [] ==> attempted[i - 1].1 == next
      invariant Taken(box, items[..i]) && inserted == Tuples(items[..i])
    {
      count := count - 1;
      NextElement(ok, b, next, items, i);
      var tuple := next;
      next := Skip(b, tuple, ok, items[i]);
      SlicesSnoc(b, from, attempted, items[..i], tuple, items[i]);
      assert items[..i] + [items[i]] == items[..i + 1];
      attempted := attempted + [(tuple, next)];
      i := i + 1;
      SliceOfValue(ok, b, tuple, items[i - 1]);
      TakenNext(box, items, i - 1);
      if !box.insert(inserted, b[tuple..next]) {
        port := None;
        return;
      }
      inserted := inserted + [b[tuple..next]];
    }
    NothingMore(items, i);
    port := if box.commit then Some(attempted) else None;
  }

  lemma AllItems(box: Box, items: seq<Value>)
    ensures items[0..] == items && items[..0] == []
    ensures Taken(box, items[..0]) && Tuples(items[..0]) == []
  {
  }

  lemma NothingMore(items: seq<Value>, i: nat)
    requires i == |items|
    ensures items[..i] == items && |AllWritten(items[i..])| == 0
  {
  }

  lemma SliceOfValue(ok: ExtCheck, b: seq<u8>, at: nat, v: Value)
    requires ValueAt(ok, b, at, v)
    ensures at + |Written(v)| <= |b| && b[at..at + |Written(v)|] == Written(v)
  {
  }
}
