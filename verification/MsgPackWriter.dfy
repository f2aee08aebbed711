/** The safe encoders: they keep counting when the room is used up, and write nothing any more. What
  * they count are the 32-bit sizes, which are the lengths only of items that are `SizeExact`. */
module MsgPackWriter {
  import opened Words
  import opened Blocks
  import opened MsgPackCodec

  ghost predicate AllEncodable(items: seq<Item>)
  {
    forall i :: 0 <= i < |items| ==> Encodable(items[i])
  }

  function TotalSize(items: seq<Item>): (n: nat)
    requires AllEncodable(items)
  {
    if items == [] then 0 else TotalSize(items[..|items| - 1]) + SizeOf(items[|items| - 1])
  }

  function AllEncoded(items: seq<Item>): seq<u8>
    requires AllEncodable(items)
  {
    if items == [] then [] else AllEncoded(items[..|items| - 1]) + Encoded(items[|items| - 1])
  }

  lemma {:induction false} TotalMonotone(items: seq<Item>, n: nat)
    requires AllEncodable(items) && n <= |items|
    ensures TotalSize(items[..n]) <= TotalSize(items)
    decreases |items|
  {
    if n < |items| {
      assert items[..|items| - 1][..n] == items[..n];
      TotalMonotone(items[..|items| - 1], n);
    } else {
      assert items[..n] == items;
    }
  }

  lemma Snoc(items: seq<Item>, x: Item)
    requires AllEncodable(items) && Encodable(x)
    ensures AllEncodable(items + [x])
    ensures TotalSize(items + [x]) == TotalSize(items) + SizeOf(x)
    ensures AllEncoded(items + [x]) == AllEncoded(items) + Encoded(x)
  {
    assert (items + [x])[..|items|] == items;
  }

  /** All that is written for the prefixes whose sizes fit in the room is inside the memory. */
  ghost predicate InMemory(items: seq<Item>, room: int, space: int)
    requires AllEncodable(items)
  {
    forall n :: 0 <= n <= |items| && TotalSize(items[..n]) <= room ==> |AllEncoded(items[..n])| <= space
  }

  /** Items that are counted as long as they are. */
  predicate AllExact(items: seq<Item>)
  {
    forall i :: 0 <= i < |items| ==> SizeExact(items[i])
  }

  /** What is counted is what is written exactly when every item's size is exact; else it is less. */
  lemma {:induction false} TotalIsLength(items: seq<Item>)
    requires AllEncodable(items)
    ensures TotalSize(items) <= |AllEncoded(items)|
    ensures TotalSize(items) == |AllEncoded(items)| <==> AllExact(items)
  {
    hide SizeOf, Encoded, Encodable, SizeExact;
    if items != [] {
      var n := |items| - 1;
      TotalIsLength(items[..n]);
      SizeIsLength(items[n]);
      assert AllExact(items) <==> AllExact(items[..n]) && SizeExact(items[n]);
    }
  }

  /** The room is kept to, whatever it is, if and only if every item's size is exact. */
  lemma RoomKeptIff(items: seq<Item>)
    requires AllEncodable(items)
    ensures AllExact(items) <==> forall room: nat :: InMemory(items, room, room)
  {
    hide SizeOf, Encoded, Encodable, SizeExact, TotalSize, AllEncoded;
    if AllExact(items) {
      forall room: nat ensures InMemory(items, room, room) {
        forall n | 0 <= n <= |items| && TotalSize(items[..n]) <= room ensures |AllEncoded(items[..n])| <= room {
          TotalIsLength(items[..n]);
        }
      }
    } else {
      TotalIsLength(items);
      WholeFit(items);
      assert !InMemory(items, TotalSize(items), TotalSize(items));
    }
  }

  /** The longest string is written to a room of four bytes, and the size left is zero. */
  lemma OverrunCounterexample(body: seq<u8>)
    requires |body| == 0xFFFF_FFFF
    ensures var items := [Str(body)];
      AllEncodable(items) && LongestFit(items, 4, 1) && TotalSize(items) == 4 && |AllEncoded(items[..1])| == 0x1_0000_0004
  {
    hide SizeOf, Encoded;
    SizeWrapsCounterexample(body);
    Snoc([], Str(body));
    assert [] + [Str(body)] == [Str(body)] == [Str(body)][..1];
  }

  /** The first `n` items are the longest prefix that fits in the room. */
  ghost predicate LongestFit(items: seq<Item>, room: int, n: nat)
    requires AllEncodable(items)
  {
    && n <= |items|
    && (n > 0 ==> TotalSize(items[..n]) <= room)
    && (n < |items| ==> TotalSize(items[..n + 1]) > room)
  }

  lemma LongestFitSnoc(items: seq<Item>, room: nat, n: nat, x: Item)
    requires AllEncodable(items) && Encodable(x) && LongestFit(items, room, n)
    ensures AllEncodable(items + [x])
    ensures TotalSize(items + [x]) <= room ==> n == |items| && LongestFit(items + [x], room, n + 1)
    ensures TotalSize(items + [x]) > room ==> LongestFit(items + [x], room, n)
  {
    hide TotalSize, SizeOf, Encodable, LongestFit, AllEncodable;
    Snoc(items, x);
    FitBound(items, room, n);
    if n < |items| {
      StillTooLong(items, room, n, x);
    } else {
      NextMayFit(items, room, x);
    }
  }

  lemma SnocPrefix(items: seq<Item>, x: Item, n: nat)
    requires n <= |items|
    ensures (items + [x])[..n] == items[..n]
  {
  }

  lemma FitBound(items: seq<Item>, room: int, n: nat)
    requires AllEncodable(items) && LongestFit(items, room, n)
    ensures n <= |items| && (n == |items| ==> n == 0 || TotalSize(items) <= room)
    ensures n < |items| ==> TotalSize(items[..n + 1]) > room
  {
    assert items[..|items|] == items;
  }

  /** A prefix that is cut short stays so. */
  lemma StillTooLong(items: seq<Item>, room: nat, n: nat, x: Item)
    requires AllEncodable(items) && Encodable(x) && AllEncodable(items + [x])
    requires LongestFit(items, room, n) && n < |items|
    ensures LongestFit(items + [x], room, n) && TotalSize(items + [x]) > room
  {
    hide TotalSize, SizeOf, Encodable;
    var longer := items + [x];
    assert longer[..n] == items[..n] && longer[..n + 1] == items[..n + 1];
    TotalMonotone(longer, n + 1);
  }

  /** When everything fits so far, the next item decides. */
  lemma NextMayFit(items: seq<Item>, room: nat, x: Item)
    requires AllEncodable(items) && Encodable(x) && AllEncodable(items + [x])
    requires LongestFit(items, room, |items|)
    ensures LongestFit(items + [x], room, if TotalSize(items + [x]) <= room then |items| + 1 else |items|)
  {
    hide TotalSize, SizeOf, Encodable;
    var longer := items + [x];
    assert longer[..|items|] == items[..|items|] && longer[..|items| + 1] == longer;
  }

  /** A cursor into a buffer and the room that is left, which may go below zero. */
  class Writer {
    const data: array<u8>
    const start: nat
    const room: nat
    var at: nat
    var dataSize: int
    ghost var items: seq<Item>
    ghost var fit: nat
    ghost const original: seq<u8>

    ghost predicate Valid()
      reads this, data
    {
      && start <= at <= data.Length == |original|
      && AllEncodable(items) && LongestFit(items, room, fit)
      && dataSize == room - TotalSize(items)
      && data[start..at] == AllEncoded(items[..fit])
      && data[..start] == original[..start] && data[at..] == original[at..]
    }

    constructor (data: array<u8>, start: nat, room: nat)
      requires start <= data.Length
      ensures Valid() && items == [] && this.data == data && this.start == start && this.room == room
      ensures at == start && original == data[..]
    {
      this.data, this.start, this.room := data, start, room;
      at, dataSize := start, room;
      items, fit := [], 0;
      original := data[..];
    }

    /** `mp_encode_*_safe` with a size to count down: it writes when that leaves nothing negative. */
    method EncodeSafe(x: Item)
      requires Valid() && Encodable(x)
      requires SizeOf(x) <= dataSize ==> at + |Encoded(x)| <= data.Length
      modifies this`at, this`dataSize, this`items, this`fit, data
      ensures Valid() && items == old(items) + [x] && dataSize == old(dataSize) - SizeOf(x)
      ensures at == old(at) + if SizeOf(x) <= old(dataSize) then |Encoded(x)| else 0
    {
      hide SizeOf, Encoded, TotalSize, AllEncoded, Encodable, LongestFit, AllEncodable;
      ghost var longer := items + [x];
      Snoc(items, x);
      LongestFitSnoc(items, room, fit, x);
      FitBound(items, room, fit);
      SnocPrefix(items, x, fit);
      dataSize := dataSize - SizeOf(x);
      if dataSize < 0 {
        items := longer;
        return;
      }
      WholeFit(items);
      WholeFit(longer);
      Put(Encoded(x));
      items, fit := longer, fit + 1;
    }

    /** The encoding goes to the cursor, and the cursor behind it. */
    method Put(bytes: seq<u8>)
      requires start <= at && at + |bytes| <= data.Length
      modifies this`at, data
      ensures at == old(at) + |bytes| && data[start..at] == old(data[start..at]) + bytes
      ensures data[..start] == old(data[..start]) && data[at..] == old(data[at..])[|bytes|..]
    {
      ghost var before := data[..];
      Store(data, at, bytes);
      at := at + |bytes|;
      assert data[..at - |bytes|] == before[..at - |bytes|];
      assert data[at..] == before[at..];
      assert data[start..at - |bytes|] == before[start..at - |bytes|];
      assert data[..start] == before[..start];
    }
  }

  lemma WholeFit(items: seq<Item>)
    ensures items[..|items|] == items
  {
  }

  /** Any sequence of safe calls: the size goes down by every item's size, and what is written is
    * the longest prefix whose sizes fit, nothing around it being touched. When the sizes are exact it
    * is as long as they say, and inside the room. */
  method EncodeAll(calls: seq<Item>, data: array<u8>, start: nat, room: nat) returns (dataSize: int, at: nat, ghost fit: nat)
    requires AllEncodable(calls) && start + room <= data.Length
    requires InMemory(calls, room, data.Length - start)
    modifies data
    ensures dataSize == room - TotalSize(calls)
    ensures LongestFit(calls, room, fit)
    ensures start <= at <= data.Length && data[start..at] == AllEncoded(calls[..fit])
    ensures AllExact(calls[..fit]) ==> at == start + TotalSize(calls[..fit]) <= start + room
    ensures data[..start] == old(data[..start]) && data[at..] == old(data[at..])
    ensures dataSize >= 0 <==> TotalSize(calls) <= room
  {
    hide SizeOf, Encoded, TotalSize, AllEncoded, Encodable, LongestFit, InMemory, AllExact;
    var w := new Writer(data, start, room);
    assert calls[..0] == [];
    for i := 0 to |calls|
      invariant w.Valid() && fresh(w) && w.items == calls[..i]
      invariant w.data == data && w.start == start && w.room == room && w.original == old(data[..])
    {
      assert calls[..i + 1] == calls[..i] + [calls[i]];
      Snoc(calls[..i], calls[i]);
      if w.dataSize >= 0 {
        AllFit(calls[..i], room, w.fit);
      }
      MemoryAt(calls, room, data.Length - start, i + 1);
      w.EncodeSafe(calls[i]);
    }
    WholeFit(calls);
    dataSize, at, fit := w.dataSize, w.at, w.fit;
    ExactFit(calls, room, fit);
  }

  lemma AllFit(items: seq<Item>, room: nat, n: nat)
    requires AllEncodable(items) && LongestFit(items, room, n) && TotalSize(items) <= room
    ensures n == |items| && items[..n] == items
  {
    hide SizeOf, TotalSize;
    if n < |items| {
      TotalMonotone(items, n + 1);
    }
  }

  lemma MemoryAt(items: seq<Item>, room: nat, space: int, n: nat)
    requires AllEncodable(items) && InMemory(items, room, space) && n <= |items|
    ensures TotalSize(items[..n]) <= room ==> |AllEncoded(items[..n])| <= space
  {
  }

  lemma ExactFit(items: seq<Item>, room: nat, n: nat)
    requires AllEncodable(items) && LongestFit(items, room, n)
    ensures AllExact(items[..n]) ==> |AllEncoded(items[..n])| == TotalSize(items[..n]) <= room
  {
    hide SizeOf, Encoded, AllExact;
    TotalIsLength(items[..n]);
    assert n == 0 ==> items[..n] == [];
  }
}
