/** MessagePack encoders and decoders: what is written, how long it is, and what reading it back
  * gives.
  */
module MsgPackCodec {
  import opened NumberTheory
  import opened Words
  import opened Bytes
  import opened MsgPack

  // ---------- Encoding ----------

  /** What one encoder call writes. */
  datatype Item =
    | UInt(n: u64)
    | Int(i: i64)
    | StrHeader(len: u32)
    | BinHeader(len: u32)
    | ExtHeader(kind: u8, len: u32)
    | ArrayHeader(count: u32)
    | MapHeader(count: u32)
    | Nil
    | Bool(value: bool)
    | Float(bits: u32)    // a floating-point number is stored as the word of its bits
    | Double(bits64: u64)
    | Str(body: seq<u8>)
    | Bin(body: seq<u8>)
    | Ext(kind: u8, body: seq<u8>)
    | Raw(body: seq<u8>)

  /** `mp_encode_int` is for negative numbers, and lengths fit in 32 bits. */
  ghost predicate Encodable(x: Item)
  {
    && (x.Int? ==> x.i < 0)
    && (x.Str? || x.Bin? || x.Ext? || x.Raw? ==> |x.body| < W32)
  }

  /** `mp_encode_uint` */
  function UIntBytes(n: u64): seq<u8>
  {
    if n <= 0x7f then [n]
    else if n <= 0xff then [0xcc] + Digits(n, 1)
    else if n <= 0xffff then [0xcd] + Digits(n, 2)
    else if n <= 0xffff_ffff then [0xce] + Digits(n, 4)
    else [0xcf] + Digits(n, 8)
  }

  /** `mp_encode_int` */
  function IntBytes(i: i64): seq<u8>
    requires i < 0
  {
    if i >= -0x20 then [0x100 + i]
    else if i >= -0x80 then [0xd0] + Digits(0x100 + i, 1)
    else if i >= -0x8000 then [0xd1] + Digits(0x1_0000 + i, 2)
    else if i >= -0x8000_0000 then [0xd2] + Digits(W32 + i, 4)
    else [0xd3] + Digits(W64 + i, 8)
  }

  /** `mp_encode_strl` */
  function StrHeaderBytes(len: u32): seq<u8>
  {
    if len <= 31 then [0xa0 + len]
    else if len <= 0xff then [0xd9] + Digits(len, 1)
    else if len <= 0xffff then [0xda] + Digits(len, 2)
    else [0xdb] + Digits(len, 4)
  }

  /** `mp_encode_binl` */
  function BinHeaderBytes(len: u32): seq<u8>
  {
    if len <= 0xff then [0xc4] + Digits(len, 1)
    else if len <= 0xffff then [0xc5] + Digits(len, 2)
    else [0xc6] + Digits(len, 4)
  }

  /** `mp_ext_hint`: the fixext byte for a length that has one. */
  function FixExtByte(len: u32): Option<u8>
  {
    if len == 1 then Some(0xd4) else if len == 2 then Some(0xd5) else if len == 4 then Some(0xd6)
    else if len == 8 then Some(0xd7) else if len == 16 then Some(0xd8) else None
  }

  /** `mp_encode_extl` */
  function ExtHeaderBytes(kind: u8, len: u32): seq<u8>
  {
    (if FixExtByte(len).Some? then [FixExtByte(len).value]
     else if len <= 0xff then [0xc7] + Digits(len, 1)
     else if len <= 0xffff then [0xc8] + Digits(len, 2)
     else [0xc9] + Digits(len, 4)) + [kind]
  }

  /** `mp_encode_array` */
  function ArrayHeaderBytes(n: u32): seq<u8>
  {
    if n <= 15 then [0x90 + n]
    else if n <= 0xffff then [0xdc] + Digits(n, 2)
    else [0xdd] + Digits(n, 4)
  }

  /** `mp_encode_map` */
  function MapHeaderBytes(n: u32): seq<u8>
  {
    if n <= 15 then [0x80 + n]
    else if n <= 0xffff then [0xde] + Digits(n, 2)
    else [0xdf] + Digits(n, 4)
  }

  function Encoded(x: Item): seq<u8>
    requires Encodable(x)
  {
    match x
    case UInt(n) => UIntBytes(n)
    case Int(i) => IntBytes(i)
    case StrHeader(len) => StrHeaderBytes(len)
    case BinHeader(len) => BinHeaderBytes(len)
    case ExtHeader(kind, len) => ExtHeaderBytes(kind, len)
    case ArrayHeader(n) => ArrayHeaderBytes(n)
    case MapHeader(n) => MapHeaderBytes(n)
    case Nil => [0xc0]
    case Bool(value) => [if value then 0xc3 else 0xc2]
    case Float(bits) => [0xca] + Digits(bits, 4)
    case Double(bits) => [0xcb] + Digits(bits, 8)
    case Str(body) => StrHeaderBytes(|body|) + body
    case Bin(body) => BinHeaderBytes(|body|) + body
    case Ext(kind, body) => ExtHeaderBytes(kind, |body|) + body
    case Raw(body) => body
  }

  // ---------- Sizes ----------

  function SizeOfUInt(n: u64): nat
  {
    if n <= 0x7f then 1 else if n <= 0xff then 2 else if n <= 0xffff then 3 else if n <= 0xffff_ffff then 5 else 9
  }

  /** `mp_sizeof_int`, with the source's own bounds. */
  function SizeOfInt(i: i64): nat
  {
    if i >= -0x20 then 1
    else if i >= -0x80 && i <= 0x7f then 2
    else if i >= -0x8000 && i <= 0xffff then 3
    else if i >= -0x8000_0000 && i <= 0xffff_ffff then 5
    else 9
  }

  function SizeOfStrHeader(len: u32): nat
  {
    if len <= 31 then 1 else if len <= 0xff then 2 else if len <= 0xffff then 3 else 5
  }

  function SizeOfBinHeader(len: u32): nat { if len <= 0xff then 2 else if len <= 0xffff then 3 else 5 }

  function SizeOfExtHeader(len: u32): nat
  {
    if len != 0 && len <= 16 && FixExtByte(len).Some? then 2
    else if len <= 0xff then 3 else if len <= 0xffff then 4 else 6
  }

  function SizeOfCount(n: u32): nat { if n <= 15 then 1 else if n <= 0xffff then 3 else 5 }

  /** The `mp_sizeof` functions return 32 bits, in which the sums of header and contents can wrap. */
  function SizeOf(x: Item): (n: u32)
    requires Encodable(x)
  {
    match x
    case UInt(n) => SizeOfUInt(n)
    case Int(i) => SizeOfInt(i)
    case StrHeader(len) => SizeOfStrHeader(len)
    case BinHeader(len) => SizeOfBinHeader(len)
    case ExtHeader(_, len) => SizeOfExtHeader(len)
    case ArrayHeader(n) => SizeOfCount(n)
    case MapHeader(n) => SizeOfCount(n)
    case Nil => 1
    case Bool(_) => 1
    case Float(_) => 5
    case Double(_) => 9
    case Str(body) => (SizeOfStrHeader(|body|) + |body|) % W32
    case Bin(body) => (SizeOfBinHeader(|body|) + |body|) % W32
    case Ext(_, body) => (SizeOfExtHeader(|body|) + |body|) % W32
    case Raw(body) => |body|
  }

  /** Contents that leave room in 32 bits for the longest header. */
  predicate SizeExact(x: Item)
  {
    && (x.Str? || x.Bin? ==> |x.body| < W32 - 5)
    && (x.Ext? ==> |x.body| < W32 - 6)
  }

  lemma HeaderSizes(len: u32, kind: u8)
    ensures |StrHeaderBytes(len)| == SizeOfStrHeader(len) <= 5 && (len >= W32 - 5 ==> SizeOfStrHeader(len) == 5)
    ensures |BinHeaderBytes(len)| == SizeOfBinHeader(len) <= 5 && (len >= W32 - 5 ==> SizeOfBinHeader(len) == 5)
    ensures |ExtHeaderBytes(kind, len)| == SizeOfExtHeader(len) <= 6 && (len >= W32 - 6 ==> SizeOfExtHeader(len) == 6)
  {
    hide Digits;
  }

  lemma SumWraps(header: nat, len: u32, longest: nat)
    requires header <= longest <= 6 && (len >= W32 - longest ==> header == longest)
    ensures (header + len) % W32 == header + len <==> len < W32 - longest
    ensures (header + len) % W32 <= header + len
  {
  }

  lemma NumberSizes(n: u64, i: i64)
    ensures |UIntBytes(n)| == SizeOfUInt(n)
    ensures i < 0 ==> |IntBytes(i)| == SizeOfInt(i)
  {
    hide Digits;
  }

  lemma CountSizes(n: u32)
    ensures |ArrayHeaderBytes(n)| == |MapHeaderBytes(n)| == SizeOfCount(n)
  {
    hide Digits;
  }

  /** The size functions are the lengths of what the encoders write, modulo 2^32; and the lengths
    * themselves if and only if the contents leave room for the header. */
  lemma SizeIsLength(x: Item)
    requires Encodable(x)
    ensures SizeOf(x) == |Encoded(x)| % W32 <= |Encoded(x)|
    ensures SizeOf(x) == |Encoded(x)| <==> SizeExact(x)
  {
    hide UIntBytes, IntBytes, StrHeaderBytes, BinHeaderBytes, ExtHeaderBytes, ArrayHeaderBytes, MapHeaderBytes;
    hide SizeOfUInt, SizeOfInt, SizeOfCount, SizeOfStrHeader, SizeOfBinHeader, SizeOfExtHeader;
    match x
    case UInt(n) => NumberSizes(n, -1);
    case Int(i) => NumberSizes(0, i);
    case StrHeader(len) => HeaderSizes(len, 0);
    case BinHeader(len) => HeaderSizes(len, 0);
    case ExtHeader(kind, len) => HeaderSizes(len, kind);
    case ArrayHeader(n) => CountSizes(n);
    case MapHeader(n) => CountSizes(n);
    case Str(body) =>
      HeaderSizes(|body|, 0);
      SumWraps(SizeOfStrHeader(|body|), |body|, 5);
    case Bin(body) =>
      HeaderSizes(|body|, 0);
      SumWraps(SizeOfBinHeader(|body|), |body|, 5);
    case Ext(kind, body) =>
      HeaderSizes(|body|, kind);
      SumWraps(SizeOfExtHeader(|body|), |body|, 6);
    case _ =>
  }

  /** The longest string: four bytes are announced and 2^32 + 4 are written. */
  lemma SizeWrapsCounterexample(body: seq<u8>)
    requires |body| == 0xFFFF_FFFF
    ensures SizeOf(Str(body)) == 4 && |Encoded(Str(body))| == 0x1_0000_0004
  {
    hide Digits;
  }

  // ---------- Encodings are values ----------

  /** The encoder calls that write a whole value. */
  predicate IsValue(x: Item)
  {
    x.UInt? || x.Int? || x.Nil? || x.Bool? || x.Float? || x.Double? || x.Str? || x.Bin? || x.Ext?
  }

  function ValueOf(x: Item): Value
    requires Encodable(x) && IsValue(x)
  {
    if x.Str? then Plain(StrHeaderBytes(|x.body|)[0], x.body)
    else if x.Bin? then Plain(BinHeaderBytes(|x.body|)[0], x.body)
    else if x.Ext? then Value.Ext(ExtHeaderBytes(x.kind, |x.body|)[0], x.kind, x.body)
    else Plain(Encoded(x)[0], Encoded(x)[1..])
  }

  /** The formats of the first bytes that encoders use. */
  lemma Formats()
    ensures forall c :: 0 <= c <= 0x7f ==> FormatOf(c) == Fixed(0)
    ensures forall c :: 0x80 <= c <= 0x8f ==> FormatOf(c) == FixGroup(2 * (c - 0x80))
    ensures forall c :: 0x90 <= c <= 0x9f ==> FormatOf(c) == FixGroup(c - 0x90)
    ensures forall c :: 0xa0 <= c <= 0xbf ==> FormatOf(c) == Fixed(c - 0xa0)
    ensures forall c :: 0xe0 <= c <= 0xff ==> FormatOf(c) == Fixed(0)
    ensures FormatOf(0xc0) == FormatOf(0xc2) == FormatOf(0xc3) == Fixed(0)
    ensures FormatOf(0xcc) == FormatOf(0xd0) == Fixed(1) && FormatOf(0xcd) == FormatOf(0xd1) == Fixed(2)
    ensures FormatOf(0xce) == FormatOf(0xd2) == Fixed(4) && FormatOf(0xcf) == FormatOf(0xd3) == Fixed(8)
    ensures FormatOf(0xca) == Fixed(4) && FormatOf(0xcb) == Fixed(8) && FormatOf(0xc1) == Never
    ensures FormatOf(0xd9) == FormatOf(0xc4) == Counted(1)
    ensures FormatOf(0xda) == FormatOf(0xc5) == Counted(2)
    ensures FormatOf(0xdb) == FormatOf(0xc6) == Counted(4)
    ensures FormatOf(0xc7) == CountedExt(1) && FormatOf(0xc8) == CountedExt(2) && FormatOf(0xc9) == CountedExt(4)
    ensures FormatOf(0xd4) == FixExt(1) && FormatOf(0xd5) == FixExt(2) && FormatOf(0xd6) == FixExt(4)
    ensures FormatOf(0xd7) == FixExt(8) && FormatOf(0xd8) == FixExt(16)
    ensures FormatOf(0xdc) == CountedArray(2) && FormatOf(0xdd) == CountedArray(4)
    ensures FormatOf(0xde) == CountedMap(2) && FormatOf(0xdf) == CountedMap(4)
  {
  }

  lemma PlainValue(ok: ExtCheck, c: u8, body: seq<u8>)
    ensures var f := FormatOf(c);
      && (f == Fixed(|body|) ==> WellFormed(ok, Plain(c, body)) && Written(Plain(c, body)) == [c] + body)
      && (f.Counted? && |body| < Place(f.w) ==>
            WellFormed(ok, Plain(c, body)) && Written(Plain(c, body)) == [c] + Digits(|body|, f.w) + body)
  {
    hide FormatOf, Place, Digits;
  }

  lemma ExtValue(ok: ExtCheck, c: u8, kind: u8, body: seq<u8>)
    requires ok(kind, body)
    ensures var f, v := FormatOf(c), Value.Ext(c, kind, body);
      && (f == FixExt(|body|) ==> WellFormed(ok, v) && Written(v) == [c] + [kind] + body)
      && (f.CountedExt? && |body| < Place(f.w) ==>
            WellFormed(ok, v) && Written(v) == [c] + Digits(|body|, f.w) + [kind] + body)
  {
    hide FormatOf, Place, Digits;
  }

  lemma GroupValue(ok: ExtCheck, c: u8, items: seq<Value>)
    requires AllWellFormed(ok, items)
    ensures var f, v := FormatOf(c), Group(c, items);
      && (f == FixGroup(|items|) ==> WellFormed(ok, v) && Written(v) == [c] + AllWritten(items))
      && (f.CountedArray? && |items| < Place(f.w) ==>
            WellFormed(ok, v) && Written(v) == [c] + Digits(|items|, f.w) + AllWritten(items))
      && (f.CountedMap? && |items| % 2 == 0 && |items| / 2 < Place(f.w) ==>
            WellFormed(ok, v) && Written(v) == [c] + Digits(|items| / 2, f.w) + AllWritten(items))
  {
    hide FormatOf, Place, Digits, AllWellFormed, AllWritten;
  }

  /** What is written for a value is a value of the grammar. */
  lemma EncodedIsValue(ok: ExtCheck, x: Item)
    requires Encodable(x) && IsValue(x)
    requires x.Ext? ==> ok(x.kind, x.body)
    ensures WellFormed(ok, ValueOf(x)) && Written(ValueOf(x)) == Encoded(x)
  {
    hide UIntBytes, IntBytes, StrHeaderBytes, BinHeaderBytes, ExtHeaderBytes, FormatOf, Place, Digits, WellFormed, Written;
    if x.UInt? {
      UIntIsValue(ok, x.n);
    } else if x.Int? {
      IntIsValue(ok, x.i);
    } else if x.Str? {
      StrIsValue(ok, x.body);
    } else if x.Bin? {
      BinIsValue(ok, x.body);
    } else if x.Ext? {
      ExtIsValue(ok, x.kind, x.body);
    } else {
      Formats();
      assert x.Nil? || x.Bool? ==> Encoded(x)[1..] == [];
      assert x.Float? ==> Encoded(x)[1..] == Digits(x.bits, 4);
      assert x.Double? ==> Encoded(x)[1..] == Digits(x.bits64, 8);
      assert Encoded(x) == [Encoded(x)[0]] + Encoded(x)[1..];
      PlainValue(ok, Encoded(x)[0], Encoded(x)[1..]);
    }
  }

  /** The byte 0xc1 begins no value. */
  lemma NeverBegins(ok: ExtCheck, v: Value)
    requires WellFormed(ok, v)
    ensures Written(v) != [] && Written(v)[0] != 0xc1
  {
    hide Digits, Place;
    Formats();
  }

  lemma UIntIsValue(ok: ExtCheck, n: u64)
    ensures var s := UIntBytes(n); WellFormed(ok, Plain(s[0], s[1..])) && Written(Plain(s[0], s[1..])) == s
  {
    hide Digits, Place, FormatOf, WellFormed, Written;
    Formats();
    var s := UIntBytes(n);
    PlainValue(ok, s[0], s[1..]);
  }

  lemma IntIsValue(ok: ExtCheck, i: i64)
    requires i < 0
    ensures var s := IntBytes(i); WellFormed(ok, Plain(s[0], s[1..])) && Written(Plain(s[0], s[1..])) == s
  {
    hide Digits, Place, FormatOf, WellFormed, Written;
    Formats();
    var s := IntBytes(i);
    PlainValue(ok, s[0], s[1..]);
  }

  lemma StrIsValue(ok: ExtCheck, body: seq<u8>)
    requires |body| < W32
    ensures var c := StrHeaderBytes(|body|)[0];
      WellFormed(ok, Plain(c, body)) && Written(Plain(c, body)) == StrHeaderBytes(|body|) + body
  {
    hide Digits, Place, FormatOf, WellFormed, Written;
    Formats();
    WidthPlaces();
    PlainValue(ok, StrHeaderBytes(|body|)[0], body);
  }

  lemma BinIsValue(ok: ExtCheck, body: seq<u8>)
    requires |body| < W32
    ensures var c := BinHeaderBytes(|body|)[0];
      WellFormed(ok, Plain(c, body)) && Written(Plain(c, body)) == BinHeaderBytes(|body|) + body
  {
    hide Digits, Place, FormatOf, WellFormed, Written;
    Formats();
    WidthPlaces();
    PlainValue(ok, BinHeaderBytes(|body|)[0], body);
  }

  lemma ExtIsValue(ok: ExtCheck, kind: u8, body: seq<u8>)
    requires |body| < W32 && ok(kind, body)
    ensures var v := Value.Ext(ExtHeaderBytes(kind, |body|)[0], kind, body);
      WellFormed(ok, v) && Written(v) == ExtHeaderBytes(kind, |body|) + body
  {
    hide Digits, Place, FormatOf, WellFormed, Written;
    Formats();
    WidthPlaces();
    ExtValue(ok, ExtHeaderBytes(kind, |body|)[0], kind, body);
  }

  /** An array header followed by its elements is an array. */
  lemma ArrayIsValue(ok: ExtCheck, items: seq<Value>)
    requires AllWellFormed(ok, items) && |items| < W32
    ensures var v := Group(ArrayHeaderBytes(|items|)[0], items);
      WellFormed(ok, v) && Written(v) == ArrayHeaderBytes(|items|) + AllWritten(items)
  {
    hide Digits, Place, FormatOf, WellFormed, Written, AllWellFormed, AllWritten;
    WidthPlaces();
    Formats();
    GroupValue(ok, ArrayHeaderBytes(|items|)[0], items);
  }

  /** A map header followed by its keys and values in turn is a map. */
  lemma MapIsValue(ok: ExtCheck, items: seq<Value>)
    requires AllWellFormed(ok, items) && |items| < 2 * W32 && |items| % 2 == 0
    ensures var v := Group(MapHeaderBytes(|items| / 2)[0], items);
      WellFormed(ok, v) && Written(v) == MapHeaderBytes(|items| / 2) + AllWritten(items)
  {
    hide Digits, Place, FormatOf, WellFormed, Written, AllWellFormed, AllWritten;
    WidthPlaces();
    Formats();
    GroupValue(ok, MapHeaderBytes(|items| / 2)[0], items);
  }

  // ---------- Decoding ----------

  /** What a decoder gives: the result, and the cursor behind what it read. */
  datatype Read<+T> = Read(value: T, next: nat)

  /** A first byte and the number of `w` bytes behind it. */
  ghost predicate NumberAt(b: seq<u8>, at: nat, c: u8, n: nat, w: nat)
  {
    w <= 8 && at + 1 + w <= |b| && b[at] == c && Load(b, at + 1, w) == n
  }

  lemma NumberIsAt(b: seq<u8>, at: nat, c: u8, n: nat, w: nat)
    requires w <= 8 && n < Place(w) && StartsWith(b, at, [c] + Digits(n, w))
    ensures NumberAt(b, at, c, n, w)
  {
    hide Place, Load, StartsWith, Digits;
    StartsWithBoth(b, at, [c], Digits(n, w));
    StartsWithByte(b, at, c);
    CountLoaded(b, at + 1, n, w);
    StartsInside(b, at + 1, Digits(n, w));
  }

  /** What `mp_decode_uint` needs of the bytes at the cursor. */
  predicate UIntAt(b: seq<u8>, at: nat)
  {
    at < |b| && (b[at] <= 0x7f || (0xcc <= b[at] <= 0xcf && at + 1 + UIntWidth(b[at]) <= |b|))
  }

  function UIntWidth(c: u8): nat
    requires 0xcc <= c <= 0xcf
  {
    if c == 0xcc then 1 else if c == 0xcd then 2 else if c == 0xce then 4 else 8
  }

  /** `mp_decode_uint` */
  function DecodeUInt(b: seq<u8>, at: nat): Read<nat>
    requires UIntAt(b, at)
  {
    var c := b[at];
    if c <= 0x7f then Read(c, at + 1)
    else Read(Load(b, at + 1, UIntWidth(c)), at + 1 + UIntWidth(c))
  }

  /** The signed number with the same `w` bytes. */
  function Signed(n: nat, w: nat): int
    requires w <= 8 && n < Place(w)
  {
    if 2 * n < Place(w) then n else n - Place(w)
  }

  predicate IntAt(b: seq<u8>, at: nat)
  {
    at < |b| && (b[at] >= 0xe0 || (0xd0 <= b[at] <= 0xd3 && at + 1 + IntWidth(b[at]) <= |b|))
  }

  function IntWidth(c: u8): nat
    requires 0xd0 <= c <= 0xd3
  {
    if c == 0xd0 then 1 else if c == 0xd1 then 2 else if c == 0xd2 then 4 else 8
  }

  /** `mp_decode_int` */
  function DecodeInt(b: seq<u8>, at: nat): Read<int>
    requires IntAt(b, at)
  {
    var c: int := b[at];
    if c >= 0xe0 then Read(c - 0x100, at + 1)
    else Read(Signed(Load(b, at + 1, IntWidth(c)), IntWidth(c)), at + 1 + IntWidth(c))
  }

  /** The parts an unsigned number is written in. */
  lemma UIntParts(n: u64, b: seq<u8>, at: nat)
    requires StartsWith(b, at, UIntBytes(n))
    ensures if n <= 0x7f then at < |b| && b[at] == n
      else if n <= 0xff then NumberAt(b, at, 0xcc, n, 1)
      else if n <= 0xffff then NumberAt(b, at, 0xcd, n, 2)
      else if n <= 0xffff_ffff then NumberAt(b, at, 0xce, n, 4)
      else NumberAt(b, at, 0xcf, n, 8)
  {
    hide Digits, Place, NumberAt;
    WidthPlaces();
    if n <= 0x7f {
      StartsWithByte(b, at, n);
    } else if n <= 0xff {
      NumberIsAt(b, at, 0xcc, n, 1);
    } else if n <= 0xffff {
      NumberIsAt(b, at, 0xcd, n, 2);
    } else if n <= 0xffff_ffff {
      NumberIsAt(b, at, 0xce, n, 4);
    } else {
      NumberIsAt(b, at, 0xcf, n, 8);
    }
  }

  lemma IntParts(i: i64, b: seq<u8>, at: nat)
    requires i < 0 && StartsWith(b, at, IntBytes(i))
    ensures if i >= -0x20 then at < |b| && b[at] == 0x100 + i
      else if i >= -0x80 then NumberAt(b, at, 0xd0, 0x100 + i, 1)
      else if i >= -0x8000 then NumberAt(b, at, 0xd1, 0x1_0000 + i, 2)
      else if i >= -0x8000_0000 then NumberAt(b, at, 0xd2, W32 + i, 4)
      else NumberAt(b, at, 0xd3, W64 + i, 8)
  {
    hide Digits, Place, NumberAt;
    WidthPlaces();
    if i >= -0x20 {
      StartsWithByte(b, at, 0x100 + i);
    } else if i >= -0x80 {
      NumberIsAt(b, at, 0xd0, 0x100 + i, 1);
    } else if i >= -0x8000 {
      NumberIsAt(b, at, 0xd1, 0x1_0000 + i, 2);
    } else if i >= -0x8000_0000 {
      NumberIsAt(b, at, 0xd2, W32 + i, 4);
    } else {
      NumberIsAt(b, at, 0xd3, W64 + i, 8);
    }
  }

  /** Decoding undoes encoding and steps over exactly what was written. */
  lemma UIntRoundTrip(n: u64, b: seq<u8>, at: nat)
    requires StartsWith(b, at, UIntBytes(n))
    ensures UIntAt(b, at) && DecodeUInt(b, at) == Read(n, at + SizeOfUInt(n))
  {
    hide StartsWith, Load, UIntBytes;
    UIntParts(n, b, at);
  }

  lemma IntRoundTrip(i: i64, b: seq<u8>, at: nat)
    requires i < 0 && StartsWith(b, at, IntBytes(i))
    ensures IntAt(b, at) && DecodeInt(b, at) == Read(i, at + SizeOfInt(i))
  {
    hide StartsWith, Load, IntBytes, Place;
    WidthPlaces();
    IntParts(i, b, at);
  }

  /** Whoever wrote it, a number of any of the four widths is read with its sign. */
  lemma IntOfAnyWidth(i: int, j: nat, b: seq<u8>, at: nat)
    requires j < 4
    requires -Place([1, 2, 4, 8][j]) <= 2 * i < Place([1, 2, 4, 8][j])
    requires var w := [1, 2, 4, 8][j]; StartsWith(b, at, [0xd0 + j] + Digits(if i < 0 then Place(w) + i else i, w))
    ensures IntAt(b, at) && DecodeInt(b, at) == Read(i, at + 1 + [1, 2, 4, 8][j])
  {
    hide StartsWith, Load, Digits, Place;
    WidthPlaces();
    var w := [1, 2, 4, 8][j];
    NumberIsAt(b, at, 0xd0 + j, if i < 0 then Place(w) + i else i, w);
  }

  /** `mp_decode_float` and `mp_decode_double`, up to the meaning of the bits. */
  function DecodeFloat(b: seq<u8>, at: nat): Read<nat>
    requires at < |b| && (b[at] == 0xca || b[at] == 0xcb) && at + 1 + (if b[at] == 0xca then 4 else 8) <= |b|
  {
    var w := if b[at] == 0xca then 4 else 8;
    Read(Load(b, at + 1, w), at + 1 + w)
  }

  lemma FloatRoundTrip(x: Item, b: seq<u8>, at: nat)
    requires (x.Float? || x.Double?) && StartsWith(b, at, Encoded(x))
    ensures at < |b| && b[at] == (if x.Float? then 0xca else 0xcb) && at + SizeOf(x) <= |b|
    ensures DecodeFloat(b, at) == Read(if x.Float? then x.bits else x.bits64, at + SizeOf(x))
  {
    hide StartsWith, Load, Digits, Place;
    WidthPlaces();
    if x.Float? {
      NumberIsAt(b, at, 0xca, x.bits, 4);
    } else {
      NumberIsAt(b, at, 0xcb, x.bits64, 8);
    }
  }

  // ---------- Comparing ----------

  /** `mp_compare_uint` on two buffers with the cursor at their first byte. */
  function CompareUInt(a: seq<u8>, b: seq<u8>): int
    requires UIntAt(a, 0) && UIntAt(b, 0)
  {
    var r: int := a[0] as int - b[0] as int;
    if r != 0 then r
    else if a[0] <= 0x7f then 0
    else
      var x, y := Load(a, 1, UIntWidth(a[0])), Load(b, 1, UIntWidth(b[0]));
      if x > y then 1 else if x < y then -1 else 0
  }

  function Sign(x: int): int { if x > 0 then 1 else if x < 0 then -1 else 0 }

  /** On encoder output, the comparison of the bytes is the comparison of the numbers. */
  lemma CompareIsNumeric(m: u64, n: u64, a: seq<u8>, b: seq<u8>)
    requires StartsWith(a, 0, UIntBytes(m)) && StartsWith(b, 0, UIntBytes(n))
    ensures UIntAt(a, 0) && UIntAt(b, 0) && Sign(CompareUInt(a, b)) == Sign(m - n)
  {
    hide StartsWith, Load, UIntBytes;
    UIntParts(m, a, 0);
    UIntParts(n, b, 0);
  }

  // ---------- Reading into a given width ----------

  /** `mp_read_int8`, `16`, `32` and `64`: `w` is the width in bytes. Nothing means failure, with the
    * cursor where it was. */
  function ReadInt(w: nat, b: seq<u8>, at: nat): Option<Read<int>>
    requires w in {1, 2, 4, 8} && at < |b| && (0xcc <= b[at] <= 0xd3 ==> UIntAt(b, at) || IntAt(b, at))
  {
    var c: int := b[at];
    if 0xd0 <= c <= 0xd3 then
      if IntWidth(c) <= w then Some(DecodeInt(b, at)) else None
    else if 0xcc <= c <= 0xcf then
      if UIntWidth(c) > w then None
      else
        var n := Load(b, at + 1, UIntWidth(c));
        if UIntWidth(c) == w && 2 * n >= Place(w) then None else Some(Read(n, at + 1 + UIntWidth(c)))
    else if 0x7f < c < 0xe0 then None
    else Some(Read(if c >= 0xe0 then c - 0x100 else c, at + 1))
  }

  predicate Fits(i: int, w: nat)
    requires w in {1, 2, 4, 8}
  {
    -Place(w) <= 2 * i < Place(w)
  }

  /** On encoder output, reading succeeds exactly on numbers that fit, and gives them. */
  lemma ReadFits(i: int, w: nat, b: seq<u8>, at: nat)
    requires w in {1, 2, 4, 8} && -0x8000_0000_0000_0000 <= i < W64
    requires StartsWith(b, at, if i < 0 then IntBytes(i) else UIntBytes(i))
    ensures UIntAt(b, at) || IntAt(b, at)
    ensures ReadInt(w, b, at) == if Fits(i, w) then Some(Read(i, at + if i < 0 then SizeOfInt(i) else SizeOfUInt(i))) else None
  {
    hide StartsWith, Load, IntBytes, UIntBytes, Place;
    WidthPlaces();
    if i < 0 {
      IntParts(i, b, at);
    } else {
      UIntParts(i, b, at);
    }
  }

  /** Off encoder output it is the format that counts: 5 written in two bytes does not fit in one. */
  lemma ReadRefusesWideFormat(b: seq<u8>)
    requires b == [0xcd, 0, 5]
    ensures UIntAt(b, 0) && DecodeUInt(b, 0) == Read(5, 3) && Fits(5, 1) && ReadInt(1, b, 0) == None
  {
    hide Place;
    WidthPlaces();
    assert b[1..1 + 2] == [0, 5] && [0, 5][..1] == [0] && [0][..0] == [];
    assert BigEndian([]) == 0 && BigEndian([0]) == 0 && BigEndian([0, 5]) == 5;
  }

  // ---------- Headers ----------

  /** How many bytes of length or count follow a first byte. */
  function HeaderWidth(c: u8): (w: nat)
    ensures w in {0, 1, 2, 4}
  {
    if c == 0xc4 || c == 0xc7 || c == 0xd9 then 1
    else if c == 0xc5 || c == 0xc8 || c == 0xda || c == 0xdc || c == 0xde then 2
    else if c == 0xc6 || c == 0xc9 || c == 0xdb || c == 0xdd || c == 0xdf then 4
    else 0
  }

  predicate HeaderAt(b: seq<u8>, at: nat) { at < |b| && at + 1 + HeaderWidth(b[at]) <= |b| }

  /** `mp_decode_array` */
  function DecodeArray(b: seq<u8>, at: nat): Read<nat>
    requires HeaderAt(b, at) && (0x90 <= b[at] <= 0x9f || 0xdc <= b[at] <= 0xdd)
  {
    var c := b[at];
    if c / 0x40 % 2 == 0 then Read(c % 0x10, at + 1)
    else if c % 2 == 0 then Read(Load(b, at + 1, 2), at + 3)
    else Read(Load(b, at + 1, 4), at + 5)
  }

  /** `mp_decode_map` */
  function DecodeMap(b: seq<u8>, at: nat): Read<nat>
    requires HeaderAt(b, at) && (0x80 <= b[at] <= 0x8f || 0xde <= b[at] <= 0xdf)
  {
    var c := b[at];
    if c == 0xde then Read(Load(b, at + 1, 2), at + 3)
    else if c == 0xdf then Read(Load(b, at + 1, 4), at + 5)
    else Read(c % 0x10, at + 1)
  }

  /** `mp_decode_strbinl`, which is `mp_decode_strl` on strings and `mp_decode_binl` on binaries. */
  function DecodeStrBinHeader(b: seq<u8>, at: nat): Read<nat>
    requires HeaderAt(b, at) && (0xa0 <= b[at] <= 0xbf || 0xd9 <= b[at] <= 0xdb || 0xc4 <= b[at] <= 0xc6)
  {
    var c := b[at];
    if c == 0xd9 || c == 0xc4 then Read(Load(b, at + 1, 1), at + 2)
    else if c == 0xda || c == 0xc5 then Read(Load(b, at + 1, 2), at + 3)
    else if c == 0xdb || c == 0xc6 then Read(Load(b, at + 1, 4), at + 5)
    else Read(c % 0x20, at + 1)
  }

  /** `mp_decode_extl`: the type and the length. */
  function DecodeExtHeader(b: seq<u8>, at: nat): Read<(u8, nat)>
    requires HeaderAt(b, at) && (0xd4 <= b[at] <= 0xd8 || 0xc7 <= b[at] <= 0xc9)
    requires at + 1 + HeaderWidth(b[at]) < |b|
  {
    var c := b[at];
    if c == 0xc7 then Read((b[at + 2], Load(b, at + 1, 1)), at + 3)
    else if c == 0xc8 then Read((b[at + 3], Load(b, at + 1, 2)), at + 4)
    else if c == 0xc9 then Read((b[at + 5], Load(b, at + 1, 4)), at + 6)
    else Read((b[at + 1], [1, 2, 4, 8, 16][c - 0xd4]), at + 2)
  }

  lemma ArrayRoundTrip(n: u32, b: seq<u8>, at: nat)
    requires StartsWith(b, at, ArrayHeaderBytes(n))
    ensures HeaderAt(b, at) && (0x90 <= b[at] <= 0x9f || 0xdc <= b[at] <= 0xdd)
    ensures DecodeArray(b, at) == Read(n, at + SizeOfCount(n))
  {
    hide Digits, Load, Place, StartsWith;
    WidthPlaces();
    if n <= 15 {
      StartsWithByte(b, at, 0x90 + n);
    } else if n <= 0xffff {
      NumberIsAt(b, at, 0xdc, n, 2);
    } else {
      NumberIsAt(b, at, 0xdd, n, 4);
    }
  }

  lemma MapRoundTrip(n: u32, b: seq<u8>, at: nat)
    requires StartsWith(b, at, MapHeaderBytes(n))
    ensures HeaderAt(b, at) && (0x80 <= b[at] <= 0x8f || 0xde <= b[at] <= 0xdf)
    ensures DecodeMap(b, at) == Read(n, at + SizeOfCount(n))
  {
    hide Digits, Load, Place, StartsWith;
    WidthPlaces();
    if n <= 15 {
      StartsWithByte(b, at, 0x80 + n);
    } else if n <= 0xffff {
      NumberIsAt(b, at, 0xde, n, 2);
    } else {
      NumberIsAt(b, at, 0xdf, n, 4);
    }
  }

  /** The length of a string comes back, and its contents are what follows. */
  lemma StrRoundTrip(body: seq<u8>, b: seq<u8>, at: nat)
    requires |body| < W32 && StartsWith(b, at, StrHeaderBytes(|body|) + body)
    ensures HeaderAt(b, at) && (0xa0 <= b[at] <= 0xbf || 0xd9 <= b[at] <= 0xdb)
    ensures var r := DecodeStrBinHeader(b, at);
      r == Read(|body|, at + SizeOfStrHeader(|body|)) && StartsWith(b, r.next, body)
  {
    hide Digits, Load, Place, StartsWith;
    WidthPlaces();
    var n := |body|;
    StartsWithBoth(b, at, StrHeaderBytes(n), body);
    if n <= 31 {
      StartsWithByte(b, at, 0xa0 + n);
    } else if n <= 0xff {
      NumberIsAt(b, at, 0xd9, n, 1);
    } else if n <= 0xffff {
      NumberIsAt(b, at, 0xda, n, 2);
    } else {
      NumberIsAt(b, at, 0xdb, n, 4);
    }
  }

  lemma BinRoundTrip(body: seq<u8>, b: seq<u8>, at: nat)
    requires |body| < W32 && StartsWith(b, at, BinHeaderBytes(|body|) + body)
    ensures HeaderAt(b, at) && 0xc4 <= b[at] <= 0xc6
    ensures var r := DecodeStrBinHeader(b, at);
      r == Read(|body|, at + SizeOfBinHeader(|body|)) && StartsWith(b, r.next, body)
  {
    hide Digits, Load, Place, StartsWith;
    WidthPlaces();
    var n := |body|;
    StartsWithBoth(b, at, BinHeaderBytes(n), body);
    if n <= 0xff {
      NumberIsAt(b, at, 0xc4, n, 1);
    } else if n <= 0xffff {
      NumberIsAt(b, at, 0xc5, n, 2);
    } else {
      NumberIsAt(b, at, 0xc6, n, 4);
    }
  }

  /** The type and the length of an extension come back, and its contents are what follows. */
  lemma ExtRoundTrip(kind: u8, body: seq<u8>, b: seq<u8>, at: nat)
    requires |body| < W32 && StartsWith(b, at, ExtHeaderBytes(kind, |body|) + body)
    ensures HeaderAt(b, at) && (0xd4 <= b[at] <= 0xd8 || 0xc7 <= b[at] <= 0xc9)
    ensures at + 1 + HeaderWidth(b[at]) < |b|
    ensures var r := DecodeExtHeader(b, at);
      r == Read((kind, |body|), at + SizeOfExtHeader(|body|)) && StartsWith(b, r.next, body)
  {
    hide Digits, Load, Place, StartsWith;
    WidthPlaces();
    var n := |body|;
    StartsWithBoth(b, at, ExtHeaderBytes(kind, n), body);
    if FixExtByte(n).Some? {
      StartsWithBoth(b, at, [FixExtByte(n).value], [kind]);
      StartsWithByte(b, at, FixExtByte(n).value);
      StartsWithByte(b, at + 1, kind);
    } else if n <= 0xff {
      ExtHeaderAt(b, at, 0xc7, n, 1, kind);
    } else if n <= 0xffff {
      ExtHeaderAt(b, at, 0xc8, n, 2, kind);
    } else {
      ExtHeaderAt(b, at, 0xc9, n, 4, kind);
    }
  }

  /** `mp_decode_bool` */
  function DecodeBool(b: seq<u8>, at: nat): Read<bool>
    requires at < |b| && (b[at] == 0xc2 || b[at] == 0xc3)
  {
    Read(b[at] == 0xc3, at + 1)
  }

  lemma BoolRoundTrip(value: bool, b: seq<u8>, at: nat)
    requires StartsWith(b, at, Encoded(Bool(value)))
    ensures at < |b| && (b[at] == 0xc2 || b[at] == 0xc3) && DecodeBool(b, at) == Read(value, at + 1)
  {
    StartsWithByte(b, at, if value then 0xc3 else 0xc2);
  }

  lemma ExtHeaderAt(b: seq<u8>, at: nat, c: u8, n: nat, w: nat, kind: u8)
    requires w <= 8 && n < Place(w) && StartsWith(b, at, [c] + Digits(n, w) + [kind])
    ensures NumberAt(b, at, c, n, w) && at + 1 + w < |b| && b[at + 1 + w] == kind
  {
    hide Digits, Load, Place, StartsWith, NumberAt;
    StartsWithBoth(b, at, [c] + Digits(n, w), [kind]);
    NumberIsAt(b, at, c, n, w);
    StartsWithByte(b, at + 1 + w, kind);
  }
}
