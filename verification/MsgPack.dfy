/** MessagePack as a grammar (the "Formats" section of its specification), and what it means for
  * bytes to begin with a given number of values.
  */
module MsgPack {
  import opened NumberTheory
  import opened Words
  import opened Bytes

  // ---------- Formats ----------

  /** What the first byte of a value says about the bytes behind it. */
  datatype Format =
    | Fixed(n: nat)          // `n` bytes
    | Counted(w: nat)        // a length of `w` bytes, then that many bytes
    | FixExt(n: nat)         // a type byte, then `n` bytes
    | CountedExt(w: nat)     // a length of `w` bytes, a type byte, then that many bytes
    | FixGroup(n: nat)       // `n` values
    | CountedArray(w: nat)   // a count of `w` bytes, then that many values
    | CountedMap(w: nat)     // a count of `w` bytes, then that many pairs of values
    | Never                  // the one byte that begins no value

  function FormatOf(c: u8): (f: Format)
    ensures f.Counted? ==> f.w in {1, 2, 4}
    ensures f.CountedExt? ==> f.w in {1, 2, 4}
    ensures f.CountedArray? ==> f.w in {2, 4}
    ensures f.CountedMap? ==> f.w in {2, 4}
  {
    if c <= 0x7f then Fixed(0)                      // positive fixint
    else if c <= 0x8f then FixGroup(2 * (c - 0x80)) // fixmap
    else if c <= 0x9f then FixGroup(c - 0x90)       // fixarray
    else if c <= 0xbf then Fixed(c - 0xa0)          // fixstr
    else if c == 0xc0 then Fixed(0)                 // nil
    else if c == 0xc1 then Never
    else if c <= 0xc3 then Fixed(0)                 // false, true
    else if c == 0xc4 then Counted(1)               // bin 8, 16, 32
    else if c == 0xc5 then Counted(2)
    else if c == 0xc6 then Counted(4)
    else if c == 0xc7 then CountedExt(1)            // ext 8, 16, 32
    else if c == 0xc8 then CountedExt(2)
    else if c == 0xc9 then CountedExt(4)
    else if c == 0xca then Fixed(4)                 // float 32
    else if c == 0xcb then Fixed(8)                 // float 64
    else if c == 0xcc then Fixed(1)                 // uint 8, 16, 32, 64
    else if c == 0xcd then Fixed(2)
    else if c == 0xce then Fixed(4)
    else if c == 0xcf then Fixed(8)
    else if c == 0xd0 then Fixed(1)                 // int 8, 16, 32, 64
    else if c == 0xd1 then Fixed(2)
    else if c == 0xd2 then Fixed(4)
    else if c == 0xd3 then Fixed(8)
    else if c == 0xd4 then FixExt(1)                // fixext 1, 2, 4, 8, 16
    else if c == 0xd5 then FixExt(2)
    else if c == 0xd6 then FixExt(4)
    else if c == 0xd7 then FixExt(8)
    else if c == 0xd8 then FixExt(16)
    else if c == 0xd9 then Counted(1)               // str 8, 16, 32
    else if c == 0xda then Counted(2)
    else if c == 0xdb then Counted(4)
    else if c == 0xdc then CountedArray(2)          // array 16, 32
    else if c == 0xdd then CountedArray(4)
    else if c == 0xde then CountedMap(2)            // map 16, 32
    else if c == 0xdf then CountedMap(4)
    else Fixed(0)                                   // negative fixint
  }

  // ---------- Values ----------

  /** A value as it is written: its first byte, and what follows it. */
  datatype Value =
    | Plain(first: u8, body: seq<u8>)
    | Ext(first: u8, kind: u8, body: seq<u8>)
    | Group(first: u8, items: seq<Value>)

  /** Decides whether an extension's contents are acceptable: (type, contents). */
  type ExtCheck = (u8, seq<u8>) -> bool

  /** The first byte fits what follows it, all the way down. */
  ghost predicate WellFormed(ok: ExtCheck, v: Value)
    decreases v
  {
    var f := FormatOf(v.first);
    match v
    case Plain(_, body) =>
      (f.Fixed? && |body| == f.n) || (f.Counted? && |body| < Place(f.w))
    case Ext(_, kind, body) =>
      ((f.FixExt? && |body| == f.n) || (f.CountedExt? && |body| < Place(f.w))) && ok(kind, body)
    case Group(_, items) =>
      && AllWellFormed(ok, items)
      && ((f.FixGroup? && |items| == f.n) || (f.CountedArray? && |items| < Place(f.w)) ||
          (f.CountedMap? && |items| % 2 == 0 && |items| / 2 < Place(f.w)))
  }

  ghost predicate AllWellFormed(ok: ExtCheck, vs: seq<Value>)
    decreases vs
  {
    vs == [] || (WellFormed(ok, vs[0]) && AllWellFormed(ok, vs[1..]))
  }

  /** The length or count between the first byte and the contents. */
  function CountBytes(v: Value): seq<u8>
  {
    match FormatOf(v.first)
    case Counted(w) => if v.Plain? then Digits(|v.body|, w) else []
    case CountedExt(w) => if v.Ext? then Digits(|v.body|, w) else []
    case CountedArray(w) => if v.Group? then Digits(|v.items|, w) else []
    case CountedMap(w) => if v.Group? then Digits(|v.items| / 2, w) else []
    case _ => []
  }

  /** A value's bytes. */
  function Written(v: Value): seq<u8>
    decreases v
  {
    match v
    case Plain(first, body) => [first] + CountBytes(v) + body
    case Ext(first, kind, body) => [first] + CountBytes(v) + [kind] + body
    case Group(first, items) => [first] + CountBytes(v) + AllWritten(items)
  }

  function AllWritten(vs: seq<Value>): seq<u8>
    decreases vs
  {
    if vs == [] then [] else Written(vs[0]) + AllWritten(vs[1..])
  }

  // ---------- Heads ----------

  /** A value up to its nested values, as found in a buffer. */
  datatype Head =
    | Full(next: nat, arity: nat)
    | Short
    | Illegal
    | Refused(kind: u8, from: nat, len: nat)

  /** The number of `w` bytes at `at`. */
  function Load(b: seq<u8>, at: nat, w: nat): (n: nat)
    requires at + w <= |b| && w <= 8
    ensures n < Place(w)
  {
    NumberOfDigits(b[at..at + w]);
    BigEndian(b[at..at + w])
  }

  function Contents(b: seq<u8>, from: nat, len: nat): Head
  {
    if from + len <= |b| then Full(from + len, 0) else Short
  }

  function ExtContents(ok: ExtCheck, b: seq<u8>, kind: u8, from: nat, len: nat): Head
  {
    if from + len > |b| then Short
    else if ok(kind, b[from..from + len]) then Full(from + len, 0)
    else Refused(kind, from, len)
  }

  function HeadAt(ok: ExtCheck, b: seq<u8>, at: nat): (h: Head)
    requires at <= |b|
    ensures h.Full? ==> at < h.next <= |b|
  {
    if at == |b| then Short
    else
      match FormatOf(b[at])
      case Fixed(n) => Contents(b, at + 1, n)
      case Counted(w) =>
        if at + 1 + w > |b| then Short else Contents(b, at + 1 + w, Load(b, at + 1, w))
      case FixExt(n) =>
        if at + 2 + n > |b| then Short else ExtContents(ok, b, b[at + 1], at + 2, n)
      case CountedExt(w) =>
        if at + 2 + w > |b| then Short
        else ExtContents(ok, b, b[at + 1 + w], at + 2 + w, Load(b, at + 1, w))
      case FixGroup(n) => Full(at + 1, n)
      case CountedArray(w) =>
        if at + 1 + w > |b| then Short else Full(at + 1 + w, Load(b, at + 1, w))
      case CountedMap(w) =>
        if at + 1 + w > |b| then Short else Full(at + 1 + w, 2 * Load(b, at + 1, w))
      case Never => Illegal
  }

  // ---------- Scanning ----------

  /** How reading ends: behind the last value, or at a value that cannot be read while `left`
    * values were still due. */
  datatype Scan =
    | Done(end: nat)
    | Truncated(pos: nat, left: nat)
    | IllegalAt(pos: nat)
    | RefusedAt(kind: u8, from: nat, len: nat)

  /** Reading `k` values in a row, where an array or map only makes more values due. */
  function Flat(ok: ExtCheck, b: seq<u8>, at: nat, k: nat): (r: Scan)
    requires at <= |b|
    ensures r.Done? ==> at + k <= r.end <= |b|
    decreases |b| - at
  {
    if k == 0 then Done(at)
    else
      match HeadAt(ok, b, at)
      case Full(next, arity) => Flat(ok, b, next, k - 1 + arity)
      case Short => Truncated(at, k)
      case Illegal => IllegalAt(at)
      case Refused(kind, from, len) => RefusedAt(kind, from, len)
  }

  // ---------- Scanning is reading values ----------

  ghost predicate StartsWith(b: seq<u8>, at: nat, s: seq<u8>)
  {
    at + |s| <= |b| && b[at..at + |s|] == s
  }

  function Items(v: Value): seq<Value> { if v.Group? then v.items else [] }

  /** A value without its nested values. */
  function Opening(v: Value): seq<u8>
  {
    match v
    case Plain(first, body) => [first] + CountBytes(v) + body
    case Ext(first, kind, body) => [first] + CountBytes(v) + [kind] + body
    case Group(first, items) => [first] + CountBytes(v)
  }

  lemma WrittenParts(v: Value)
    ensures Written(v) == Opening(v) + AllWritten(Items(v)) && |Opening(v)| > 0
  {
  }

  lemma {:induction false} AllWrittenAppend(vs: seq<Value>, us: seq<Value>)
    ensures AllWritten(vs + us) == AllWritten(vs) + AllWritten(us)
    decreases |vs|
  {
    hide Written;
    if vs == [] {
      assert vs + us == us;
    } else {
      AllWrittenAppend(vs[1..], us);
      assert (vs + us)[1..] == vs[1..] + us;
    }
  }

  lemma {:induction false} AllWellFormedAppend(ok: ExtCheck, vs: seq<Value>, us: seq<Value>)
    ensures AllWellFormed(ok, vs + us) <==> AllWellFormed(ok, vs) && AllWellFormed(ok, us)
    decreases |vs|
  {
    hide WellFormed;
    if vs == [] {
      assert vs + us == us;
    } else {
      AllWellFormedAppend(ok, vs[1..], us);
      assert (vs + us)[1..] == vs[1..] + us;
    }
  }

  lemma CountLoaded(b: seq<u8>, at: nat, n: nat, w: nat)
    requires w <= 8 && n < Place(w) && StartsWith(b, at, Digits(n, w))
    ensures Load(b, at, w) == n
  {
    DigitsOfNumber(n, w);
  }

  lemma StartsWithBoth(b: seq<u8>, at: nat, s: seq<u8>, t: seq<u8>)
    ensures StartsWith(b, at, s + t) <==> StartsWith(b, at, s) && StartsWith(b, at + |s|, t)
  {
    if at + |s| + |t| <= |b| {
      var u := b[at..at + |s| + |t|];
      assert u == b[at..at + |s|] + b[at + |s|..at + |s| + |t|];
      if u == s + t {
        assert u[..|s|] == s && u[|s|..] == t;
      }
    }
  }

  lemma StartsWithByte(b: seq<u8>, at: nat, c: u8)
    ensures StartsWith(b, at, [c]) <==> at < |b| && b[at] == c
  {
  }

  /** The head found at a written value is that value's. */
  lemma HeadOfValue(ok: ExtCheck, b: seq<u8>, at: nat, v: Value)
    requires WellFormed(ok, v) && StartsWith(b, at, Opening(v))
    ensures HeadAt(ok, b, at) == Full(at + |Opening(v)|, |Items(v)|)
  {
    hide Place, Digits, Load, FormatOf, StartsWith, HeadAt, WellFormed, CountBytes;
    FormatWidths(v.first);
    var c := CountBytes(v);
    match v
    case Plain(first, body) =>
      StartsWithBoth(b, at, [first] + c, body);
      StartsWithBoth(b, at, [first], c);
      HeadOfPlain(ok, b, at, v);
    case Ext(first, kind, body) =>
      StartsWithBoth(b, at, [first] + c + [kind], body);
      StartsWithBoth(b, at, [first] + c, [kind]);
      StartsWithBoth(b, at, [first], c);
      HeadOfExt(ok, b, at, v);
    case Group(first, items) =>
      StartsWithBoth(b, at, [first], c);
      HeadOfGroup(ok, b, at, v);
  }

  lemma HeadOfPlain(ok: ExtCheck, b: seq<u8>, at: nat, v: Value)
    requires v.Plain? && WellFormed(ok, v) && StartsWith(b, at, [v.first])
    requires StartsWith(b, at + 1, CountBytes(v)) && StartsWith(b, at + 1 + |CountBytes(v)|, v.body)
    ensures HeadAt(ok, b, at) == Full(at + |Opening(v)|, 0)
  {
    hide Place, Digits, Load, FormatOf;
    FormatWidths(v.first);
    assert b[at] == v.first;
    if FormatOf(v.first).Counted? {
      CountLoaded(b, at + 1, |v.body|, FormatOf(v.first).w);
    }
  }

  lemma HeadOfExt(ok: ExtCheck, b: seq<u8>, at: nat, v: Value)
    requires v.Ext? && WellFormed(ok, v) && StartsWith(b, at, [v.first])
    requires StartsWith(b, at + 1, CountBytes(v)) && StartsWith(b, at + 1 + |CountBytes(v)|, [v.kind])
    requires StartsWith(b, at + 2 + |CountBytes(v)|, v.body)
    ensures HeadAt(ok, b, at) == Full(at + |Opening(v)|, 0)
  {
    hide Place, Digits, Load, FormatOf;
    FormatWidths(v.first);
    assert b[at] == v.first;
    StartsWithByte(b, at + 1 + |CountBytes(v)|, v.kind);
    if FormatOf(v.first).CountedExt? {
      CountLoaded(b, at + 1, |v.body|, FormatOf(v.first).w);
    }
  }

  lemma HeadOfGroup(ok: ExtCheck, b: seq<u8>, at: nat, v: Value)
    requires v.Group? && WellFormed(ok, v) && StartsWith(b, at, [v.first])
    requires StartsWith(b, at + 1, CountBytes(v))
    ensures HeadAt(ok, b, at) == Full(at + |Opening(v)|, |v.items|)
  {
    hide Place, Digits, Load, FormatOf, AllWellFormed;
    FormatWidths(v.first);
    assert b[at] == v.first;
    match FormatOf(v.first) {
      case CountedArray(w) => CountLoaded(b, at + 1, |v.items|, w);
      case CountedMap(w) => CountLoaded(b, at + 1, |v.items| / 2, w);
      case _ =>
    }
  }

  lemma FormatWidths(c: u8)
    ensures var f := FormatOf(c); f.Counted? || f.CountedExt? || f.CountedArray? || f.CountedMap? ==> f.w <= 8
  {
  }

  lemma FlatStep(ok: ExtCheck, b: seq<u8>, at: nat, k: nat)
    requires at <= |b| && k > 0
    ensures var h := HeadAt(ok, b, at);
      if h.Full? then Flat(ok, b, at, k) == Flat(ok, b, h.next, k - 1 + h.arity)
      else !Flat(ok, b, at, k).Done?
  {
    hide HeadAt;
  }

  lemma AllCons(ok: ExtCheck, v: Value, rest: seq<Value>)
    ensures AllWritten([v] + rest) == Written(v) + AllWritten(rest)
    ensures AllWellFormed(ok, [v] + rest) <==> WellFormed(ok, v) && AllWellFormed(ok, rest)
  {
    hide WellFormed, Written;
    assert ([v] + rest)[1..] == rest;
  }

  lemma ItemsWellFormed(ok: ExtCheck, v: Value)
    requires WellFormed(ok, v)
    ensures AllWellFormed(ok, Items(v))
  {
    hide Place, FormatOf;
  }

  lemma AllFirst(ok: ExtCheck, v: Value, rest: seq<Value>)
    ensures AllWritten([v] + rest) == Opening(v) + AllWritten(Items(v) + rest)
    ensures AllWellFormed(ok, [v] + rest) <==> WellFormed(ok, v) && AllWellFormed(ok, rest)
    ensures AllWellFormed(ok, [v] + rest) ==> AllWellFormed(ok, Items(v) + rest)
  {
    hide AllWritten, AllWellFormed, WellFormed, Opening, Written, Items;
    AllCons(ok, v, rest);
    WrittenParts(v);
    AllWrittenAppend(Items(v), rest);
    AllWellFormedAppend(ok, Items(v), rest);
    if WellFormed(ok, v) {
      ItemsWellFormed(ok, v);
    }
  }

  /** Values written in a row are found again. */
  lemma {:induction false} FlatFindsValues(ok: ExtCheck, b: seq<u8>, at: nat, vs: seq<Value>)
    requires AllWellFormed(ok, vs) && StartsWith(b, at, AllWritten(vs))
    ensures Flat(ok, b, at, |vs|) == Done(at + |AllWritten(vs)|)
    decreases |AllWritten(vs)|
  {
    hide Flat, HeadAt, StartsWith, AllWritten, AllWellFormed, WellFormed, Opening, Written;
    if vs == [] {
      NothingWritten(ok, b, at);
    } else {
      var v, rest := vs[0], vs[1..];
      assert vs == [v] + rest;
      AllFirst(ok, v, rest);
      WrittenParts(v);
      StartsWithBoth(b, at, Opening(v), AllWritten(Items(v) + rest));
      HeadOfValue(ok, b, at, v);
      StartsInside(b, at, AllWritten(vs));
      FlatStep(ok, b, at, |vs|);
      FlatFindsValues(ok, b, at + |Opening(v)|, Items(v) + rest);
    }
  }

  lemma NothingWritten(ok: ExtCheck, b: seq<u8>, at: nat)
    requires StartsWith(b, at, AllWritten([]))
    ensures Flat(ok, b, at, 0) == Done(at + |AllWritten([])|)
  {
  }

  lemma NothingRead(ok: ExtCheck, b: seq<u8>, at: nat)
    requires at <= |b|
    ensures Flat(ok, b, at, 0) == Done(at) && AllWritten([]) == [] && AllWellFormed(ok, [])
  {
  }

  lemma StartsInside(b: seq<u8>, at: nat, s: seq<u8>)
    requires StartsWith(b, at, s)
    ensures at + |s| <= |b|
  {
  }

  /** A head in the buffer opens a value, given the values it asks for. */
  lemma ValueOfHead(ok: ExtCheck, b: seq<u8>, at: nat, items: seq<Value>) returns (v: Value)
    requires at <= |b| && AllWellFormed(ok, items)
    requires HeadAt(ok, b, at).Full? && HeadAt(ok, b, at).arity == |items|
    ensures WellFormed(ok, v) && Opening(v) == b[at..HeadAt(ok, b, at).next] && Items(v) == items
  {
    match FormatOf(b[at])
    case Fixed(_) =>
      v := PlainOfHead(ok, b, at);
    case Counted(_) =>
      v := PlainOfHead(ok, b, at);
    case FixExt(_) =>
      v := ExtOfHead(ok, b, at);
    case CountedExt(_) =>
      v := ExtOfHead(ok, b, at);
    case FixGroup(_) =>
      v := GroupOfHead(ok, b, at, items);
    case CountedArray(_) =>
      v := GroupOfHead(ok, b, at, items);
    case CountedMap(_) =>
      v := GroupOfHead(ok, b, at, items);
  }

  lemma PlainOfHead(ok: ExtCheck, b: seq<u8>, at: nat) returns (v: Value)
    requires at <= |b| && HeadAt(ok, b, at).Full? && (FormatOf(b[at]).Fixed? || FormatOf(b[at]).Counted?)
    ensures v.Plain? && WellFormed(ok, v) && Opening(v) == b[at..HeadAt(ok, b, at).next]
  {
    hide Place, Load, Digits, FormatOf, Opening, WellFormed, HeadAt;
    FormatWidths(b[at]);
    var w, len := PlainParts(ok, b, at);
    v := Plain(b[at], b[at + 1 + w..at + 1 + w + len]);
    PlainWritten(ok, b[at], v.body);
    assert CountBytes(v) == b[at + 1..at + 1 + w];
    assert b[at..at + 1 + w + len] == [b[at]] + b[at + 1..at + 1 + w] + v.body;
  }

  lemma PlainParts(ok: ExtCheck, b: seq<u8>, at: nat) returns (w: nat, len: nat)
    requires at <= |b| && HeadAt(ok, b, at).Full? && (FormatOf(b[at]).Fixed? || FormatOf(b[at]).Counted?)
    ensures HeadAt(ok, b, at).next == at + 1 + w + len <= |b|
    ensures match FormatOf(b[at])
      case Fixed(n) => w == 0 && len == n
      case Counted(w') => w == w' && w <= 8 && len < Place(w) && Digits(len, w) == b[at + 1..at + 1 + w]
      case _ => true
  {
    hide Place, Load, Digits, FormatOf;
    FormatWidths(b[at]);
    match FormatOf(b[at])
    case Fixed(n) =>
      w, len := 0, n;
    case Counted(w') =>
      CountWritten(b, at + 1, w');
      w, len := w', Load(b, at + 1, w');
  }

  lemma PlainWritten(ok: ExtCheck, c: u8, body: seq<u8>)
    ensures var v, f := Plain(c, body), FormatOf(c);
      && Opening(v) == [c] + CountBytes(v) + body
      && (f.Fixed? && |body| == f.n ==> WellFormed(ok, v))
      && (f.Counted? && f.w <= 8 && |body| < Place(f.w) ==> WellFormed(ok, v))
  {
    hide FormatOf, Place, Digits;
  }

  lemma ExtOfHead(ok: ExtCheck, b: seq<u8>, at: nat) returns (v: Value)
    requires at <= |b| && HeadAt(ok, b, at).Full? && (FormatOf(b[at]).FixExt? || FormatOf(b[at]).CountedExt?)
    ensures v.Ext? && WellFormed(ok, v) && Opening(v) == b[at..HeadAt(ok, b, at).next]
  {
    hide Place, Load, Digits, FormatOf, Opening, WellFormed, HeadAt;
    FormatWidths(b[at]);
    var w, len := ExtParts(ok, b, at);
    v := Ext(b[at], b[at + 1 + w], b[at + 2 + w..at + 2 + w + len]);
    ExtWritten(ok, b[at], v.kind, v.body);
    assert CountBytes(v) == b[at + 1..at + 1 + w];
    assert b[at..at + 2 + w + len] == [b[at]] + b[at + 1..at + 1 + w] + [b[at + 1 + w]] + v.body;
  }

  lemma ExtParts(ok: ExtCheck, b: seq<u8>, at: nat) returns (w: nat, len: nat)
    requires at <= |b| && HeadAt(ok, b, at).Full? && (FormatOf(b[at]).FixExt? || FormatOf(b[at]).CountedExt?)
    ensures HeadAt(ok, b, at).next == at + 2 + w + len <= |b| && ok(b[at + 1 + w], b[at + 2 + w..at + 2 + w + len])
    ensures match FormatOf(b[at])
      case FixExt(n) => w == 0 && len == n
      case CountedExt(w') => w == w' && w <= 8 && len < Place(w) && Digits(len, w) == b[at + 1..at + 1 + w]
      case _ => true
  {
    hide Place, Load, Digits, FormatOf;
    FormatWidths(b[at]);
    match FormatOf(b[at])
    case FixExt(n) =>
      w, len := 0, n;
    case CountedExt(w') =>
      CountWritten(b, at + 1, w');
      w, len := w', Load(b, at + 1, w');
  }

  lemma ExtWritten(ok: ExtCheck, c: u8, kind: u8, body: seq<u8>)
    ensures var v, f := Ext(c, kind, body), FormatOf(c);
      && Opening(v) == [c] + CountBytes(v) + [kind] + body
      && (f.FixExt? && |body| == f.n && ok(kind, body) ==> WellFormed(ok, v))
      && (f.CountedExt? && f.w <= 8 && |body| < Place(f.w) && ok(kind, body) ==> WellFormed(ok, v))
  {
    hide FormatOf, Place, Digits;
  }

  lemma GroupOfHead(ok: ExtCheck, b: seq<u8>, at: nat, items: seq<Value>) returns (v: Value)
    requires at <= |b| && AllWellFormed(ok, items) && HeadAt(ok, b, at).Full? && HeadAt(ok, b, at).arity == |items|
    requires FormatOf(b[at]).FixGroup? || FormatOf(b[at]).CountedArray? || FormatOf(b[at]).CountedMap?
    ensures v.Group? && WellFormed(ok, v) && Opening(v) == b[at..HeadAt(ok, b, at).next] && v.items == items
  {
    hide Place, Load, Digits, FormatOf, AllWellFormed;
    var c := b[at];
    FormatWidths(c);
    v := Group(c, items);
    if !FormatOf(c).FixGroup? {
      CountWritten(b, at + 1, FormatOf(c).w);
    }
  }

  lemma CountWritten(b: seq<u8>, at: nat, w: nat)
    requires at + w <= |b| && w <= 8
    ensures Load(b, at, w) < Place(w) && Digits(Load(b, at, w), w) == b[at..at + w]
  {
    NumberOfDigits(b[at..at + w]);
  }

  /** Whatever scanning accepts is a row of values. */
  lemma {:induction false} FlatIsValues(ok: ExtCheck, b: seq<u8>, at: nat, k: nat) returns (vs: seq<Value>)
    requires at <= |b| && Flat(ok, b, at, k).Done?
    ensures |vs| == k && AllWellFormed(ok, vs) && AllWritten(vs) == b[at..Flat(ok, b, at, k).end]
    decreases |b| - at
  {
    hide Flat, HeadAt, AllWritten, AllWellFormed, WellFormed, Opening, Written;
    if k == 0 {
      vs := [];
      NothingRead(ok, b, at);
    } else {
      var h := HeadAt(ok, b, at);
      FlatStep(ok, b, at, k);
      var us := FlatIsValues(ok, b, h.next, k - 1 + h.arity);
      var items, rest := us[..h.arity], us[h.arity..];
      assert us == items + rest;
      AllWellFormedAppend(ok, items, rest);
      var v := ValueOfHead(ok, b, at, items);
      AllFirst(ok, v, rest);
      vs := [v] + rest;
      var e := Flat(ok, b, at, k).end;
      assert b[at..e] == b[at..h.next] + b[h.next..e];
    }
  }

  // ---------- What scanning says about a buffer ----------

  ghost predicate ValueAt(ok: ExtCheck, b: seq<u8>, at: nat, v: Value)
  {
    WellFormed(ok, v) && StartsWith(b, at, Written(v))
  }

  lemma OneWritten(ok: ExtCheck, v: Value)
    ensures AllWritten([v]) == Written(v) && (AllWellFormed(ok, [v]) <==> WellFormed(ok, v))
  {
    AllCons(ok, v, []);
    assert [v] + [] == [v];
  }

  /** A value in the buffer is found, and its end with it. */
  lemma ValueIsFound(ok: ExtCheck, b: seq<u8>, at: nat, v: Value)
    requires ValueAt(ok, b, at, v)
    ensures at <= |b| && Flat(ok, b, at, 1) == Done(at + |Written(v)|)
  {
    OneWritten(ok, v);
    FlatFindsValues(ok, b, at, [v]);
  }

  /** Scanning one value succeeds exactly on the values of the grammar. */
  lemma ScanIffValue(ok: ExtCheck, b: seq<u8>, at: nat)
    requires at <= |b|
    ensures Flat(ok, b, at, 1).Done? <==> exists v :: ValueAt(ok, b, at, v)
  {
    if Flat(ok, b, at, 1).Done? {
      var vs := FlatIsValues(ok, b, at, 1);
      assert vs == [vs[0]];
      OneWritten(ok, vs[0]);
      assert ValueAt(ok, b, at, vs[0]);
    }
    if v :| ValueAt(ok, b, at, v) {
      ValueIsFound(ok, b, at, v);
    }
  }

  /** The first byte settles the shape, and the shape settles the parts. */
  lemma OpeningUnique(ok: ExtCheck, v: Value, u: Value)
    requires WellFormed(ok, v) && WellFormed(ok, u) && Opening(v) == Opening(u) && Items(v) == Items(u)
    ensures v == u
  {
    hide Place, Digits, FormatOf, AllWellFormed;
    assert v.first == Opening(v)[0] == u.first;
    FormatWidths(v.first);
    var n := 1 + |CountBytes(v)|;
    match v
    case Plain(_, body) =>
      assert Opening(v)[n..] == body && Opening(u)[n..] == u.body;
    case Ext(_, kind, body) =>
      assert Opening(v)[n] == kind && Opening(u)[n] == u.kind;
      assert Opening(v)[n + 1..] == body && Opening(u)[n + 1..] == u.body;
    case Group(_, items) =>
  }

  /** No bytes can be read as two different rows of values. */
  lemma {:induction false} Unambiguous(ok: ExtCheck, b: seq<u8>, at: nat, vs: seq<Value>, us: seq<Value>)
    requires AllWellFormed(ok, vs) && AllWellFormed(ok, us) && |vs| == |us|
    requires StartsWith(b, at, AllWritten(vs)) && StartsWith(b, at, AllWritten(us))
    ensures vs == us
    decreases |AllWritten(vs)|
  {
    hide StartsWith, AllWritten, AllWellFormed, WellFormed, Opening, Written, Items, HeadAt;
    if vs != [] {
      var v, u, rest, rest' := vs[0], us[0], vs[1..], us[1..];
      assert vs == [v] + rest && us == [u] + rest';
      AllFirst(ok, v, rest);
      AllFirst(ok, u, rest');
      WrittenParts(v);
      StartsWithBoth(b, at, Opening(v), AllWritten(Items(v) + rest));
      StartsWithBoth(b, at, Opening(u), AllWritten(Items(u) + rest'));
      StartsInside(b, at, Opening(v));
      HeadOfValue(ok, b, at, v);
      HeadOfValue(ok, b, at, u);
      SameBytes(b, at, Opening(v), Opening(u));
      Unambiguous(ok, b, at + |Opening(v)|, Items(v) + rest, Items(u) + rest');
      assert Items(v) == (Items(v) + rest)[..|Items(v)|] == Items(u);
      assert rest == (Items(v) + rest)[|Items(v)|..] == rest';
      OpeningUnique(ok, v, u);
    }
  }

  lemma SameBytes(b: seq<u8>, at: nat, s: seq<u8>, t: seq<u8>)
    requires StartsWith(b, at, s) && StartsWith(b, at, t) && |s| == |t|
    ensures s == t
  {
  }

  /** Appending bytes changes a head only when it was cut off, and then it ends beyond the cut. */
  ghost predicate Grows(short: Head, long: Head, n: nat)
  {
    if short.Short? then long.Full? ==> long.next > n else long == short
  }

  lemma HeadStable(ok: ExtCheck, b: seq<u8>, more: seq<u8>, at: nat)
    requires at <= |b|
    ensures Grows(HeadAt(ok, b, at), HeadAt(ok, b + more, at), |b|)
  {
    hide Place, FormatOf, Load, Contents, ExtContents;
    if at < |b| {
      FormatWidths(b[at]);
      assert (b + more)[at] == b[at];
      match FormatOf(b[at])
      case Fixed(n) => ContentsStable(b, more, at + 1, n);
      case Counted(w) =>
        LoadStable(b, more, at + 1, w);
        if at + 1 + w <= |b| {
          ContentsStable(b, more, at + 1 + w, Load(b, at + 1, w));
        } else {
          ContentsBeyond(b + more, at + 1 + w);
        }
      case FixExt(n) =>
        if at + 2 <= |b| {
          ExtStable(ok, b, more, at + 1, at + 2, n);
        } else {
          ExtBeyond(ok, b + more, at + 2);
        }
      case CountedExt(w) =>
        LoadStable(b, more, at + 1, w);
        if at + 2 + w <= |b| {
          ExtStable(ok, b, more, at + 1 + w, at + 2 + w, Load(b, at + 1, w));
        } else {
          ExtBeyond(ok, b + more, at + 2 + w);
        }
      case CountedArray(w) => LoadStable(b, more, at + 1, w);
      case CountedMap(w) => LoadStable(b, more, at + 1, w);
      case _ =>
    }
  }

  lemma LoadStable(b: seq<u8>, more: seq<u8>, at: nat, w: nat)
    requires w <= 8
    ensures at + w <= |b| ==> Load(b + more, at, w) == Load(b, at, w)
  {
    if at + w <= |b| {
      assert (b + more)[at..at + w] == b[at..at + w];
    }
  }

  lemma ContentsStable(b: seq<u8>, more: seq<u8>, from: nat, len: nat)
    ensures Grows(Contents(b, from, len), Contents(b + more, from, len), |b|)
  {
  }

  lemma ContentsBeyond(b: seq<u8>, from: nat)
    ensures forall len :: Contents(b, from, len).Full? ==> Contents(b, from, len).next >= from
  {
  }

  lemma ExtStable(ok: ExtCheck, b: seq<u8>, more: seq<u8>, kindAt: nat, from: nat, len: nat)
    requires kindAt < from <= |b|
    ensures (b + more)[kindAt] == b[kindAt]
    ensures from + len > |b| ==> ExtContents(ok, b, b[kindAt], from, len) == Short
    ensures Grows(ExtContents(ok, b, b[kindAt], from, len), ExtContents(ok, b + more, b[kindAt], from, len), |b|)
  {
    if from + len <= |b| {
      assert (b + more)[from..from + len] == b[from..from + len];
    }
  }

  lemma ExtBeyond(ok: ExtCheck, b: seq<u8>, from: nat)
    ensures forall kind, len :: ExtContents(ok, b, kind, from, len).Full? ==>
      ExtContents(ok, b, kind, from, len).next >= from
  {
  }

  lemma FlatStops(ok: ExtCheck, b: seq<u8>, at: nat, k: nat)
    requires at <= |b| && k > 0
    ensures var h, r := HeadAt(ok, b, at), Flat(ok, b, at, k);
      match h
      case Full(_, _) => true
      case Short => r == Truncated(at, k)
      case Illegal => r == IllegalAt(at)
      case Refused(kind, from, len) => r == RefusedAt(kind, from, len)
  {
    hide HeadAt;
  }

  /** More bytes never change a verdict other than "truncated"; and a buffer that was truncated
    * with `left` values due at `pos` can only be completed beyond its end, by `left` bytes or more. */
  lemma {:induction false} ScanMore(ok: ExtCheck, b: seq<u8>, more: seq<u8>, at: nat, k: nat)
    requires at <= |b|
    ensures var r, r' := Flat(ok, b, at, k), Flat(ok, b + more, at, k);
      && (!r.Truncated? ==> r' == r)
      && (r.Truncated? && r'.Done? ==> r'.end > |b| && r'.end >= r.pos + r.left)
    decreases |b| - at
  {
    hide HeadAt, Flat;
    if k == 0 {
      NothingRead(ok, b, at);
      NothingRead(ok, b + more, at);
    } else {
      HeadStable(ok, b, more, at);
      FlatStep(ok, b, at, k);
      FlatStep(ok, b + more, at, k);
      FlatStops(ok, b, at, k);
      FlatStops(ok, b + more, at, k);
      var h := HeadAt(ok, b, at);
      if h.Full? {
        ScanMore(ok, b, more, h.next, k - 1 + h.arity);
      }
    }
  }
}
