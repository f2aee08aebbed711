/** The iterative MessagePack readers: one counter of values still due stands for all the nesting. */
module MsgPackScan {
  import opened NumberTheory
  import opened Words
  import opened Bytes
  import opened MsgPack

  // ---------- The hint table ----------

  const HINT := -32
  const STR_8 := HINT
  const STR_16 := HINT - 1
  const STR_32 := HINT - 2
  const ARRAY_16 := HINT - 3
  const ARRAY_32 := HINT - 4
  const MAP_16 := HINT - 5
  const MAP_32 := HINT - 6
  const EXT_8 := HINT - 7
  const EXT_16 := HINT - 8
  const EXT_32 := HINT - 9
  const INVALID := HINT - 10

  /** `mp_parser_hint`: how many bytes follow; or minus how many values; or what to read next. */
  function Hint(c: u8): int
  {
    if c <= 0x7f then 0
    else if c <= 0x8f then -2 * (c - 0x80)
    else if c <= 0x9f then -(c - 0x90)
    else if c <= 0xbf then c - 0xa0
    else if c == 0xc1 then INVALID
    else if c <= 0xc3 then 0
    else if c <= 0xc6 then STR_8 - (c - 0xc4)
    else if c <= 0xc9 then EXT_8 - (c - 0xc7)
    else if c == 0xca then 4
    else if c == 0xcb then 8
    else if c == 0xcc || c == 0xd0 then 1
    else if c == 0xcd || c == 0xd1 then 2
    else if c == 0xce || c == 0xd2 then 4
    else if c == 0xcf || c == 0xd3 then 8
    else if c == 0xd4 then 2
    else if c == 0xd5 then 3
    else if c == 0xd6 then 5
    else if c == 0xd7 then 9
    else if c == 0xd8 then 17
    else if c <= 0xdb then STR_8 - (c - 0xd9)
    else if c <= 0xdd then ARRAY_16 - (c - 0xdc)
    else if c <= 0xdf then MAP_16 - (c - 0xde)
    else 0
  }

  /** The hint of a byte and its format say the same. */
  lemma HintIsFormat(c: u8)
    ensures var l, f := Hint(c), FormatOf(c);
      && (l >= 0 && 0xd4 <= c <= 0xd8 <==> f.FixExt?)
      && (f.FixExt? ==> l == f.n + 1)
      && (l > 0 && !(0xd4 <= c <= 0xd8) ==> f == Fixed(l))
      && (l == 0 ==> f == Fixed(0) || f == FixGroup(0))
      && (HINT < l < 0 ==> f == FixGroup(-l))
      && (l == STR_8 <==> f == Counted(1)) && (l == STR_16 <==> f == Counted(2))
      && (l == STR_32 <==> f == Counted(4))
      && (l == ARRAY_16 <==> f == CountedArray(2)) && (l == ARRAY_32 <==> f == CountedArray(4))
      && (l == MAP_16 <==> f == CountedMap(2)) && (l == MAP_32 <==> f == CountedMap(4))
      && (l == EXT_8 <==> f == CountedExt(1)) && (l == EXT_16 <==> f == CountedExt(2))
      && (l == EXT_32 <==> f == CountedExt(4)) && (l == INVALID <==> f == Never)
      && INVALID <= l <= 31
  {
  }

  /** How wide the length or count behind a first byte is. */
  function Width(l: int): nat
    requires INVALID < l <= HINT
  {
    if l == STR_8 || l == EXT_8 then 1
    else if l == STR_16 || l == ARRAY_16 || l == MAP_16 || l == EXT_16 then 2
    else 4
  }

  // ---------- Checking ----------

  /** What a read of one value's head does to the reader. */
  datatype Step =
    | Next(at: nat, due: nat)
    | Stop(verdict: Scan)

  /** The step that the head at `at` calls for, with `k` values due. */
  function StepAt(ok: ExtCheck, b: seq<u8>, at: nat, k: nat): Step
    requires at <= |b| && k > 0
  {
    match HeadAt(ok, b, at)
    case Full(next, arity) => Next(next, k - 1 + arity)
    case Short => Stop(Truncated(at, k))
    case Illegal => Stop(IllegalAt(at))
    case Refused(kind, from, len) => Stop(RefusedAt(kind, from, len))
  }

  lemma StepFlat(ok: ExtCheck, b: seq<u8>, at: nat, k: nat)
    requires at <= |b| && k > 0
    ensures match StepAt(ok, b, at, k)
      case Next(at', due) => at < at' <= |b| && Flat(ok, b, at', due) == Flat(ok, b, at, k)
      case Stop(verdict) => Flat(ok, b, at, k) == verdict && !verdict.Done?
  {
    hide HeadAt, Flat;
    FlatStep(ok, b, at, k);
    FlatStops(ok, b, at, k);
  }

  /** From this many bytes on a counter that started at one value can outgrow 64 bits. */
  const LIMIT := 0x1_4000_0005

  /** The most that `n` bytes can add to the counter: five of them are a map header that announces
    * 2^32 - 1 pairs and stands for one value itself, and fewer than five can do no better than this. */
  function Most(n: nat): nat { n / 5 * 0x1_FFFF_FFFD + n % 5 * 131069 }

  ghost predicate Bounded(b: seq<u8>, start: nat, at: nat, k: int)
  {
    |b| - start < LIMIT && start <= at <= |b| && 0 <= k <= 1 + Most(at - start)
  }

  lemma MostNext(n: nat)
    ensures Most(n + 1) >= Most(n) + 131069
    ensures Most(n + 5) == Most(n) + 0x1_FFFF_FFFD
  {
  }

  lemma {:induction false} MostGrows(m: nat, n: nat)
    requires m <= n
    ensures Most(m) <= Most(n)
    decreases n
  {
    hide Most;
    if m < n {
      MostNext(n - 1);
      MostGrows(m, n - 1);
    }
  }

  /** A head of less than five bytes adds at most 131069, any other at most 2^33 - 3. */
  lemma HeadAdds(ok: ExtCheck, b: seq<u8>, at: nat)
    requires at <= |b|
    ensures var h := HeadAt(ok, b, at);
      h.Full? ==> at < h.next <= |b| && h.arity - 1 <= if h.next < at + 5 then 131069 else 0x1_FFFF_FFFD
  {
    hide FormatOf, Load, Place;
    if at < |b| {
      CountWidths(b[at]);
      WidthPlaces();
    }
  }

  lemma CountWidths(c: u8)
    ensures var f := FormatOf(c);
      && (f.FixGroup? ==> f.n <= 30)
      && (f.Counted? || f.CountedExt? || f.CountedArray? || f.CountedMap? ==> f.w <= 4)
      && (f.CountedArray? || f.CountedMap? ==> f.w == 2 || f.w == 4)
  {
  }

  lemma StaysBounded(ok: ExtCheck, b: seq<u8>, start: nat, at: nat, k: nat)
    requires k > 0 && Bounded(b, start, at, k)
    ensures StepAt(ok, b, at, k).Next? ==> Bounded(b, start, StepAt(ok, b, at, k).at, StepAt(ok, b, at, k).due)
  {
    hide HeadAt, Most;
    HeadAdds(ok, b, at);
    var h := HeadAt(ok, b, at);
    if h.Full? {
      MostNext(at - start);
      if h.next < at + 5 {
        MostGrows(at - start + 1, h.next - start);
      } else {
        MostGrows(at - start + 5, h.next - start);
      }
    }
  }

  /** `n` steps from the start of a buffer. */
  function After(ok: ExtCheck, b: seq<u8>, n: nat): (s: Step)
    ensures s.Next? ==> s.at <= |b|
    decreases n
  {
    if n == 0 then Next(0, 1)
    else
      var s := After(ok, b, n - 1);
      if s.Stop? || s.due == 0 then s else StepWithin(ok, b, s.at, s.due); StepAt(ok, b, s.at, s.due)
  }

  lemma StepWithin(ok: ExtCheck, b: seq<u8>, at: nat, k: nat)
    requires at <= |b| && k > 0
    ensures StepAt(ok, b, at, k).Next? ==> StepAt(ok, b, at, k).at <= |b|
  {
  }

  /** A buffer of map headers, each of them announcing as many pairs as it can; the last may be cut. */
  ghost predicate MapHeaders(b: seq<u8>)
  {
    forall i :: 0 <= i < |b| ==> b[i] == HeaderByte(i)
  }

  function HeaderByte(i: nat): u8 { if i % 5 == 0 then 0xdf else 0xff }

  lemma {:induction false} SomeHeaders(n: nat) returns (b: seq<u8>)
    ensures |b| == n && MapHeaders(b)
  {
    if n == 0 {
      b := [];
    } else {
      var rest := SomeHeaders(n - 1);
      b := rest + [HeaderByte(n - 1)];
    }
  }

  lemma {:induction false} HeadersDue(ok: ExtCheck, b: seq<u8>, m: nat)
    requires MapHeaders(b) && 5 * m <= |b|
    ensures After(ok, b, m) == Next(5 * m, 1 + m * 0x1_FFFF_FFFD)
    decreases m
  {
    hide StepAt, MapHeaders;
    if m > 0 {
      MapHeaderAt(b, m - 1);
      HeadersDue(ok, b, m - 1);
      HeaderStep(ok, b, 5 * (m - 1), 1 + (m - 1) * 0x1_FFFF_FFFD);
    }
  }

  lemma MapHeaderAt(b: seq<u8>, i: nat)
    requires MapHeaders(b) && 5 * i + 5 <= |b|
    ensures b[5 * i..5 * i + 5] == [0xdf, 0xff, 0xff, 0xff, 0xff]
  {
  }

  lemma HeaderStep(ok: ExtCheck, b: seq<u8>, at: nat, k: nat)
    requires at + 5 <= |b| && b[at..at + 5] == [0xdf, 0xff, 0xff, 0xff, 0xff] && k > 0
    ensures StepAt(ok, b, at, k) == Next(at + 5, k + 0x1_FFFF_FFFD)
  {
    hide Load;
    FullCount(b, at);
    assert FormatOf(0xdf) == CountedMap(4);
  }

  lemma FullCount(b: seq<u8>, at: nat)
    requires at + 5 <= |b| && b[at..at + 5] == [0xdf, 0xff, 0xff, 0xff, 0xff]
    ensures b[at] == 0xdf && Load(b, at + 1, 4) == 0xFFFF_FFFF
  {
    hide BigEndian;
    assert b[at] == b[at..at + 5][0] && b[at + 1..at + 5] == b[at..at + 5][1..] == [0xff, 0xff, 0xff, 0xff];
    Pushed([], 0xff);
    Pushed([0xff], 0xff);
    Pushed([0xff, 0xff], 0xff);
    Pushed([0xff, 0xff, 0xff], 0xff);
    NoDigits();
    assert [] + [0xff] == [0xff] && [0xff] + [0xff] == [0xff, 0xff] && [0xff, 0xff] + [0xff] == [0xff, 0xff, 0xff];
    assert [0xff, 0xff, 0xff] + [0xff] == [0xff, 0xff, 0xff, 0xff];
  }

  /** The counter of `mp_check` never leaves 64 bits, not even before it is decremented. */
  ghost predicate CounterFits(ok: ExtCheck, b: seq<u8>)
  {
    forall m: nat :: After(ok, b, m).Next? ==> After(ok, b, m).due < 0x7fff_ffff_ffff_ffff
  }

  lemma {:induction false} BoundedAfter(ok: ExtCheck, b: seq<u8>, m: nat)
    requires |b| < LIMIT
    ensures var s := After(ok, b, m); s.Next? ==> Bounded(b, 0, s.at, s.due)
  {
    hide StepAt, Bounded;
    if m == 0 {
      BoundedStart(b, 0);
    } else {
      BoundedAfter(ok, b, m - 1);
      var s := After(ok, b, m - 1);
      if s.Next? && s.due > 0 {
        StaysBounded(ok, b, 0, s.at, s.due);
      }
    }
  }

  lemma BoundedWord(b: seq<u8>, start: nat, at: nat, k: int)
    requires Bounded(b, start, at, k)
    ensures k < 0x7fff_ffff_ffff_ffff
  {
  }

  lemma BoundedStart(b: seq<u8>, start: nat)
    requires start <= |b| < start + LIMIT
    ensures Bounded(b, start, start, 1)
  {
  }

  /** A buffer of map headers of `LIMIT` bytes or more takes the counter out of 64 bits. */
  lemma CounterOverflows(ok: ExtCheck, b: seq<u8>)
    requires MapHeaders(b) && |b| >= LIMIT
    ensures After(ok, b, 0x4000_0001) == Next(LIMIT, 0x8000_0001_3FFF_FFFE)
    ensures !CounterFits(ok, b)
  {
    hide After, MapHeaders;
    HeadersDue(ok, b, 0x4000_0001);
  }

  /** The lengths at which no buffer takes the counter out of 64 bits. */
  lemma CounterFitsIff(ok: ExtCheck, n: nat)
    ensures n < LIMIT <==> forall b: seq<u8> :: |b| == n ==> CounterFits(ok, b)
  {
    hide After, MapHeaders;
    if n < LIMIT {
      forall b: seq<u8> | |b| == n ensures CounterFits(ok, b) {
        forall m: nat | After(ok, b, m).Next? ensures After(ok, b, m).due < 0x7fff_ffff_ffff_ffff {
          BoundedAfter(ok, b, m);
          BoundedWord(b, 0, After(ok, b, m).at, After(ok, b, m).due);
        }
      }
    } else {
      var b := SomeHeaders(n);
      CounterOverflows(ok, b);
    }
  }

  /** One round of the loop of `mp_check` for a hint that says how much follows. */
  method CheckFixed(ok: ExtCheck, b: seq<u8>, pos: nat, k: nat) returns (s: Step)
    requires pos < |b| && k > 0 && Hint(b[pos]) > HINT
    ensures s == StepAt(ok, b, pos, k)
  {
    hide Place, FormatOf, Hint, Load;
    var c, at := b[pos], pos + 1;
    var l := Hint(c);
    HintIsFormat(c);
    if l >= 0 {
      if |b| - at < l {
        return Stop(Truncated(pos, k));
      }
      if 0xd4 <= c <= 0xd8 {
        var len := l - 1;
        var kind := b[at];
        at := at + 1;
        if !ok(kind, b[at..at + len]) {
          return Stop(RefusedAt(kind, at, len));
        }
        at := at + len;
      } else {
        at := at + l;
      }
      return Next(at, k - 1);
    }
    return Next(at, k - l - 1);
  }

  /** One round of the loop of `mp_check` for a length or count to be read. */
  method CheckCounted(ok: ExtCheck, b: seq<u8>, pos: nat, k: nat) returns (s: Step)
    requires pos < |b| && k > 0 && Hint(b[pos]) <= HINT
    ensures s == StepAt(ok, b, pos, k)
  {
    hide Place, FormatOf, Hint, Load;
    var at := pos + 1;
    var l := Hint(b[pos]);
    HintIsFormat(b[pos]);
    if l == INVALID {
      return Stop(IllegalAt(pos));
    }
    var w := Width(l);
    if l == STR_8 || l == STR_16 || l == STR_32 {
      if |b| - at < w {
        return Stop(Truncated(pos, k));
      }
      var len := Load(b, at, w);
      at := at + w;
      if |b| - at < len {
        return Stop(Truncated(pos, k));
      }
      return Next(at + len, k - 1);
    } else if l == ARRAY_16 || l == ARRAY_32 {
      if |b| - at < w {
        return Stop(Truncated(pos, k));
      }
      return Next(at + w, k + Load(b, at, w) - 1);
    } else if l == MAP_16 || l == MAP_32 {
      if |b| - at < w {
        return Stop(Truncated(pos, k));
      }
      return Next(at + w, k + 2 * Load(b, at, w) - 1);
    } else {
      if |b| - at < w + 1 {
        return Stop(Truncated(pos, k));
      }
      var len := Load(b, at, w);
      var kind := b[at + w];
      at := at + w + 1;
      if |b| - at < len {
        return Stop(Truncated(pos, k));
      }
      if !ok(kind, b[at..at + len]) {
        return Stop(RefusedAt(kind, at, len));
      }
      return Next(at + len, k - 1);
    }
  }

  /** `mp_check`: succeeds exactly on a value of the grammar, and then stops at its end. */
  method Check(ok: ExtCheck, b: seq<u8>, start: nat) returns (r: Scan)
    requires start <= |b| < start + LIMIT
    ensures r.Done? <==> exists v :: ValueAt(ok, b, start, v)
    ensures forall v :: ValueAt(ok, b, start, v) ==> r == Done(start + |Written(v)|)
    ensures r == Flat(ok, b, start, 1)
  {
    hide Flat, HeadAt, ValueAt, StepAt, Hint;
    ScanIffValue(ok, b, start);
    forall v | ValueAt(ok, b, start, v) ensures Flat(ok, b, start, 1) == Done(start + |Written(v)|) {
      ValueIsFound(ok, b, start, v);
    }
    var at: nat, k: i64 := start, 1;
    while k > 0
      invariant Bounded(b, start, at, k)
      invariant Flat(ok, b, at, k) == Flat(ok, b, start, 1)
      decreases |b| - at
    {
      StepFlat(ok, b, at, k);
      StaysBounded(ok, b, start, at, k);
      var s: Step;
      if |b| - at < 1 {
        NothingLeft(ok, b, at, k);
        return Truncated(at, k);
      } else if Hint(b[at]) > HINT {
        s := CheckFixed(ok, b, at, k);
      } else {
        s := CheckCounted(ok, b, at, k);
      }
      if s.Stop? {
        return s.verdict;
      }
      at, k := s.at, s.due;
    }
    NothingRead(ok, b, at);
    r := Done(at);
  }

  lemma NothingLeft(ok: ExtCheck, b: seq<u8>, at: nat, k: nat)
    requires at == |b| && k > 0
    ensures StepAt(ok, b, at, k) == Stop(Truncated(at, k))
  {
  }

  /** `mp_check_exact`: the value must be all there is. */
  method CheckExact(ok: ExtCheck, b: seq<u8>, start: nat) returns (valid: bool)
    requires start <= |b| < start + LIMIT
    ensures valid <==> exists v :: WellFormed(ok, v) && b[start..] == Written(v)
  {
    hide Flat, WellFormed, Written;
    var r := Check(ok, b, start);
    valid := r.Done? && r.end == |b|;
    ExactValue(ok, b, start, r);
  }

  lemma ExactValue(ok: ExtCheck, b: seq<u8>, start: nat, r: Scan)
    requires start <= |b| && (r.Done? <==> exists v :: ValueAt(ok, b, start, v))
    requires forall v :: ValueAt(ok, b, start, v) ==> r == Done(start + |Written(v)|)
    ensures r.Done? && r.end == |b| <==> exists v :: WellFormed(ok, v) && b[start..] == Written(v)
  {
    hide WellFormed, Written;
    if r.Done? && r.end == |b| {
      var v :| ValueAt(ok, b, start, v);
      assert b[start..] == Written(v);
    }
    if v :| WellFormed(ok, v) && b[start..] == Written(v) {
      assert b[start..start + |Written(v)|] == Written(v);
      assert ValueAt(ok, b, start, v);
    }
  }

  // ---------- Skipping ----------

  /** Where `k` values end, in a buffer that holds them. */
  ghost predicate Holds(ok: ExtCheck, b: seq<u8>, at: nat, k: nat, end: nat)
  {
    at <= |b| && Flat(ok, b, at, k) == Done(end)
  }

  /** A value that is there is stepped over as a whole. */
  lemma HoldsStep(ok: ExtCheck, b: seq<u8>, at: nat, k: nat, end: nat)
    requires Holds(ok, b, at, k, end) && k > 0
    ensures at < |b| && HeadAt(ok, b, at).Full?
    ensures Holds(ok, b, HeadAt(ok, b, at).next, k - 1 + HeadAt(ok, b, at).arity, end)
  {
    hide HeadAt, Flat;
    FlatStep(ok, b, at, k);
    FlatStops(ok, b, at, k);
    if at == |b| {
      AtEnd(ok, b, at);
    }
  }

  lemma AtEnd(ok: ExtCheck, b: seq<u8>, at: nat)
    requires at == |b|
    ensures HeadAt(ok, b, at) == Short
  {
  }

  /** `c` times 0x0101010101010101 is the word of eight bytes `c`, and no other word is. */
  lemma {:induction false} EightEqual(s: seq<u8>, c: u8)
    requires |s| == 8
    ensures BigEndian(s) == c * 0x0101_0101_0101_0101 <==> s == [c, c, c, c, c, c, c, c]
  {
    hide BigEndian;
    var t := [c, c, c, c, c, c, c, c];
    WordOfOne(c);
    NumberOfDigits(s);
    NumberOfDigits(t);
  }

  lemma WordOfOne(c: u8)
    ensures BigEndian([c, c, c, c, c, c, c, c]) == c * 0x0101_0101_0101_0101
  {
    hide BigEndian;
    Pushed([], c);
    Pushed([c], c);
    Pushed([c, c], c);
    Pushed([c, c, c], c);
    Pushed([c, c, c, c], c);
    Pushed([c, c, c, c, c], c);
    Pushed([c, c, c, c, c, c], c);
    Pushed([c, c, c, c, c, c, c], c);
    NoDigits();
    assert [] + [c] == [c] && [c] + [c] == [c, c] && [c, c] + [c] == [c, c, c];
    assert [c, c, c] + [c] == [c, c, c, c] && [c, c, c, c] + [c] == [c, c, c, c, c];
    assert [c, c, c, c, c] + [c] == [c, c, c, c, c, c] && [c, c, c, c, c, c] + [c] == [c, c, c, c, c, c, c];
    assert [c, c, c, c, c, c, c] + [c] == [c, c, c, c, c, c, c, c];
  }

  lemma Pushed(s: seq<u8>, d: u8)
    ensures BigEndian(s + [d]) == BigEndian(s) * 0x100 + d
  {
    assert (s + [d])[..|s|] == s;
  }

  lemma NoDigits()
    ensures BigEndian([]) == 0
  {
  }

  /** A byte that is a value of its own. */
  lemma OneByteStep(ok: ExtCheck, b: seq<u8>, at: nat, k: nat, end: nat)
    requires Holds(ok, b, at, k, end) && k > 0 && Hint(b[at]) == 0
    ensures Holds(ok, b, at + 1, k - 1, end)
  {
    hide Flat, FormatOf, Hint;
    HoldsStep(ok, b, at, k, end);
    HintIsFormat(b[at]);
  }

  /** So are eight equal ones. */
  lemma {:induction false} EqualSteps(ok: ExtCheck, b: seq<u8>, at: nat, k: nat, end: nat, c: u8, n: nat)
    requires Holds(ok, b, at, k, end) && n <= k && Hint(c) == 0 && at + n <= |b|
    requires forall i :: at <= i < at + n ==> b[i] == c
    ensures Holds(ok, b, at + n, k - n, end)
    decreases n
  {
    hide Holds, Hint;
    if n > 0 {
      HoldsInside(ok, b, at, k, end);
      OneByteStep(ok, b, at, k, end);
      EqualSteps(ok, b, at + 1, k - 1, end, c, n - 1);
    }
  }

  /** `k` values take at least `k` bytes. */
  lemma HoldsInside(ok: ExtCheck, b: seq<u8>, at: nat, k: nat, end: nat)
    requires Holds(ok, b, at, k, end)
    ensures at + k <= end <= |b|
  {
  }

  /** The inner loop of the slow path: words of eight equal values, while more than eight are due.
    * `k` counts the value already read, too. */
  method SkipEqual(b: seq<u8>, from: nat, due: nat, c: u8, ghost ok: ExtCheck, ghost end: nat)
    returns (at: nat, k: nat)
    requires due > 0 && Holds(ok, b, from, due - 1, end) && Hint(c) == 0
    ensures from <= at && 0 < k <= due && Holds(ok, b, at, k - 1, end)
  {
    hide Holds, Hint;
    at, k := from, due;
    while k > 8
      invariant from <= at && 0 < k <= due && Holds(ok, b, at, k - 1, end)
    {
      HoldsInside(ok, b, at, k - 1, end);
      var u := Load(b, at, 8);
      EightEqual(b[at..at + 8], c);
      if u != c * 0x0101_0101_0101_0101 {
        break;
      }
      EqualBytes(b, at, c);
      EqualSteps(ok, b, at, k - 1, end, c, 8);
      at := at + 8;
      k := k - 8;
    }
  }

  lemma EqualBytes(b: seq<u8>, at: nat, c: u8)
    requires at + 8 <= |b| && b[at..at + 8] == [c, c, c, c, c, c, c, c]
    ensures forall i :: at <= i < at + 8 ==> b[i] == c
  {
    forall i | at <= i < at + 8 ensures b[i] == c {
      assert b[i] == b[at..at + 8][i - at];
    }
  }

  /** The lengths and counts of the slow path. */
  method SkipCounted(b: seq<u8>, pos: nat, k: nat, ghost ok: ExtCheck) returns (at: nat, due: nat)
    requires pos < |b| && k > 0 && Hint(b[pos]) <= HINT && HeadAt(ok, b, pos).Full?
    ensures Next(at, due) == StepAt(ok, b, pos, k)
  {
    hide Place, FormatOf, Hint, Load;
    at := pos + 1;
    var l := Hint(b[pos]);
    HintIsFormat(b[pos]);
    var w := Width(l);
    var n := Load(b, at, w);
    at := at + w;
    due := k - 1;
    if l == STR_8 || l == STR_16 || l == STR_32 {
      at := at + n;
    } else if l == ARRAY_16 || l == ARRAY_32 {
      due := due + n;
    } else if l == MAP_16 || l == MAP_32 {
      due := due + 2 * n;
    } else {
      at := at + 1 + n;
    }
  }

  /** A byte whose hint says what follows. */
  lemma FixedStep(ok: ExtCheck, b: seq<u8>, at: nat, k: nat)
    requires at < |b| && k > 0 && Hint(b[at]) > HINT && HeadAt(ok, b, at).Full?
    ensures var l := Hint(b[at]);
      StepAt(ok, b, at, k) == if l >= 0 then Next(at + 1 + l, k - 1) else Next(at + 1, k - 1 - l)
  {
    hide FormatOf, Hint;
    HintIsFormat(b[at]);
  }

  /** No buffer is longer than a pointer difference can say. */
  const ADDRESSABLE := 0x7fff_ffff_ffff_ffff

  /** `mp_next_slowpath` */
  method NextSlowpath(b: seq<u8>, from: nat, due: nat, ghost ok: ExtCheck, ghost end: nat)
    returns (at: nat)
    requires Holds(ok, b, from, due, end) && |b| < ADDRESSABLE
    ensures at == end
  {
    hide Holds, Hint, HeadAt, StepAt;
    at := from;
    HoldsInside(ok, b, at, due, end);
    var k: i64 := due;
    while k > 0
      invariant 0 <= k && Holds(ok, b, at, k, end)
      decreases |b| - at
    {
      StepReady(ok, b, at, k, end);
      var c := b[at];
      var l := Hint(c);
      if l > HINT {
        FixedStep(ok, b, at, k);
        if l == 0 && k % 64 == 0 {
          OneByteStep(ok, b, at, k, end);
          at, k := SkipEqual(b, at + 1, k, c, ok, end);
          HoldsInside(ok, b, at, k - 1, end);
        } else if l >= 0 {
          at := at + 1 + l;
        } else {
          at := at + 1;
          k := k - l;
        }
        k := k - 1;
      } else {
        at, k := SkipCounted(b, at, k, ok);
      }
    }
    HoldsNone(ok, b, at, end);
  }

  lemma HoldsNone(ok: ExtCheck, b: seq<u8>, at: nat, end: nat)
    requires Holds(ok, b, at, 0, end)
    ensures at == end
  {
  }

  /** In a buffer that holds the values due the counter cannot exceed the bytes left. */
  lemma StepReady(ok: ExtCheck, b: seq<u8>, at: nat, k: nat, end: nat)
    requires Holds(ok, b, at, k, end) && k > 0
    ensures at < |b| && HeadAt(ok, b, at).Full? && StepAt(ok, b, at, k).Next?
    ensures var s := StepAt(ok, b, at, k); at < s.at && Holds(ok, b, s.at, s.due, end) && s.due <= |b|
  {
    hide HeadAt, Flat;
    HoldsStep(ok, b, at, k, end);
    HoldsInside(ok, b, StepAt(ok, b, at, k).at, StepAt(ok, b, at, k).due, end);
  }

  /** `mp_next`: steps over the value at `start`, whatever its nesting. */
  method Skip(b: seq<u8>, start: nat, ghost ok: ExtCheck, ghost v: Value) returns (at: nat)
    requires |b| < ADDRESSABLE && ValueAt(ok, b, start, v)
    ensures at == start + |Written(v)|
  {
    hide Holds, Hint, HeadAt, StepAt, ValueAt;
    ghost var end := start + |Written(v)|;
    ValueIsHeld(ok, b, start, v);
    at := start;
    var k: i64 := 1;
    while k > 0
      invariant 0 <= k && Holds(ok, b, at, k, end)
      decreases |b| - at
    {
      StepReady(ok, b, at, k, end);
      var c := b[at];
      var l := Hint(c);
      if l >= 0 {
        FixedStep(ok, b, at, k);
        at := at + 1 + l;
      } else if c == 0xd9 {
        Str8Step(ok, b, at, k);
        at := at + 2 + b[at + 1];
      } else if l > HINT {
        FixedStep(ok, b, at, k);
        at := at + 1;
        k := k - l;
      } else {
        at := NextSlowpath(b, at, k, ok, end);
        return;
      }
      k := k - 1;
    }
    HoldsNone(ok, b, at, end);
  }

  lemma ValueIsHeld(ok: ExtCheck, b: seq<u8>, start: nat, v: Value)
    requires ValueAt(ok, b, start, v)
    ensures Holds(ok, b, start, 1, start + |Written(v)|)
  {
    hide Flat, Written, WellFormed;
    ValueIsFound(ok, b, start, v);
  }

  lemma Str8Step(ok: ExtCheck, b: seq<u8>, at: nat, k: nat)
    requires at < |b| && k > 0 && b[at] == 0xd9 && HeadAt(ok, b, at).Full?
    ensures at + 1 < |b| && Hint(b[at]) == STR_8
    ensures StepAt(ok, b, at, k) == Next(at + 2 + b[at + 1], k - 1)
  {
    hide BigEndian;
    assert FormatOf(0xd9) == Counted(1);
    OneByteNumber(b, at + 1);
  }

  lemma OneByteNumber(b: seq<u8>, at: nat)
    ensures at + 1 <= |b| ==> Load(b, at, 1) == b[at]
  {
    if at + 1 <= |b| {
      Pushed([], b[at]);
      NoDigits();
      assert [] + [b[at]] == b[at..at + 1];
    }
  }
}
