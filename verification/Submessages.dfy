/** RTPS sequence numbers and the ACKNACK and GAP submessages (section 9.4 of RTPS 2.3). */
module Submessages {
  import opened Wire

  type EntityId = e: Bytes | |e| == 4 witness [0, 0, 0, 0]

  const ACKNACK_ID: byte := 0x06
  const GAP_ID: byte := 0x08
  const FLAG_ENDIANNESS: byte := 0x01

  datatype RawSequenceNumber = SequenceNumber(high: int, low: nat)

  /** A sequence number as it travels: a signed high word and an unsigned low word. */
  type SequenceNumber = s: RawSequenceNumber | FitsSigned(s.high, 4) && s.low < 0x1_0000_0000
    witness (Pow256Values(); SequenceNumber(0, 0))

  function SnToU64(s: SequenceNumber): (n: U64)
  {
    Pow256Values();
    ToUnsigned(s.high, 4) * 0x1_0000_0000 + s.low
  }

  function U64ToSn(n: U64): (s: SequenceNumber)
  {
    Pow256Values();
    assert n / 0x1_0000_0000 < 0x1_0000_0000;
    SequenceNumber(ToSigned(n / 0x1_0000_0000, 4), n % 0x1_0000_0000)
  }

  /** The high word counts multiples of 2^32, a negative one in two's complement. */
  lemma SnValue(s: SequenceNumber)
    ensures var n := s.high * 0x1_0000_0000 + s.low;
      SnToU64(s) == if s.high < 0 then n + 0x1_0000_0000_0000_0000 else n
  {
    Pow256Values();
    TwosComplement(s.high, 0, 4);
  }

  lemma SnRoundTrip(n: U64, s: SequenceNumber)
    ensures SnToU64(U64ToSn(n)) == n
    ensures U64ToSn(SnToU64(s)) == s
  {
    Pow256Values();
    SignRoundTrip(s.high, 4);
    var h := ToUnsigned(s.high, 4);
    assert (h * 0x1_0000_0000 + s.low) / 0x1_0000_0000 == h;
    assert (h * 0x1_0000_0000 + s.low) % 0x1_0000_0000 == s.low;
  }

  lemma SnInjective(s: SequenceNumber, t: SequenceNumber)
    requires SnToU64(s) == SnToU64(t)
    ensures s == t
  {
    SnRoundTrip(SnToU64(s), s);
    SnRoundTrip(SnToU64(t), t);
  }

  function EncodeSn(s: SequenceNumber): (bs: Bytes)
    ensures |bs| == 8
  {
    LE(ToUnsigned(s.high, 4), 4) + LE(s.low, 4)
  }

  function DecodeSn(bs: Bytes): (s: SequenceNumber)
    requires |bs| == 8
  {
    Pow256Values();
    SequenceNumber(ToSigned(UnLE(bs[..4]), 4), UnLE(bs[4..]))
  }

  /** On the wire the high word comes first, each word with its low-order byte first. */
  lemma SnLayout(s: SequenceNumber)
    ensures UnLE(EncodeSn(s)[..4]) == (if s.high < 0 then s.high + 0x1_0000_0000 else s.high)
    ensures UnLE(EncodeSn(s)[4..]) == s.low
  {
    Pow256Values();
    TwosComplement(s.high, 0, 4);
    assert EncodeSn(s)[..4] == LE(ToUnsigned(s.high, 4), 4) && EncodeSn(s)[4..] == LE(s.low, 4);
    UnLEOfLE(ToUnsigned(s.high, 4), 4);
    UnLEOfLE(s.low, 4);
  }

  lemma SnWireRoundTrip(s: SequenceNumber)
    ensures DecodeSn(EncodeSn(s)) == s
  {
    Pow256Values();
    assert EncodeSn(s)[..4] == LE(ToUnsigned(s.high, 4), 4);
    assert EncodeSn(s)[4..] == LE(s.low, 4);
    UnLEOfLE(ToUnsigned(s.high, 4), 4);
    UnLEOfLE(s.low, 4);
    SignRoundTrip(s.high, 4);
  }

  // ------------------------------------------------------------------- framing

  datatype Submessage = Submessage(id: byte, flags: byte, body: Bytes)

  predicate LittleEndian(m: Submessage)
  {
    m.flags % 2 == 1
  }

  /** The bytes of a submessage; its length field follows its own endianness flag. */
  function Frame(m: Submessage): (bs: Bytes)
    ensures |bs| == 4 + |m.body|
  {
    var len := LE(|m.body|, 2);
    [m.id, m.flags] + (if LittleEndian(m) then len else [len[1], len[0]]) + m.body
  }

  function FrameAll(ms: seq<Submessage>): Bytes
  {
    if ms == [] then [] else Frame(ms[0]) + FrameAll(ms[1..])
  }

  function OnlyLittleEndian(ms: seq<Submessage>): seq<Submessage>
  {
    if ms == [] then []
    else (if LittleEndian(ms[0]) then [ms[0]] else []) + OnlyLittleEndian(ms[1..])
  }

  function BodyLength(bs: Bytes): (n: nat)
    requires |bs| >= 4
    ensures n < 0x1_0000
  {
    Pow256Values();
    if bs[1] % 2 == 1 then UnLE(bs[2..4]) else UnLE([bs[3], bs[2]])
  }

  /** The low-order byte of the length comes first exactly when the flag's lowest bit is set. */
  lemma LengthField(bs: Bytes)
    requires |bs| >= 4
    ensures bs[1] % 2 == 1 ==> BodyLength(bs) == bs[2] as int + 256 * bs[3] as int
    ensures bs[1] % 2 == 0 ==> BodyLength(bs) == bs[3] as int + 256 * bs[2] as int
  {
    TwoBytes(bs[2], bs[3]);
    TwoBytes(bs[3], bs[2]);
    assert bs[2..4] == [bs[2], bs[3]];
  }

  lemma TwoBytes(x: byte, y: byte)
    ensures UnLE([x, y]) == x as int + 256 * y as int
  {
    assert [x] + [y] == [x, y];
    LowBytesFirst([x], [y]);
    OneByte(x);
    OneByte(y);
    assert Pow256(1) == 256 * Pow256(0);
  }

  /** Keeping the little-endian submessages: of one, and of a list in two parts. */
  lemma {:induction false} OnlyLittleEndianIs(a: seq<Submessage>, b: seq<Submessage>, m: Submessage)
    ensures OnlyLittleEndian([m]) == if m.flags % 2 == 1 then [m] else []
    ensures OnlyLittleEndian(a + b) == OnlyLittleEndian(a) + OnlyLittleEndian(b)
    decreases |a|
  {
    assert [m][1..] == [];
    if a == [] {
      assert a + b == b;
    } else {
      OnlyLittleEndianIs(a[1..], b, m);
      assert (a + b)[1..] == a[1..] + b;
    }
  }

  /** What the submessage loop hands to its callback, and whether it ended without error. */
  function Split(bs: Bytes): (r: (seq<Submessage>, bool))
    decreases |bs|
  {
    if |bs| < 4 then ([], true)
    else
      var n := BodyLength(bs);
      if n > |bs| - 4 then ([], false)
      else
        var m := Submessage(bs[0], bs[1], bs[4..4 + n]);
        var (ms, ok) := Split(bs[4 + n..]);
        (if LittleEndian(m) then [m] + ms else ms, ok)
  }

  lemma SplitStep(bs: Bytes)
    requires |bs| >= 4 && BodyLength(bs) <= |bs| - 4
    ensures var n := BodyLength(bs);
      var m := Submessage(bs[0], bs[1], bs[4..][..n]);
      && Split(bs).0 == (if LittleEndian(m) then [m] else []) + Split(bs[4..][n..]).0
      && Split(bs).1 == Split(bs[4..][n..]).1
  {
    var n := BodyLength(bs);
    assert bs[4..4 + n] == bs[4..][..n] && bs[4 + n..] == bs[4..][n..];
  }

  /** The callback sees the submessages up to the first one it reports an error for. */
  function Handled(ms: seq<Submessage>, accepts: Submessage -> bool): seq<Submessage>
  {
    if ms == [] then []
    else if accepts(ms[0]) then [ms[0]] + Handled(ms[1..], accepts)
    else [ms[0]]
  }

  /** All of them if it reports none, and otherwise up to and with the first. */
  lemma {:induction false} HandledIs(ms: seq<Submessage>, accepts: Submessage -> bool, k: nat)
    requires k <= |ms| && (forall i :: 0 <= i < k ==> accepts(ms[i])) && (k < |ms| ==> !accepts(ms[k]))
    ensures Handled(ms, accepts) == if k == |ms| then ms else ms[..k + 1]
    decreases k
  {
    if k > 0 {
      HandledIs(ms[1..], accepts, k - 1);
      assert ms == [ms[0]] + ms[1..];
      if k < |ms| { assert ms[..k + 1] == [ms[0]] + ms[1..][..k]; }
    }
  }

  lemma {:induction false} HandledAfter(done: seq<Submessage>, ms: seq<Submessage>, accepts: Submessage -> bool)
    requires forall m <- done :: accepts(m)
    ensures Handled(done + ms, accepts) == done + Handled(ms, accepts)
  {
    if done == [] {
      assert done + ms == ms;
    } else {
      HandledAfter(done[1..], ms, accepts);
      assert (done + ms)[1..] == done[1..] + ms && done == [done[0]] + done[1..];
    }
  }

  /** `calls` have been handled without error and `rest` is still to be parsed. */
  ghost predicate Parsing(bs: Bytes, calls: seq<Submessage>, rest: Bytes, accepts: Submessage -> bool)
  {
    && (forall m <- calls :: accepts(m))
    && calls + Split(rest).0 == Split(bs).0 && Split(rest).1 == Split(bs).1
  }

  lemma ParsingEnds(bs: Bytes, calls: seq<Submessage>, rest: Bytes, accepts: Submessage -> bool)
    requires Parsing(bs, calls, rest, accepts) && Split(rest).0 == []
    ensures Handled(Split(bs).0, accepts) == calls == Split(bs).0
  {
    HandledAfter(calls, [], accepts);
  }

  lemma ParsingStops(bs: Bytes, calls: seq<Submessage>, rest: Bytes, m: Submessage, accepts: Submessage -> bool)
    requires Parsing(bs, calls, rest, accepts) && !accepts(m) && Split(rest).0 != [] && Split(rest).0[0] == m
    ensures Handled(Split(bs).0, accepts) == calls + [m] && m in Split(bs).0
  {
    HandledAfter(calls, Split(rest).0, accepts);
    assert (calls + Split(rest).0)[|calls|] == m;
  }

  lemma ParsingGoesOn(bs: Bytes, calls: seq<Submessage>, rest: Bytes, accepts: Submessage -> bool)
    requires Parsing(bs, calls, rest, accepts) && |rest| >= 4 && BodyLength(rest) <= |rest| - 4
    ensures var n := BodyLength(rest);
      var m := Submessage(rest[0], rest[1], rest[4..][..n]);
      if !LittleEndian(m) then Parsing(bs, calls, rest[4..][n..], accepts)
      else if accepts(m) then Parsing(bs, calls + [m], rest[4..][n..], accepts)
      else Split(rest).0 != [] && Split(rest).0[0] == m
  {
    SplitStep(rest);
    var n := BodyLength(rest);
    Shift(calls, Submessage(rest[0], rest[1], rest[4..][..n]), Split(rest[4..][n..]).0);
  }

  lemma Shift<T>(xs: seq<T>, y: T, zs: seq<T>)
    ensures xs + ([y] + zs) == (xs + [y]) + zs && [] + zs == zs
  {
  }

  method ParseSubmessages(bs: Bytes, accepts: Submessage -> bool) returns (calls: seq<Submessage>, ok: bool)
    ensures calls == Handled(Split(bs).0, accepts)
    ensures ok <==> Split(bs).1 && forall m <- Split(bs).0 :: accepts(m)
  {
    calls := [];
    var rest := bs;
    assert [] + Split(bs).0 == Split(bs).0;
    while |rest| >= 4
      invariant Parsing(bs, calls, rest, accepts)
      decreases |rest|
    {
      var id, flags := rest[0], rest[1];
      var n := BodyLength(rest);
      ghost var was := rest;
      rest := rest[4..];
      if n > |rest| {
        ParsingEnds(bs, calls, was, accepts);
        return calls, false;
      }
      ParsingGoesOn(bs, calls, was, accepts);
      if flags % 2 == 1 {
        var m := Submessage(id, flags, rest[..n]);
        if !accepts(m) {
          ParsingStops(bs, calls, was, m, accepts);
          return calls + [m], false;
        }
        calls := calls + [m];
      }
      rest := rest[n..];
    }
    ParsingEnds(bs, calls, rest, accepts);
    ok := true;
  }

  /** Concatenated submessages are recovered in order, big-endian ones being skipped
      but never desynchronising the ones after them. */
  lemma {:induction false} FramingRoundTrip(ms: seq<Submessage>)
    requires forall m <- ms :: |m.body| < 0x1_0000
    ensures Split(FrameAll(ms)).0 == OnlyLittleEndian(ms) && Split(FrameAll(ms)).1
  {
    if ms != [] {
      FramingRoundTrip(ms[1..]);
      SplitFrame(ms[0], FrameAll(ms[1..]));
    }
  }

  /** The bytes are framed submessages and less than another header. */
  ghost predicate WellFramed(bs: Bytes, ms: seq<Submessage>, tail: Bytes)
  {
    bs == FrameAll(ms) + tail && |tail| < 4 && forall i :: 0 <= i < |ms| ==> |ms[i].body| < 0x1_0000
  }

  /** The loop ends without error exactly on well-framed bytes, and then hands over the
      little-endian ones of the submessages. */
  lemma {:induction false} FramingExact(bs: Bytes)
    ensures Split(bs).1 <==> exists ms, tail :: WellFramed(bs, ms, tail)
    ensures forall ms, tail :: WellFramed(bs, ms, tail) ==> Split(bs).0 == OnlyLittleEndian(ms)
    decreases |bs|
  {
    forall ms, tail | WellFramed(bs, ms, tail) ensures Split(bs) == (OnlyLittleEndian(ms), true) {
      FramedIsSplit(ms, tail);
    }
    if Split(bs).1 {
      var ms, tail := SplitIsFramed(bs);
      assert WellFramed(bs, ms, tail);
    }
  }

  lemma {:induction false} FramedIsSplit(ms: seq<Submessage>, tail: Bytes)
    requires |tail| < 4 && forall i :: 0 <= i < |ms| ==> |ms[i].body| < 0x1_0000
    ensures Split(FrameAll(ms) + tail) == (OnlyLittleEndian(ms), true)
    decreases |ms|
  {
    if ms == [] {
      assert [] + tail == tail;
    } else {
      var rest := FrameAll(ms[1..]) + tail;
      FramedIsSplit(ms[1..], tail);
      SplitFrame(ms[0], rest);
      assert FrameAll(ms) + tail == Frame(ms[0]) + rest;
    }
  }

  lemma {:induction false} SplitIsFramed(bs: Bytes) returns (ms: seq<Submessage>, tail: Bytes)
    requires Split(bs).1
    ensures WellFramed(bs, ms, tail)
    decreases |bs|
  {
    if |bs| < 4 {
      ms, tail := [], bs;
      assert FrameAll([]) + bs == bs;
    } else {
      var n := BodyLength(bs);
      var m := Submessage(bs[0], bs[1], bs[4..4 + n]);
      var rest;
      rest, tail := SplitIsFramed(bs[4 + n..]);
      ms := [m] + rest;
      FrameOf(bs, n, m);
      assert ms[0] == m && ms[1..] == rest;
      assert bs == Frame(m) + bs[4 + n..];
      assert Frame(m) + (FrameAll(rest) + tail) == (Frame(m) + FrameAll(rest)) + tail;
    }
  }

  lemma FrameOf(bs: Bytes, n: nat, m: Submessage)
    requires |bs| >= 4 && n == BodyLength(bs) <= |bs| - 4 && m == Submessage(bs[0], bs[1], bs[4..4 + n])
    ensures Frame(m) == bs[..4 + n]
  {
    Pow256Values();
    assert bs[2..4] == [bs[2], bs[3]];
    LEOfUnLE([bs[2], bs[3]]);
    LEOfUnLE([bs[3], bs[2]]);
    var len := LE(n, 2);
    assert (if LittleEndian(m) then len else [len[1], len[0]]) == bs[2..4];
    assert bs[..4 + n] == [bs[0], bs[1]] + bs[2..4] + bs[4..4 + n];
  }

  lemma SplitFrame(m: Submessage, rest: Bytes)
    requires |m.body| < 0x1_0000
    ensures Split(Frame(m) + rest).0 == (if LittleEndian(m) then [m] else []) + Split(rest).0
    ensures Split(Frame(m) + rest).1 == Split(rest).1
  {
    var bs := Frame(m) + rest;
    FrameHeader(m, rest);
    SplitStep(bs);
    assert bs[4..][..|m.body|] == m.body;
    assert bs[4..][|m.body|..] == rest;
  }

  lemma FrameHeader(m: Submessage, rest: Bytes)
    requires |m.body| < 0x1_0000
    ensures var bs := Frame(m) + rest; bs[0] == m.id && bs[1] == m.flags && BodyLength(bs) == |m.body|
  {
    Pow256Values();
    var bs, len := Frame(m) + rest, LE(|m.body|, 2);
    UnLEOfLE(|m.body|, 2);
    if LittleEndian(m) {
      assert bs[2..4] == len;
    } else {
      assert [bs[3], bs[2]] == len;
    }
  }

  // ------------------------------------------------------------------- ACKNACK

  datatype RawAckNack = AckNack(reader: EntityId, writer: EntityId, base: SequenceNumber, bitmap: Word32, count: int)

  /** An ACKNACK; bit N of the bitmap, counted from the least significant, asks for base+N. */
  type AckNack = a: RawAckNack | FitsSigned(a.count, 4)
    witness (Pow256Values(); AckNack([0, 0, 0, 0], [0, 0, 0, 0], SequenceNumber(0, 0), Zeros(32), 0))

  /** The minimal number of low-order bits that hold every set bit. */
  function BitLength(b: Bits): (n: nat)
    ensures n <= |b|
    ensures forall i :: n <= i < |b| ==> !b[i]
    ensures n > 0 ==> b[n - 1]
  {
    if b == [] then 0
    else if b[|b| - 1] then |b|
    else BitLength(b[..|b| - 1])
  }

  /** The body: entity ids, base, numBits, at most one bitmap word (most significant
      bit first) and the count. */
  function AckNackBody(a: AckNack): (bs: Bytes)
  {
    var numBits := BitLength(a.bitmap);
    a.reader + a.writer + EncodeSn(a.base) + LE(numBits, 4)
    + (if numBits > 0 then LE(FromBits(Reverse(a.bitmap)), 4) else [])
    + LE(ToUnsigned(a.count, 4), 4)
  }

  function MarshalAckNack(a: AckNack): Bytes
  {
    Frame(Submessage(ACKNACK_ID, FLAG_ENDIANNESS, AckNackBody(a)))
  }

  function NumWords(bs: Bytes): nat
    requires |bs| >= 20
  {
    (UnLE(bs[16..20]) + 31) / 32
  }

  function ParseBitmap(bs: Bytes): Word32
    requires |bs| >= 24
  {
    if NumWords(bs) > 0 then Reverse(ToBits(UnLE(bs[20..24]), 32)) else Zeros(32)
  }

  function ParseCount(bs: Bytes, at: nat): (v: int)
    requires at + 4 <= |bs|
    ensures FitsSigned(v, 4)
  {
    ToSigned(UnLE(bs[at..at + 4]), 4)
  }

  /** Accepts any set of at most 256 bits, and keeps its first 32. */
  function ParseAckNack(bs: Bytes): (r: Option<AckNack>)
  {
    if |bs| < 20 || UnLE(bs[16..20]) > 256 || |bs| < 20 + NumWords(bs) * 4 + 4 then None
    else
      Some(AckNack(bs[..4], bs[4..8], DecodeSn(bs[8..16]), ParseBitmap(bs), ParseCount(bs, 20 + NumWords(bs) * 4)))
  }

  /** Where each field of an ACKNACK body sits. */
  lemma AckNackFields(a: AckNack)
    ensures var bs, n := AckNackBody(a), BitLength(a.bitmap);
      && |bs| == (if n > 0 then 28 else 24)
      && bs[..4] == a.reader && bs[4..8] == a.writer && bs[8..16] == EncodeSn(a.base)
      && bs[16..20] == LE(n, 4)
      && (n > 0 ==> bs[20..24] == LE(FromBits(Reverse(a.bitmap)), 4))
      && bs[|bs| - 4..] == LE(ToUnsigned(a.count, 4), 4)
  {
  }

  lemma NoBitSet(b: Word32)
    requires BitLength(b) == 0
    ensures b == Zeros(32)
  {
  }

  lemma AckNackBitmap(a: AckNack)
    ensures var bs := AckNackBody(a);
      && |bs| == 20 + NumWords(bs) * 4 + 4 && UnLE(bs[16..20]) <= 256
      && ParseBitmap(bs) == a.bitmap
  {
    AckNackFields(a);
    var bs, n := AckNackBody(a), BitLength(a.bitmap);
    assert UnLE(bs[16..20]) == n by { Pow256Values(); UnLEOfLE(n, 4); }
    assert NumWords(bs) == if n > 0 then 1 else 0;
    if n > 0 { BitmapWord(a.bitmap); } else { NoBitSet(a.bitmap); }
  }

  lemma BitmapWord(b: Word32)
    ensures Reverse(ToBits(UnLE(LE(FromBits(Reverse(b)), 4)), 32)) == b
  {
    WordRoundTrip(Reverse(b));
    ReverseTwice(b);
  }

  lemma AckNackCount(a: AckNack)
    ensures var bs := AckNackBody(a); |bs| >= 24 && ParseCount(bs, |bs| - 4) == a.count
  {
    AckNackFields(a);
    var bs := AckNackBody(a);
    assert bs[|bs| - 4..] == bs[|bs| - 4..|bs| - 4 + 4];
    UnLEOfLE(ToUnsigned(a.count, 4), 4);
    SignRoundTrip(a.count, 4);
  }

  /** The bytes that a set of `n` bits takes up. */
  predicate Fills(words: nat, n: nat)
  {
    words % 4 == 0 && 32 * words <= 4 * (n + 31) < 32 * words + 128
  }

  lemma FillsIs(words: nat, n: nat)
    requires Fills(words, n)
    ensures (n + 31) / 32 * 4 == words
  {
    var k := words / 4;
    assert words == 4 * k;
  }

  lemma FillsSome(n: nat)
    ensures Fills((n + 31) / 32 * 4, n)
  {
  }

  /** The parser accepts exactly the bodies with a set of at most 256 bits that hold its words
      and a count behind them; of the words it keeps the first, whose most significant bit
      asks for the base. */
  lemma AckNackExact(bs: Bytes, words: nat)
    requires |bs| >= 20 ==> Fills(words, UnLE(bs[16..20]))
    ensures ParseAckNack(bs).Some? <==> |bs| >= 20 && UnLE(bs[16..20]) <= 256 && |bs| >= 20 + words + 4
    ensures ParseAckNack(bs).Some? ==>
      var a, n := ParseAckNack(bs).value, UnLE(bs[16..20]);
      && a.reader == bs[..4] && a.writer == bs[4..8] && a.base == DecodeSn(bs[8..16])
      && a.count == ToSigned(UnLE(bs[20 + words..20 + words + 4]), 4)
      && a.bitmap == if n == 0 then Zeros(32) else Reverse(ToBits(UnLE(bs[20..24]), 32))
  {
    if |bs| >= 20 { FillsIs(words, UnLE(bs[16..20])); }
  }

  /** Marshalling and parsing an ACKNACK loses nothing: not the 64-bit base, and not a
      single request of the bitmap, which travels reversed and cut to minimal length. */
  lemma AckNackRoundTrip(a: AckNack)
    ensures MarshalAckNack(a)[0] == 0x06 && MarshalAckNack(a)[1] == 0x01
    ensures Split(MarshalAckNack(a)).0 == [Submessage(ACKNACK_ID, FLAG_ENDIANNESS, AckNackBody(a))]
    ensures ParseAckNack(AckNackBody(a)) == Some(a)
  {
    AckNackBitmap(a);
    AckNackCount(a);
    AckNackFields(a);
    SnWireRoundTrip(a.base);
    var m := Submessage(ACKNACK_ID, FLAG_ENDIANNESS, AckNackBody(a));
    FramingRoundTrip([m]);
    assert FrameAll([m]) == Frame(m);
  }

  // ----------------------------------------------------------------------- GAP

  datatype Gap = Gap(reader: EntityId, writer: EntityId, start: SequenceNumber, end: SequenceNumber)

  function GapBody(g: Gap): (bs: Bytes)
    ensures |bs| == 28
  {
    var next := NextU64(SnToU64(g.end));
    g.reader + g.writer + EncodeSn(g.start) + EncodeSn(U64ToSn(next)) + LE(0, 4)
  }

  function MarshalGap(g: Gap): Bytes
  {
    Frame(Submessage(GAP_ID, FLAG_ENDIANNESS, GapBody(g)))
  }

  /** A receiver that follows section 9.4.5.4 of RTPS 2.3 reads the declared range as
      [start, listBase - 1]; this is [start, end] for every end but the last 64-bit number,
      also where the low word of the end carries into the high word. */
  lemma GapDeclaresItsRange(g: Gap)
    ensures GapBody(g)[..4] == g.reader && GapBody(g)[4..8] == g.writer
    ensures MarshalGap(g)[0] == 0x08 && MarshalGap(g)[1] == 0x01 && MarshalGap(g)[4..] == GapBody(g)
    ensures DecodeSn(GapBody(g)[8..16]) == g.start
    ensures SnToU64(DecodeSn(GapBody(g)[16..24])) - 1 == SnToU64(g.end) <==> SnToU64(g.end) != U64_MAX
    ensures UnLE(GapBody(g)[24..28]) == 0
  {
    var next := NextU64(SnToU64(g.end));
    GapFields(g, next);
    SnWireRoundTrip(g.start);
    SnWireRoundTrip(U64ToSn(next));
    SnRoundTrip(next, g.end);
    UnLEOfLE(0, 4);
  }

  lemma GapFields(g: Gap, next: U64)
    requires next == NextU64(SnToU64(g.end))
    ensures GapBody(g)[..4] == g.reader && GapBody(g)[4..8] == g.writer
    ensures GapBody(g)[8..16] == EncodeSn(g.start)
    ensures GapBody(g)[16..24] == EncodeSn(U64ToSn(next))
    ensures GapBody(g)[24..28] == LE(0, 4)
  {
    var a, b, z := EncodeSn(g.start), EncodeSn(U64ToSn(next)), LE(0, 4);
    assert GapBody(g) == g.reader + g.writer + a + b + z;
  }
}
