/** The CDR encoder and decoder: little-endian primitives at their natural alignment,
    counted strings and counted byte sequences. */
module Cdr {
  import opened Wire

  /** The primitive kinds. Floating-point values travel as their IEEE 754 bit patterns,
      and are represented by them. */
  datatype Prim = Bool | Uint8 | Int16 | Uint16 | Int32 | Uint32 | Int64 | Uint64 | Float32 | Float64

  const HEADER: Bytes := [0x00, 0x01, 0x00, 0x00]

  function Size(p: Prim): (n: nat)
    ensures Alignment(n)
  {
    match p
    case Bool | Uint8 => 1
    case Int16 | Uint16 => 2
    case Int32 | Uint32 | Float32 => 4
    case Int64 | Uint64 | Float64 => 8
  }

  predicate Signed(p: Prim)
  {
    p.Int16? || p.Int32? || p.Int64?
  }

  predicate InRange(p: Prim, v: int)
  {
    if p.Bool? then v == 0 || v == 1
    else if Signed(p) then FitsSigned(v, Size(p))
    else 0 <= v < Pow256(Size(p))
  }

  function ToWire(p: Prim, v: int): (n: nat)
    requires InRange(p, v)
    ensures n < Pow256(Size(p))
  {
    Pow256Values();
    if Signed(p) then ToUnsigned(v, Size(p)) else v
  }

  function OfWire(p: Prim, n: nat): (v: int)
    requires n < Pow256(Size(p))
    ensures InRange(p, v)
  {
    if p.Bool? then (if n != 0 then 1 else 0)
    else if Signed(p) then ToSigned(n, Size(p))
    else n
  }

  lemma OfToWire(p: Prim, v: int)
    requires InRange(p, v)
    ensures OfWire(p, ToWire(p, v)) == v
  {
    if Signed(p) { SignRoundTrip(v, Size(p)); }
  }

  // --------------------------------------------------------- what is written

  /** The alignments in use. */
  predicate Alignment(n: nat)
  {
    n == 1 || n == 2 || n == 4 || n == 8
  }

  /** How far `at` lies behind the last multiple of `n`. */
  function Excess(at: nat, n: nat): (r: nat)
    requires Alignment(n)
    ensures r < n
  {
    if n == 1 then 0 else if n == 2 then at % 2 else if n == 4 then at % 4 else at % 8
  }

  function Pad(at: nat, n: nat): (pad: nat)
    requires Alignment(n)
    ensures pad < n
  {
    if Excess(at, n) == 0 then 0 else n - Excess(at, n)
  }

  /** Padding is what the source computes, and leads to a multiple of the alignment. */
  lemma PadIs(at: nat, n: nat)
    requires Alignment(n)
    ensures Pad(at, n) == (n - at % n) % n < n && (at + Pad(at, n)) % n == 0
  {
    if n == 1 { PadOne(at); } else if n == 2 { PadTwo(at); } else if n == 4 { PadFour(at); } else { PadEight(at); }
  }

  lemma PadOne(at: nat)
    ensures Pad(at, 1) == (1 - at % 1) % 1 && (at + Pad(at, 1)) % 1 == 0
  {
  }

  lemma PadTwo(at: nat)
    ensures Pad(at, 2) == (2 - at % 2) % 2 && (at + Pad(at, 2)) % 2 == 0
  {
  }

  lemma PadFour(at: nat)
    ensures Pad(at, 4) == (4 - at % 4) % 4 && (at + Pad(at, 4)) % 4 == 0
  {
  }

  lemma PadEight(at: nat)
    ensures Pad(at, 8) == (8 - at % 8) % 8 && (at + Pad(at, 8)) % 8 == 0
  {
  }

  function Aligned(buf: Bytes, n: nat): Bytes
    requires Alignment(n)
  {
    buf + ZeroBytes(Pad(|buf|, n))
  }

  function PutPrim(buf: Bytes, p: Prim, v: int): Bytes
    requires InRange(p, v)
  {
    Aligned(buf, Size(p)) + LE(ToWire(p, v), Size(p))
  }

  /** A counted run of bytes: the count, cut to 32 bits, and then the bytes. */
  function PutCounted(buf: Bytes, bs: Bytes): Bytes
  {
    Aligned(buf, 4) + LE(|bs|, 4) + bs
  }

  function PutString(buf: Bytes, s: Bytes): Bytes
  {
    PutCounted(buf, s + [0])
  }

  // ------------------------------------------------------------ what is read

  /** A value and the position after it, or nothing where the buffer is too short. */
  function GetPrim(p: Prim, bs: Bytes, pos: nat): (r: Option<(int, nat)>)
    ensures r.Some? ==> InRange(p, r.value.0) && pos < r.value.1 <= |bs|
  {
    var at := pos + Pad(pos, Size(p));
    if at + Size(p) > |bs| then None
    else Some((OfWire(p, UnLE(bs[at..at + Size(p)])), at + Size(p)))
  }

  function GetCounted(bs: Bytes, pos: nat): (r: Option<(Bytes, nat)>)
    ensures r.Some? ==> pos < r.value.1 <= |bs|
  {
    var n := GetPrim(Uint32, bs, pos);
    if n.None? || n.value.1 + n.value.0 > |bs| then None
    else Some((bs[n.value.1..n.value.1 + n.value.0], n.value.1 + n.value.0))
  }

  function WithoutTerminator(s: Bytes): Bytes
  {
    if s != [] && s[|s| - 1] == 0 then s[..|s| - 1] else s
  }

  function GetString(bs: Bytes, pos: nat): (r: Option<(Bytes, nat)>)
    ensures r.Some? ==> pos < r.value.1 <= |bs|
  {
    var s := GetCounted(bs, pos);
    if s.None? then None else Some((WithoutTerminator(s.value.0), s.value.1))
  }

  /** Both CDR_LE and CDR_BE are accepted, and both are read as little-endian. */
  predicate AcceptsHeader(data: Bytes)
  {
    |data| >= 4 && data[0] == 0 && (data[1] == 1 || data[1] == 0)
  }

  // ------------------------------------------------------------------ the format

  /** The sizes of the primitives in bytes. */
  lemma Sizes()
    ensures Size(Bool) == 1 && Size(Uint8) == 1 && Size(Int16) == 2 && Size(Uint16) == 2
    ensures Size(Int32) == 4 && Size(Uint32) == 4 && Size(Float32) == 4
    ensures Size(Int64) == 8 && Size(Uint64) == 8 && Size(Float64) == 8
  {
  }

  /** Values travel in two's complement, a boolean as 0 or 1 and read as whether it is not 0. */
  lemma WireValues(p: Prim, v: int, n: nat)
    requires InRange(p, v) && n < Pow256(Size(p))
    ensures ToWire(p, v) == if v < 0 then v + Pow256(Size(p)) else v
    ensures p.Bool? ==> OfWire(p, n) == if n == 0 then 0 else 1
    ensures !p.Bool? ==> OfWire(p, n) == n || (Signed(p) && OfWire(p, n) == n - Pow256(Size(p)))
    ensures Signed(p) <==> p == Int16 || p == Int32 || p == Int64
  {
    Pow256Values();
  }

  /** A primitive stands at the next multiple of its size, zeros before it, low-order byte
      first. */
  lemma PrimLayout(buf: Bytes, p: Prim, v: int)
    requires InRange(p, v)
    ensures var at, bs := |PutPrim(buf, p, v)| - Size(p), PutPrim(buf, p, v);
      && |buf| <= at < |buf| + Size(p) && at % Size(p) == 0
      && bs[..|buf|] == buf && (forall i :: |buf| <= i < at ==> bs[i] == 0)
      && UnLE(bs[at..]) == if v < 0 then v + Pow256(Size(p)) else v
  {
    var n, field := Size(p), LE(ToWire(p, v), Size(p));
    PadIs(|buf|, n);
    WireValues(p, v, 0);
    UnLEOfLE(ToWire(p, v), n);
    BehindPadding(buf, Pad(|buf|, n), field);
  }

  lemma BehindPadding(buf: Bytes, pad: nat, field: Bytes)
    ensures var bs, at := buf + ZeroBytes(pad) + field, |buf| + pad;
      |bs| - |field| == at && bs[..|buf|] == buf && bs[at..] == field && forall i :: |buf| <= i < at ==> bs[i] == 0
  {
  }

  /** A string is a 32-bit count that includes its terminator, then its bytes, then zero; a
      byte sequence is a 32-bit count and its bytes. */
  lemma CountedLayout(buf: Bytes, s: Bytes)
    requires |s| + 1 < 0x1_0000_0000
    ensures InRange(Uint32, |s|) && PutCounted(buf, s) == PutPrim(buf, Uint32, |s|) + s
    ensures InRange(Uint32, |s| + 1) && PutString(buf, s) == PutPrim(buf, Uint32, |s| + 1) + s + [0]
  {
    Pow256Values();
  }

  /** A primitive can be read exactly where it lies wholly inside the data. */
  lemma ReadExact(p: Prim, bs: Bytes, pos: nat, at: nat)
    requires pos <= at < pos + Size(p) && at % Size(p) == 0
    ensures GetPrim(p, bs, pos).Some? <==> at + Size(p) <= |bs|
    ensures at + Size(p) <= |bs| ==>
      GetPrim(p, bs, pos) == Some((OfWire(p, UnLE(bs[at..at + Size(p)])), at + Size(p)))
  {
    PadIs(pos, Size(p));
    NextAligned(pos, at, pos + Pad(pos, Size(p)), Size(p));
    ReadAt(p, bs, pos, at);
  }

  lemma ReadAt(p: Prim, bs: Bytes, pos: nat, at: nat)
    requires at == pos + Pad(pos, Size(p))
    ensures GetPrim(p, bs, pos).Some? <==> at + Size(p) <= |bs|
    ensures at + Size(p) <= |bs| ==>
      GetPrim(p, bs, pos) == Some((OfWire(p, UnLE(bs[at..at + Size(p)])), at + Size(p)))
  {
  }

  lemma NextAligned(pos: nat, a: nat, b: nat, n: nat)
    requires Alignment(n) && a % n == 0 && b % n == 0 && pos <= a < pos + n && pos <= b < pos + n
    ensures a == b
  {
  }

  /** Counted bytes can be read exactly where their count can and they all follow; a string
      loses one final zero, if it has one. */
  lemma ReadCountedExact(bs: Bytes, pos: nat)
    ensures var n := GetPrim(Uint32, bs, pos);
      && (GetCounted(bs, pos).Some? <==> n.Some? && n.value.1 + n.value.0 <= |bs|)
      && (GetCounted(bs, pos).Some? ==> GetCounted(bs, pos).value.0 == bs[n.value.1..n.value.1 + n.value.0])
    ensures GetString(bs, pos).Some? <==> GetCounted(bs, pos).Some?
    ensures GetString(bs, pos).Some? ==>
      var raw, s := GetCounted(bs, pos).value, GetString(bs, pos).value;
      s.1 == raw.1 && (raw.0 == s.0 + [0] || (raw.0 == s.0 && (s.0 == [] || s.0[|s.0| - 1] != 0)))
  {
    if GetCounted(bs, pos).Some? {
      var raw := GetCounted(bs, pos).value.0;
      if raw != [] { assert raw == raw[..|raw| - 1] + [raw[|raw| - 1]]; }
    }
  }

  /** Encoders begin with the little-endian header; decoders take that and the big-endian one. */
  lemma Headers(data: Bytes)
    ensures HEADER == [0, 1, 0, 0]
    ensures AcceptsHeader(data) <==> |data| >= 4 && (data[..2] == [0, 1] || data[..2] == [0, 0])
  {
    if |data| >= 4 { assert data[..2] == [data[0], data[1]]; }
  }

  // ---------------------------------------------------------- they undo each other

  /** Reading where a primitive was written, at any offset and before any other bytes,
      returns it and stops where the writer stopped. */
  lemma PrimRoundTrip(buf: Bytes, p: Prim, v: int, bs: Bytes)
    requires InRange(p, v) && PutPrim(buf, p, v) <= bs
    ensures GetPrim(p, bs, |buf|) == Some((v, |PutPrim(buf, p, v)|))
  {
    Written(Aligned(buf, Size(p)), LE(ToWire(p, v), Size(p)), bs);
    UnLEOfLE(ToWire(p, v), Size(p));
    OfToWire(p, v);
  }

  lemma Written(before: Bytes, field: Bytes, bs: Bytes)
    requires before + field <= bs
    ensures bs[|before|..|before| + |field|] == field
  {
    assert bs[..|before| + |field|] == before + field;
  }

  lemma CountedRoundTrip(buf: Bytes, s: Bytes, bs: Bytes)
    requires |s| < 0x1_0000_0000 && PutCounted(buf, s) <= bs
    ensures GetCounted(bs, |buf|) == Some((s, |PutCounted(buf, s)|))
  {
    Pow256Values();
    var at := |PutPrim(buf, Uint32, |s|)|;
    assert PutCounted(buf, s) == PutPrim(buf, Uint32, |s|) + s;
    assert PutPrim(buf, Uint32, |s|) <= bs;
    PrimRoundTrip(buf, Uint32, |s|, bs);
    assert bs[at..at + |s|] == s;
  }

  lemma StringRoundTrip(buf: Bytes, s: Bytes, bs: Bytes)
    requires |s| + 1 < 0x1_0000_0000 && PutString(buf, s) <= bs
    ensures GetString(bs, |buf|) == Some((s, |PutString(buf, s)|))
  {
    CountedRoundTrip(buf, s + [0], bs);
    assert WithoutTerminator(s + [0]) == s;
  }

  // ------------------------------------------------------------------- the objects

  class Encoder {
    var buf: Bytes

    constructor ()
      ensures buf == HEADER
    {
      buf := HEADER;
    }

    method Align(n: nat)
      requires Alignment(n)
      modifies this
      ensures buf == Aligned(old(buf), n)
    {
      PadIs(|buf|, n);
      var pad := (n - |buf| % n) % n;
      for i := 0 to pad
        invariant buf == old(buf) + ZeroBytes(i)
      {
        buf := buf + [0];
      }
    }

    method WritePrim(p: Prim, v: int)
      requires InRange(p, v)
      modifies this
      ensures buf == PutPrim(old(buf), p, v)
    {
      Align(Size(p));
      buf := buf + LE(ToWire(p, v), Size(p));
    }

    method WriteString(s: Bytes)
      modifies this
      ensures buf == PutString(old(buf), s)
    {
      Align(4);
      buf := buf + LE(|s| + 1, 4);
      buf := buf + s;
      buf := buf + [0];
    }

    method WriteBytes(bs: Bytes)
      modifies this
      ensures buf == PutCounted(old(buf), bs)
    {
      Align(4);
      buf := buf + LE(|bs|, 4);
      buf := buf + bs;
    }
  }

  class Decoder {
    const buf: Bytes
    var pos: nat

    constructor (data: Bytes)
      requires AcceptsHeader(data)
      ensures buf == data && pos == 4
    {
      buf, pos := data, 4;
    }

    method Align(n: nat)
      requires Alignment(n)
      modifies this
      ensures pos == old(pos) + Pad(old(pos), n)
    {
      PadIs(pos, n);
      pos := pos + (n - pos % n) % n;
    }

    method ReadPrim(p: Prim) returns (r: Option<int>)
      modifies this
      ensures match GetPrim(p, buf, old(pos))
        case None => r == None
        case Some((v, at)) => r == Some(v) && pos == at
    {
      Align(Size(p));
      if pos + Size(p) > |buf| {
        return None;
      }
      r := Some(OfWire(p, UnLE(buf[pos..pos + Size(p)])));
      pos := pos + Size(p);
    }

    method ReadString() returns (r: Option<Bytes>)
      modifies this
      ensures match GetString(buf, old(pos))
        case None => r == None
        case Some((s, at)) => r == Some(s) && pos == at
    {
      var n := ReadPrim(Uint32);
      if n.None? {
        return None;
      }
      if n.value == 0 {
        return Some([]);
      }
      if pos + n.value > |buf| {
        return None;
      }
      var raw := buf[pos..pos + n.value];
      pos := pos + n.value;
      if |raw| > 0 && raw[|raw| - 1] == 0 {
        raw := raw[..|raw| - 1];
      }
      r := Some(raw);
    }

    method ReadBytes() returns (r: Option<Bytes>)
      modifies this
      ensures match GetCounted(buf, old(pos))
        case None => r == None
        case Some((s, at)) => r == Some(s) && pos == at
    {
      var n := ReadPrim(Uint32);
      if n.None? {
        return None;
      }
      if pos + n.value > |buf| {
        return None;
      }
      r := Some(buf[pos..pos + n.value]);
      pos := pos + n.value;
    }
  }
}
