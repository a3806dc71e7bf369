/** Little-endian integers and 32-bit words, shared by every codec of the model.

    Integers on the wire are unbounded numbers cut to a width; `LE` and `UnLE`
    are the byte-level encodings, `FromBits` and `ToBits` the bit-level ones.
    Words that the source manipulates bit by bit are sequences of booleans, least
    significant bit first.
  */
module Wire {
  type byte = x: int | 0 <= x < 256
  type Bytes = seq<byte>

  datatype Option<+T> = None | Some(value: T)

  /** Largest 64-bit value: the sequence-number arithmetic of the source wraps after it. */
  const U64_MAX: nat := 0xFFFF_FFFF_FFFF_FFFF

  type U64 = n: nat | n <= U64_MAX

  /** 64-bit increment, which wraps. */
  function NextU64(n: U64): (r: U64)
    ensures r == (n + 1) % 0x1_0000_0000_0000_0000
  {
    if n == U64_MAX then 0 else n + 1
  }

  function Pow256(w: nat): (p: nat)
    ensures p > 0
  {
    if w == 0 then 1 else 256 * Pow256(w - 1)
  }

  function ZeroBytes(n: nat): (bs: Bytes)
    ensures |bs| == n && forall i :: 0 <= i < n ==> bs[i] == 0
  {
    if n == 0 then [] else ZeroBytes(n - 1) + [0]
  }

  /** The `w` low-order bytes of `n`, least significant first. */
  function LE(n: nat, w: nat): (bs: Bytes)
    ensures |bs| == w
    decreases w, n
  {
    if w == 0 then [] else [n % 256] + LE(n / 256, w - 1)
  }

  /** The number whose little-endian bytes are `bs`. */
  function UnLE(bs: Bytes): (n: nat)
    ensures n < Pow256(|bs|)
  {
    if bs == [] then 0 else bs[0] + 256 * UnLE(bs[1..])
  }

  lemma {:induction false} UnLEOfLE(n: nat, w: nat)
    requires n < Pow256(w)
    ensures UnLE(LE(n, w)) == n
    decreases w
  {
    if w > 0 {
      UnLEOfLE(n / 256, w - 1);
      assert LE(n, w)[1..] == LE(n / 256, w - 1);
    }
  }

  /** The first bytes are the low-order ones; with `OneByte` this determines the order of the
      bytes in both directions. */
  lemma {:induction false} LowBytesFirst(a: Bytes, b: Bytes)
    ensures UnLE(a + b) == UnLE(a) + Pow256(|a|) * UnLE(b)
    decreases |a|
  {
    if a == [] {
      assert a + b == b;
    } else {
      LowBytesFirst(a[1..], b);
      assert (a + b)[1..] == a[1..] + b && (a + b)[0] == a[0];
      Regroup(256, Pow256(|a| - 1), UnLE(b));
    }
  }

  lemma Regroup(k: nat, p: nat, u: nat)
    ensures k * (p * u) == (k * p) * u
  {
  }

  lemma OneByte(x: byte)
    ensures UnLE([x]) == x
  {
    assert [x][1..] == [];
  }

  lemma {:induction false} LEOfUnLE(bs: Bytes)
    ensures LE(UnLE(bs), |bs|) == bs
  {
    if bs != [] {
      LEOfUnLE(bs[1..]);
      LowByte(bs[0], UnLE(bs[1..]));
    }
  }

  lemma LowByte(low: byte, rest: nat)
    ensures (low + 256 * rest) % 256 == low && (low + 256 * rest) / 256 == rest
  {
  }

  lemma Pow256Values()
    ensures Pow256(1) == 0x100 && Pow256(2) == 0x1_0000 && Pow256(4) == 0x1_0000_0000
    ensures Pow256(8) == 0x1_0000_0000_0000_0000 && Half(4) == 0x8000_0000
  {
    assert Pow256(1) == 256 * Pow256(0);
    assert Pow256(2) == 256 * Pow256(1);
    assert Pow256(3) == 256 * Pow256(2);
    assert Pow256(4) == 256 * Pow256(3);
    assert Pow256(5) == 256 * Pow256(4);
    assert Pow256(6) == 256 * Pow256(5);
    assert Pow256(7) == 256 * Pow256(6);
    assert Pow256(8) == 256 * Pow256(7);
  }

  /** Half of 256^w. */
  function Half(w: nat): int
    requires w > 0
  {
    128 * Pow256(w - 1)
  }

  predicate FitsSigned(v: int, w: nat)
  {
    w > 0 && -Half(w) <= v < Half(w)
  }

  /** The unsigned conversion of a signed integer of `w` bytes, as in `uint32(v)`. */
  function ToUnsigned(v: int, w: nat): (n: nat)
    requires FitsSigned(v, w)
    ensures n < Pow256(w)
  {
    if v < 0 then v + Pow256(w) else v
  }

  /** The signed reinterpretation of an unsigned integer of `w` bytes, as in `int32(n)`. */
  function ToSigned(n: nat, w: nat): (v: int)
    requires w > 0 && n < Pow256(w)
    ensures FitsSigned(v, w)
  {
    assert Pow256(w) == 256 * Pow256(w - 1);
    if n < Half(w) then n else n - Pow256(w)
  }

  /** Both conversions keep the number up to a multiple of 256^w: two's complement. */
  lemma TwosComplement(v: int, n: nat, w: nat)
    requires FitsSigned(v, w) && n < Pow256(w)
    ensures ToUnsigned(v, w) == v || ToUnsigned(v, w) == v + Pow256(w)
    ensures ToSigned(n, w) == n || ToSigned(n, w) == n - Pow256(w)
    ensures Half(w) + Half(w) == Pow256(w)
  {
    assert Pow256(w) == 256 * Pow256(w - 1);
  }

  lemma SignRoundTrip(v: int, w: nat)
    requires FitsSigned(v, w)
    ensures ToSigned(ToUnsigned(v, w), w) == v
  {
    assert Pow256(w) == 256 * Pow256(w - 1);
  }

  // ---------------------------------------------------------------- 32-bit words

  type Bits = seq<bool>

  function Zeros(n: nat): (b: Bits)
    ensures |b| == n && forall i :: 0 <= i < n ==> !b[i]
  {
    seq(n, i => false)
  }

  type Word32 = b: Bits | |b| == 32 witness Zeros(32)

  function Reverse(b: Bits): (r: Bits)
    ensures |r| == |b| && forall i :: 0 <= i < |b| ==> r[i] == b[|b| - 1 - i]
  {
    if b == [] then [] else Reverse(b[1..]) + [b[0]]
  }

  lemma ReverseTwice(b: Bits)
    ensures Reverse(Reverse(b)) == b
  {
  }

  /** The number whose bits are `b`, least significant first. */
  function FromBits(b: Bits): (n: nat)
  {
    if b == [] then 0 else (if b[0] then 1 else 0) + 2 * FromBits(b[1..])
  }

  /** The `w` low-order bits of `n`, least significant first. */
  function ToBits(n: nat, w: nat): (b: Bits)
    ensures |b| == w
    decreases w, n
  {
    if w == 0 then [] else [n % 2 == 1] + ToBits(n / 2, w - 1)
  }

  /** The first bits are the low-order ones. */
  lemma {:induction false} LowBitsFirst(a: Bits, b: Bits)
    ensures FromBits(a + b) == FromBits(a) + Pow2(|a|) * FromBits(b)
    decreases |a|
  {
    if a == [] {
      assert a + b == b;
    } else {
      LowBitsFirst(a[1..], b);
      assert (a + b)[1..] == a[1..] + b && (a + b)[0] == a[0];
      Regroup(2, Pow2(|a| - 1), FromBits(b));
    }
  }

  lemma OneBit(x: bool)
    ensures FromBits([x]) == if x then 1 else 0
  {
    assert [x][1..] == [];
  }

  lemma {:induction false} ToBitsOfFromBits(b: Bits)
    ensures ToBits(FromBits(b), |b|) == b
  {
    if b != [] {
      ToBitsOfFromBits(b[1..]);
      LowBit(b[0], FromBits(b[1..]));
    }
  }

  lemma LowBit(bit: bool, rest: nat)
    ensures var n := (if bit then 1 else 0) + 2 * rest; (n % 2 == 1 <==> bit) && n / 2 == rest
  {
  }

  function Pow2(w: nat): (p: nat)
    ensures p > 0
  {
    if w == 0 then 1 else 2 * Pow2(w - 1)
  }

  lemma {:induction false} FromBitsBound(b: Bits)
    ensures FromBits(b) < Pow2(|b|)
  {
    if b != [] { FromBitsBound(b[1..]); }
  }

  lemma {:induction false} Pow2IsPow256(w: nat)
    ensures Pow2(8 * w) == Pow256(w)
  {
    if w > 0 {
      Pow2IsPow256(w - 1);
      var k := 8 * (w - 1);
      assert Pow2(k + 8) == 2 * Pow2(k + 7);
      assert Pow2(k + 7) == 2 * Pow2(k + 6);
      assert Pow2(k + 6) == 2 * Pow2(k + 5);
      assert Pow2(k + 5) == 2 * Pow2(k + 4);
      assert Pow2(k + 4) == 2 * Pow2(k + 3);
      assert Pow2(k + 3) == 2 * Pow2(k + 2);
      assert Pow2(k + 2) == 2 * Pow2(k + 1);
      assert Pow2(k + 1) == 2 * Pow2(k);
    }
  }

  /** A 32-bit word written with `PutUint32` and read back with `Uint32`. */
  lemma WordRoundTrip(b: Word32)
    ensures UnLE(LE(FromBits(b), 4)) == FromBits(b)
    ensures ToBits(UnLE(LE(FromBits(b), 4)), 32) == b
  {
    FromBitsBound(b);
    Pow2IsPow256(4);
    UnLEOfLE(FromBits(b), 4);
    ToBitsOfFromBits(b);
  }

  // ------------------------------------------------------------------- intervals

  function Interval(lo: nat, hi: nat): (s: set<nat>)
    ensures forall n: nat :: n in s <==> lo <= n < hi
    ensures lo <= hi ==> |s| == hi - lo
    decreases hi, lo
  {
    if lo < hi then Interval(lo, hi - 1) + {hi - 1} else {}
  }

  lemma {:induction false} SubsetSize(a: set<nat>, b: set<nat>)
    requires a <= b
    ensures |a| <= |b|
  {
    if a != {} {
      var x :| x in a;
      SubsetSize(a - {x}, b - {x});
    }
  }
}
