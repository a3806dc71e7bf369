/** CRC-16/CCITT-FALSE as the division of bit strings by a polynomial over GF(2), and the
    bursts it detects. Registers are 16 bits, most significant first. */
module Crc {
  import opened Wire

  predicate Reg(r: Bits)
  {
    |r| == 16
  }

  /** 0x1021. */
  const POLY: Bits := [false, false, false, true, false, false, false, false,
                       false, false, true, false, false, false, false, true]

  function Xor(a: Bits, b: Bits): (r: Bits)
    requires |a| == |b|
    ensures |r| == |a| && forall i :: 0 <= i < |a| ==> r[i] == (a[i] != b[i])
  {
    seq(|a|, i requires 0 <= i < |a| => a[i] != b[i])
  }

  /** One step of the shift register: `crc << 1`, reduced when a bit falls out. */
  function Shift(r: Bits): (s: Bits)
    requires Reg(r)
    ensures Reg(s)
  {
    if r[0] then Xor(r[1..] + [false], POLY) else r[1..] + [false]
  }

  function Shifts(r: Bits, n: nat): (s: Bits)
    requires Reg(r)
    ensures Reg(s)
    decreases n, r
  {
    if n == 0 then r else Shifts(Shift(r), n - 1)
  }

  /** A byte's bits, most significant first. */
  function ByteBits(b: byte): (bits: Bits)
    ensures |bits| == 8
  {
    Reverse(ToBits(b, 8))
  }

  lemma ByteBitsAre(b: byte)
    ensures FromBits(Reverse(ByteBits(b))) == b
  {
    ReverseTwice(ToBits(b, 8));
    assert Pow2(8) == 256 by { Pow2IsPow256(1); Pow256Values(); }
    ValueOfBits(b, 8);
  }

  /** The polynomial is x^16 + x^12 + x^5 + 1, and the register begins with ones. */
  lemma Parameters(i: nat)
    requires i < 16
    ensures POLY[i] <==> 15 - i == 12 || 15 - i == 5 || 15 - i == 0
    ensures Ones(16)[i]
  {
  }

  /** `uint16(b) << 8`. */
  function High(b: byte): (r: Bits)
    ensures Reg(r)
  {
    ByteBits(b) + Zeros(8)
  }

  /** The register after a message. */
  function Register(r: Bits, data: Bytes): (s: Bits)
    requires Reg(r)
    ensures Reg(s)
    decreases |data|
  {
    if data == [] then r else Register(Shifts(Xor(r, High(data[0])), 8), data[1..])
  }

  function Ones(n: nat): (b: Bits)
    ensures |b| == n
  {
    seq(n, i => true)
  }

  method Crc16(data: Bytes) returns (crc: Bits)
    ensures Reg(crc) && crc == Register(Ones(16), data)
  {
    crc := Ones(16);
    for k := 0 to |data|
      invariant Reg(crc) && Register(crc, data[k..]) == Register(Ones(16), data)
    {
      assert data[k..][0] == data[k] && data[k..][1..] == data[k + 1..];
      crc := ShiftEight(Xor(crc, High(data[k])));
    }
  }

  method ShiftEight(x: Bits) returns (crc: Bits)
    requires Reg(x)
    ensures crc == Shifts(x, 8)
  {
    crc := x;
    for i := 0 to 8
      invariant Reg(crc) && Shifts(crc, 8 - i) == Shifts(x, 8)
    {
      if crc[0] {
        crc := Xor(crc[1..] + [false], POLY);
      } else {
        crc := crc[1..] + [false];
      }
    }
  }

  // ------------------------------------------------------ the register, bit by bit

  function Lead(b: bool): (r: Bits)
    ensures Reg(r)
  {
    [b] + Zeros(15)
  }

  /** The register after a sequence of message bits. */
  function Feed(r: Bits, bits: Bits): (s: Bits)
    requires Reg(r)
    ensures Reg(s)
    decreases |bits|
  {
    if bits == [] then r else Feed(Shift(Xor(r, Lead(bits[0]))), bits[1..])
  }

  function MessageBits(data: Bytes): (bits: Bits)
    ensures |bits| == 8 * |data|
  {
    if data == [] then [] else ByteBits(data[0]) + MessageBits(data[1..])
  }

  lemma ShiftLinear(a: Bits, b: Bits)
    requires Reg(a) && Reg(b)
    ensures Shift(Xor(a, b)) == Xor(Shift(a), Shift(b))
  {
  }

  /** Bits below the top one pass through a shift unreduced. */
  lemma ShiftOfXor(r: Bits, y: Bits)
    requires Reg(r) && Reg(y)
    ensures Shift(Xor(r, y)) == Xor(Shift(Xor(r, Lead(y[0]))), y[1..] + [false])
  {
    var low := [false] + y[1..];
    assert Xor(r, y) == Xor(Xor(r, Lead(y[0])), low);
    ShiftLinear(Xor(r, Lead(y[0])), low);
    assert Shift(low) == y[1..] + [false];
  }

  lemma {:induction false} ShiftsAreFeed(r: Bits, y: Bits, n: nat)
    requires Reg(r) && Reg(y) && n <= 16
    ensures Shifts(Xor(r, y), n) == Xor(Feed(r, y[..n]), y[n..] + Zeros(n))
    decreases n
  {
    if n == 0 {
      assert y[0..] + Zeros(0) == y;
    } else {
      var y' := y[1..] + [false];
      ShiftOfXor(r, y);
      ShiftsAreFeed(Shift(Xor(r, Lead(y[0]))), y', n - 1);
      ShiftedSlices(y, n);
    }
  }

  lemma ShiftedSlices(y: Bits, n: nat)
    requires Reg(y) && 0 < n <= 16
    ensures var y' := y[1..] + [false];
      y[..n][0] == y[0] && y[..n][1..] == y'[..n - 1] && y'[n - 1..] + Zeros(n - 1) == y[n..] + Zeros(n)
  {
    var y' := y[1..] + [false];
    assert y'[n - 1..] == y[n..] + [false];
    assert [false] + Zeros(n - 1) == Zeros(n);
    assert (y[n..] + [false]) + Zeros(n - 1) == y[n..] + ([false] + Zeros(n - 1));
  }

  lemma ByteIsFed(r: Bits, b: byte)
    requires Reg(r)
    ensures Shifts(Xor(r, High(b)), 8) == Feed(r, ByteBits(b))
  {
    ShiftsAreFeed(r, High(b), 8);
    HighParts(b);
    XorZero(Feed(r, ByteBits(b)));
  }

  lemma HighParts(b: byte)
    ensures High(b)[..8] == ByteBits(b) && High(b)[8..] + Zeros(8) == Zeros(16)
  {
  }

  lemma XorZero(a: Bits)
    ensures Xor(a, Zeros(|a|)) == a && Xor(a, a) == Zeros(|a|)
  {
  }

  lemma {:induction false} FeedAppend(r: Bits, a: Bits, b: Bits)
    requires Reg(r)
    ensures Feed(r, a + b) == Feed(Feed(r, a), b)
    decreases |a|
  {
    if a == [] {
      assert a + b == b;
    } else {
      assert (a + b)[1..] == a[1..] + b;
      FeedAppend(Shift(Xor(r, Lead(a[0]))), a[1..], b);
    }
  }

  lemma {:induction false} RegisterIsFeed(r: Bits, data: Bytes)
    requires Reg(r)
    ensures Register(r, data) == Feed(r, MessageBits(data))
    decreases |data|
  {
    if data != [] {
      ByteIsFed(r, data[0]);
      FeedAppend(r, ByteBits(data[0]), MessageBits(data[1..]));
      RegisterIsFeed(Feed(r, ByteBits(data[0])), data[1..]);
    }
  }

  // ------------------------------------------------------------------------ bursts

  lemma {:induction false} FeedLinear(r: Bits, s: Bits, a: Bits, b: Bits)
    requires Reg(r) && Reg(s) && |a| == |b|
    ensures Xor(Feed(r, a), Feed(s, b)) == Feed(Xor(r, s), Xor(a, b))
    decreases |a|
  {
    if a != [] {
      var r', s' := Xor(r, Lead(a[0])), Xor(s, Lead(b[0]));
      ShiftLinear(r', s');
      assert Xor(r', s') == Xor(Xor(r, s), Lead(Xor(a, b)[0]));
      assert Xor(a, b)[1..] == Xor(a[1..], b[1..]);
      FeedLinear(Shift(r'), Shift(s'), a[1..], b[1..]);
    }
  }

  /** The register steps back uniquely to where its last bit was clear. */
  lemma ShiftBack(x: Bits)
    requires Reg(x) && !Shift(x)[15]
    ensures x == [false] + Shift(x)[..15]
  {
  }

  /** At most 16 bits that leave the register at zero are the register they met. */
  lemma {:induction false} FeedBack(r: Bits, bits: Bits)
    requires Reg(r) && |bits| <= 16 && Feed(r, bits) == Zeros(16)
    ensures r == bits + Zeros(16 - |bits|)
    decreases |bits|
  {
    if bits != [] {
      var x, rest := Xor(r, Lead(bits[0])), bits[1..];
      FeedBack(Shift(x), rest);
      StepBack(r, bits[0], rest);
      assert bits == [bits[0]] + rest;
    }
  }

  lemma StepBack(r: Bits, b: bool, rest: Bits)
    requires Reg(r) && |rest| < 16 && Shift(Xor(r, Lead(b))) == rest + Zeros(16 - |rest|)
    ensures r == [b] + rest + Zeros(15 - |rest|)
  {
    var x := Xor(r, Lead(b));
    var w := rest + Zeros(16 - |rest|);
    assert !w[15];
    ShiftBack(x);
    assert w[..15] == rest + Zeros(15 - |rest|);
    assert x == [false] + (rest + Zeros(15 - |rest|));
    assert forall i :: 0 < i < 16 ==> r[i] == x[i];
    assert r[0] == b;
  }

  lemma {:induction false} ZerosKeep(r: Bits, n: nat)
    requires Reg(r)
    ensures Feed(r, Zeros(n)) == Zeros(16) <==> r == Zeros(16)
    decreases n
  {
    if n > 0 {
      assert Zeros(n)[1..] == Zeros(n - 1);
      assert Xor(r, Lead(false)) == r;
      ZerosKeep(Shift(r), n - 1);
      if Shift(r) == Zeros(16) { ShiftBack(r); }
      assert r == Zeros(16) ==> Shift(r) == Zeros(16);
    }
  }

  /** The messages agree outside the 16 bits from position `k` on. */
  ghost predicate BurstAt(a: Bits, b: Bits, k: nat)
  {
    |a| == |b| && forall i :: 0 <= i < |a| && !(k <= i < k + 16) ==> a[i] == b[i]
  }

  lemma BurstSplit(a: Bits, b: Bits, k: nat, m: nat)
    requires BurstAt(a, b, k) && k <= m <= |a| && (m == k + 16 || m == |a|) && m <= k + 16
    ensures Xor(a, b) == Zeros(k) + Xor(a, b)[k..m] + Zeros(|a| - m)
  {
  }

  lemma BurstIsDifference(a: Bits, b: Bits, k: nat, m: nat)
    requires BurstAt(a, b, k) && k <= m <= |a| && (m == k + 16 || m == |a|)
    requires forall i :: k <= i < m ==> !Xor(a, b)[i]
    ensures a == b
  {
    forall i | 0 <= i < |a| ensures a[i] == b[i] {
      if k <= i < k + 16 { assert !Xor(a, b)[i]; }
    }
  }

  /** Different messages that agree outside 16 consecutive bits leave different registers. */
  lemma BurstChangesRegister(r: Bits, a: Bits, b: Bits, k: nat)
    requires Reg(r) && BurstAt(a, b, k) && a != b && k <= |a|
    ensures Feed(r, a) != Feed(r, b)
  {
    var m := if k + 16 <= |a| then k + 16 else |a|;
    var w := Xor(a, b)[k..m];
    BurstSplit(a, b, k, m);
    BurstFeeds(r, a, b, k, w, |a| - m);
    if Feed(r, a) == Feed(r, b) {
      XorZero(Feed(r, a));
      FeedBack(Zeros(16), w);
      AllClear(w);
      assert forall i :: k <= i < m ==> Xor(a, b)[i] == w[i - k];
      BurstIsDifference(a, b, k, m);
    }
  }

  lemma AllClear(w: Bits)
    requires |w| <= 16 && Zeros(16) == w + Zeros(16 - |w|)
    ensures forall i :: 0 <= i < |w| ==> !w[i]
  {
    forall i | 0 <= i < |w| ensures !w[i] { assert w[i] == (w + Zeros(16 - |w|))[i]; }
  }

  lemma BurstFeeds(r: Bits, a: Bits, b: Bits, k: nat, w: Bits, n: nat)
    requires Reg(r) && |a| == |b| && Xor(a, b) == Zeros(k) + w + Zeros(n)
    ensures Xor(Feed(r, a), Feed(r, b)) == Zeros(16) <==> Feed(Zeros(16), w) == Zeros(16)
  {
    FeedLinear(r, r, a, b);
    XorZero(r);
    FeedAppend(Zeros(16), Zeros(k) + w, Zeros(n));
    FeedAppend(Zeros(16), Zeros(k), w);
    ZerosKeep(Zeros(16), k);
    ZerosKeep(Feed(Zeros(16), w), n);
  }

  // ------------------------------------------------------------------- on bytes

  lemma {:induction false} BitsInjective(a: Bytes, b: Bytes)
    requires |a| == |b| && MessageBits(a) == MessageBits(b)
    ensures a == b
  {
    if a != [] {
      var x, y := MessageBits(a), MessageBits(b);
      assert x[..8] == ByteBits(a[0]) && y[..8] == ByteBits(b[0]);
      assert x[8..] == MessageBits(a[1..]) && y[8..] == MessageBits(b[1..]);
      ByteInjective(a[0], b[0]);
      BitsInjective(a[1..], b[1..]);
    }
  }

  lemma ByteInjective(a: byte, b: byte)
    requires ByteBits(a) == ByteBits(b)
    ensures a == b
  {
    var x, y := ToBits(a, 8), ToBits(b, 8);
    forall i | 0 <= i < 8 ensures x[i] == y[i] { assert x[i] == ByteBits(a)[7 - i] && y[i] == ByteBits(b)[7 - i]; }
    assert x == y;
    ValueOfBits(a, 8);
    ValueOfBits(b, 8);
  }

  lemma {:induction false} ValueOfBits(n: nat, w: nat)
    requires n < Pow2(w)
    ensures FromBits(ToBits(n, w)) == n
    decreases w
  {
    if w > 0 {
      ValueOfBits(n / 2, w - 1);
      assert ToBits(n, w)[1..] == ToBits(n / 2, w - 1);
    }
  }

  /** The messages differ, but only within 16 consecutive bits. */
  ghost predicate Burst(a: Bytes, b: Bytes, k: nat)
  {
    a != b && |a| == |b| && k <= 8 * |a| && BurstAt(MessageBits(a), MessageBits(b), k)
  }

  /** Messages of any length that differ by a burst of at most 16 bits have different
      checksums. */
  lemma BurstsDetected(a: Bytes, b: Bytes, k: nat)
    requires Burst(a, b, k)
    ensures Register(Ones(16), a) != Register(Ones(16), b)
  {
    RegisterIsFeed(Ones(16), a);
    RegisterIsFeed(Ones(16), b);
    if MessageBits(a) == MessageBits(b) { BitsInjective(a, b); }
    BurstChangesRegister(Ones(16), MessageBits(a), MessageBits(b), k);
  }

  /** Sixteen is the limit: flipping the 17 bits of the generator polynomial anywhere in a
      message leaves the checksum as it was. */
  lemma SeventeenBitsEscape(r: Bits, before: Bits, w: Bits, after: Bits)
    requires Reg(r) && |w| == 17
    ensures Feed(r, before + w + after) == Feed(r, before + Xor(w, [true] + POLY) + after)
  {
    var w' := Xor(w, [true] + POLY);
    FeedAppend(r, before + w, after);
    FeedAppend(r, before, w);
    FeedAppend(r, before + w', after);
    FeedAppend(r, before, w');
    var s := Feed(r, before);
    FeedLinear(s, s, w, w');
    XorZero(s);
    assert Xor(w, w') == [true] + POLY;
    GeneratorVanishes();
    XorInjective(Feed(s, w), Feed(s, w'));
  }

  lemma XorInjective(a: Bits, b: Bits)
    requires |a| == |b| && Xor(a, b) == Zeros(|a|)
    ensures a == b
  {
    forall i | 0 <= i < |a| ensures a[i] == b[i] { assert !Xor(a, b)[i]; }
  }

  /** The polynomial is a multiple of itself. */
  lemma GeneratorVanishes()
    ensures Feed(Zeros(16), [true] + POLY) == Zeros(16)
  {
    assert ([true] + POLY)[1..] == POLY;
    assert Xor(Zeros(16), Lead(true)) == Lead(true);
    assert Shift(Lead(true)) == Xor(Zeros(16), POLY);
    assert Xor(Zeros(16), POLY) == POLY;
    FeedItself(POLY);
  }

  /** A register fed with its own bits ends at zero. */
  lemma FeedItself(r: Bits)
    requires Reg(r)
    ensures Feed(r, r) == Zeros(16)
  {
    FeedOwn(r, r);
  }

  lemma {:induction false} FeedOwn(r: Bits, bits: Bits)
    requires Reg(r) && |bits| <= 16 && r == bits + Zeros(16 - |bits|)
    ensures Feed(r, bits) == Zeros(16)
    decreases |bits|
  {
    if bits != [] {
      var x := Xor(r, Lead(bits[0]));
      assert !x[0];
      assert Shift(x) == bits[1..] + Zeros(17 - |bits|);
      FeedOwn(Shift(x), bits[1..]);
    } else {
      assert r == Zeros(16);
    }
  }

  // ---------------------------------------------------------------- odd numbers of bits

  /** An odd number of the bits are set. */
  predicate Odd(b: Bits)
  {
    b != [] && b[0] != Odd(b[1..])
  }

  lemma {:induction false} OddAppend(a: Bits, b: Bits)
    ensures Odd(a + b) == (Odd(a) != Odd(b))
  {
    if a == [] {
      assert a + b == b;
    } else {
      OddAppend(a[1..], b);
      assert (a + b)[1..] == a[1..] + b;
    }
  }

  lemma {:induction false} OddXor(a: Bits, b: Bits)
    requires |a| == |b|
    ensures Odd(Xor(a, b)) == (Odd(a) != Odd(b))
  {
    if a != [] {
      OddXor(a[1..], b[1..]);
      assert Xor(a, b)[1..] == Xor(a[1..], b[1..]);
    }
  }

  lemma {:induction false} OddReverse(b: Bits)
    ensures Odd(Reverse(b)) == Odd(b)
  {
    if b != [] {
      OddReverse(b[1..]);
      OddAppend(Reverse(b[1..]), [b[0]]);
      assert [b[0]][1..] == [];
    }
  }

  lemma {:induction false} OddZeros(n: nat)
    ensures !Odd(Zeros(n))
  {
    if n > 0 {
      OddZeros(n - 1);
      assert Zeros(n)[1..] == Zeros(n - 1);
    }
  }

  lemma {:induction false} OddOnes(n: nat)
    ensures Odd(Ones(n)) == (n % 2 == 1)
  {
    if n > 0 {
      OddOnes(n - 1);
      assert Ones(n)[1..] == Ones(n - 1);
    }
  }

  /** The generator has an even number of terms, so reducing keeps the parity. */
  lemma OddPoly()
    ensures Odd(POLY)
  {
    var z := [true];
    assert POLY == Zeros(3) + z + Zeros(6) + z + Zeros(4) + z;
    assert z[1..] == [] && Odd(z);
    OddZeros(3);
    OddZeros(4);
    OddZeros(6);
    OddAppend(Zeros(3), z);
    OddAppend(Zeros(3) + z, Zeros(6));
    OddAppend(Zeros(3) + z + Zeros(6), z);
    OddAppend(Zeros(3) + z + Zeros(6) + z, Zeros(4));
    OddAppend(Zeros(3) + z + Zeros(6) + z + Zeros(4), z);
  }

  lemma ShiftKeepsParity(r: Bits)
    requires Reg(r)
    ensures Odd(Shift(r)) == Odd(r)
  {
    OddAppend(r[1..], [false]);
    assert [false][1..] == [];
    OddPoly();
    if r[0] { OddXor(r[1..] + [false], POLY); }
  }

  /** The parity of the register counts the bits fed to it. */
  lemma {:induction false} FeedParity(r: Bits, bits: Bits)
    requires Reg(r)
    ensures Odd(Feed(r, bits)) == (Odd(r) != Odd(bits))
    decreases |bits|
  {
    if bits != [] {
      var x := Xor(r, Lead(bits[0]));
      OddZeros(15);
      assert Lead(bits[0])[1..] == Zeros(15);
      OddXor(r, Lead(bits[0]));
      ShiftKeepsParity(x);
      FeedParity(Shift(x), bits[1..]);
    }
  }

  lemma ParityFrom(r: Bits, data: Bytes)
    requires Reg(r) && !Odd(r)
    ensures Odd(Register(r, data)) == Odd(MessageBits(data))
  {
    RegisterIsFeed(r, data);
    FeedParity(r, MessageBits(data));
  }

  lemma StartIsEven()
    ensures !Odd(Ones(16))
  {
    OddOnes(16);
  }

  lemma RegisterParity(data: Bytes)
    ensures Odd(Register(Ones(16), data)) == Odd(MessageBits(data))
  {
    StartIsEven();
    ParityFrom(Ones(16), data);
  }

  /** Messages that differ in an odd number of bits, wherever these are, have different
      checksums. */
  lemma OddFlipsDetected(a: Bytes, b: Bytes)
    requires |a| == |b| && Odd(Xor(MessageBits(a), MessageBits(b)))
    ensures Register(Ones(16), a) != Register(Ones(16), b)
  {
    RegisterParity(a);
    RegisterParity(b);
    OddXor(MessageBits(a), MessageBits(b));
  }

  lemma {:induction false} MessageAppend(a: Bytes, b: Bytes)
    ensures MessageBits(a + b) == MessageBits(a) + MessageBits(b)
  {
    if a == [] {
      assert a + b == b;
    } else {
      MessageAppend(a[1..], b);
      assert (a + b)[1..] == a[1..] + b;
    }
  }

  /** The low bits of a number and then the high ones. */
  lemma {:induction false} BitsSplit(x: nat, y: nat, a: nat, b: nat, p: nat)
    requires p == Pow2(a) && x < p
    ensures ToBits(x + p * y, a + b) == ToBits(x, a) + ToBits(y, b)
    decreases a
  {
    if a == 0 {
      assert x + p * y == y;
    } else {
      var q := Pow2(a - 1);
      var m := q * y;
      assert p * y == 2 * m;
      BitsSplit(x / 2, y, a - 1, b, q);
      assert (x + 2 * m) / 2 == x / 2 + m && (x + 2 * m) % 2 == x % 2;
    }
  }

  lemma ByteParity(b: byte)
    ensures Odd(ByteBits(b)) == Odd(ToBits(b, 8))
  {
    OddReverse(ToBits(b, 8));
  }

  lemma HalvesParity(lo: nat, hi: nat, r: Bits)
    requires lo < 256 && Reg(r) && lo + 256 * hi == FromBits(Reverse(r))
    ensures Odd(r) == (Odd(ToBits(lo, 8)) != Odd(ToBits(hi, 8)))
  {
    var a, b := ToBits(lo, 8), ToBits(hi, 8);
    HalvesBits(lo, hi, Reverse(r));
    OddAppend(a, b);
    OddReverse(r);
  }

  lemma HalvesBits(lo: nat, hi: nat, w: Bits)
    requires lo < 256 && |w| == 16 && lo + 256 * hi == FromBits(w)
    ensures w == ToBits(lo, 8) + ToBits(hi, 8)
  {
    assert Pow2(8) == 256 by { Pow2IsPow256(1); Pow256Values(); }
    BitsSplit(lo, hi, 8, 8, 256);
    ToBitsOfFromBits(w);
  }

  lemma TwoBytes(bs: Bytes)
    requires |bs| == 2
    ensures UnLE(bs) == bs[0] as int + 256 * bs[1] as int && MessageBits(bs) == ByteBits(bs[0]) + ByteBits(bs[1])
  {
    assert bs[1..][0] == bs[1] && bs[1..][1..] == [];
    assert MessageBits(bs[1..]) == ByteBits(bs[1]) + [];
  }

  /** The two stored bytes of a 16-bit number have its parity. */
  lemma StoredParity(bs: Bytes, r: Bits)
    requires |bs| == 2 && Reg(r) && UnLE(bs) == FromBits(Reverse(r))
    ensures Odd(MessageBits(bs)) == Odd(r)
  {
    TwoBytes(bs);
    HalvesParity(bs[0], bs[1], r);
    ByteParity(bs[0]);
    ByteParity(bs[1]);
    OddAppend(ByteBits(bs[0]), ByteBits(bs[1]));
  }
}
