/** The end-to-end protection frame: an 18-byte header that holds a CRC over the other
    header bytes and the payload, and the subscriber that checks frames. */
module E2eFrame {
  import opened Wire
  import opened Crc

  const HEADER_SIZE: nat := 18

  /** The checksum as the 16-bit number that is stored. */
  function Checksum(data: Bytes): (n: nat)
    ensures n < 0x1_0000
  {
    ChecksumBound(data);
    FromBits(Reverse(Register(Ones(16), data)))
  }

  lemma ChecksumBound(data: Bytes)
    ensures FromBits(Reverse(Register(Ones(16), data))) < 0x1_0000
  {
    FromBitsBound(Reverse(Register(Ones(16), data)));
    Pow2IsPow256(2);
    Pow256Values();
  }

  /** The first bit of the register is the most significant one of the number. */
  lemma ChecksumIs(data: Bytes)
    ensures ToBits(Checksum(data), 16) == Reverse(Register(Ones(16), data))
  {
    ToBitsOfFromBits(Reverse(Register(Ones(16), data)));
  }

  lemma ChecksumInjective(a: Bytes, b: Bytes)
    requires Checksum(a) == Checksum(b)
    ensures Register(Ones(16), a) == Register(Ones(16), b)
  {
    var x, y := Register(Ones(16), a), Register(Ones(16), b);
    ToBitsOfFromBits(Reverse(x));
    ToBitsOfFromBits(Reverse(y));
    ReverseTwice(x);
    ReverseTwice(y);
  }

  /** The bytes that the checksum covers: everything but its own slot. */
  function Covered(frame: Bytes): Bytes
    requires |frame| >= HEADER_SIZE
  {
    frame[..16] + frame[18..]
  }

  datatype Header = Header(dataId: nat, sourceId: nat, counter: nat, timestamp: int)

  predicate ValidHeader(h: Header)
  {
    h.dataId < 0x1_0000 && h.sourceId < 0x1_0000 && h.counter < 0x1_0000_0000 && FitsSigned(h.timestamp, 8)
  }

  function HeaderBytes(h: Header): (bs: Bytes)
    requires ValidHeader(h)
    ensures |bs| == 16
  {
    LE(h.dataId, 2) + LE(h.sourceId, 2) + LE(h.counter, 4) + LE(ToUnsigned(h.timestamp, 8), 8)
  }

  function Frame(h: Header, payload: Bytes): (frame: Bytes)
    requires ValidHeader(h)
    ensures |frame| == HEADER_SIZE + |payload|
  {
    HeaderBytes(h) + LE(Checksum(HeaderBytes(h) + payload), 2) + payload
  }

  function Counter(frame: Bytes): nat
    requires |frame| >= HEADER_SIZE
  {
    UnLE(frame[4..8])
  }

  function Timestamp(frame: Bytes): int
    requires |frame| >= HEADER_SIZE
  {
    ToSigned(UnLE(frame[8..16]), 8)
  }

  predicate Intact(frame: Bytes)
    requires |frame| >= HEADER_SIZE
  {
    Checksum(Covered(frame)) == UnLE(frame[16..18])
  }

  method ComputeChecksum(data: Bytes) returns (n: nat)
    ensures n == Checksum(data)
  {
    var crc := Crc16(data);
    n := FromBits(Reverse(crc));
  }

  method MakeFrame(h: Header, payload: Bytes) returns (frame: Bytes)
    requires ValidHeader(h)
    ensures frame == Frame(h, payload)
  {
    var head := LE(h.dataId, 2) + LE(h.sourceId, 2) + LE(h.counter, 4) + LE(ToUnsigned(h.timestamp, 8), 8);
    var crc := ComputeChecksum(head + payload);
    frame := head + LE(crc, 2) + payload;
  }

  /** Rejects a frame whose checksum does not match; the counter and the timestamp are
      returned in either case. */
  method ParseFrame(data: Bytes) returns (counter: nat, ts: int, payload: Option<Bytes>)
    requires |data| >= HEADER_SIZE
    ensures counter == Counter(data) && ts == Timestamp(data)
    ensures payload == if Intact(data) then Some(data[18..]) else None
  {
    counter, ts := UnLE(data[4..8]), ToSigned(UnLE(data[8..16]), 8);
    var computed := ComputeChecksum(data[..16] + data[18..]);
    payload := if computed != UnLE(data[16..18]) then None else Some(data[18..]);
  }

  lemma FrameLayout(h: Header, payload: Bytes)
    requires ValidHeader(h)
    ensures var f := Frame(h, payload);
      && f[..16] == HeaderBytes(h) && f[18..] == payload
      && f[..2] == LE(h.dataId, 2) && f[2..4] == LE(h.sourceId, 2)
      && f[4..8] == LE(h.counter, 4) && f[8..16] == LE(ToUnsigned(h.timestamp, 8), 8)
      && f[16..18] == LE(Checksum(HeaderBytes(h) + payload), 2)
  {
    var a, b, c, d := LE(h.dataId, 2), LE(h.sourceId, 2), LE(h.counter, 4), LE(ToUnsigned(h.timestamp, 8), 8);
    var f, head := Frame(h, payload), HeaderBytes(h);
    assert head[..2] == a && head[2..4] == b && head[4..8] == c && head[8..16] == d;
    assert f[..16] == head;
    assert f[..2] == head[..2] && f[2..4] == head[2..4] && f[4..8] == head[4..8] && f[8..16] == head[8..16];
  }

  /** An unaltered frame is accepted and yields its counter, timestamp and payload. */
  lemma FrameRoundTrip(h: Header, payload: Bytes)
    requires ValidHeader(h)
    ensures var f := Frame(h, payload);
      && Intact(f) && Counter(f) == h.counter && Timestamp(f) == h.timestamp && f[18..] == payload
      && UnLE(f[..2]) == h.dataId && UnLE(f[2..4]) == h.sourceId
  {
    FrameLayout(h, payload);
    Pow256Values();
    UnLEOfLE(h.dataId, 2);
    UnLEOfLE(h.sourceId, 2);
    UnLEOfLE(h.counter, 4);
    UnLEOfLE(ToUnsigned(h.timestamp, 8), 8);
    SignRoundTrip(h.timestamp, 8);
    UnLEOfLE(Checksum(HeaderBytes(h) + payload), 2);
  }

  /** A frame whose covered bytes were altered by a burst of at most 16 bits, anywhere and
      in a frame of any length, is rejected. */
  lemma AlteredFrameRejected(h: Header, payload: Bytes, g: Bytes, k: nat)
    requires ValidHeader(h) && |g| == |Frame(h, payload)| && g[16..18] == Frame(h, payload)[16..18]
    requires Burst(Covered(Frame(h, payload)), Covered(g), k)
    ensures !Intact(g)
  {
    var f := Frame(h, payload);
    FrameRoundTrip(h, payload);
    BurstsDetected(Covered(f), Covered(g), k);
    if Checksum(Covered(f)) == Checksum(Covered(g)) { ChecksumInjective(Covered(f), Covered(g)); }
  }

  /** Every frame that is accepted has an even number of bits set. */
  lemma IntactIsEven(frame: Bytes)
    requires |frame| >= HEADER_SIZE && Intact(frame)
    ensures !Odd(MessageBits(frame))
  {
    FrameParts(frame);
    PartsParity(frame[..16], frame[16..18], frame[18..]);
    ChecksumParity(Covered(frame), frame[16..18]);
  }

  lemma FrameParts(frame: Bytes)
    requires |frame| >= HEADER_SIZE
    ensures frame == frame[..16] + frame[16..18] + frame[18..]
  {
  }

  lemma ChecksumParity(data: Bytes, c: Bytes)
    requires |c| == 2 && UnLE(c) == Checksum(data)
    ensures Odd(MessageBits(c)) == Odd(MessageBits(data))
  {
    RegisterParity(data);
    StoredParity(c, Register(Ones(16), data));
  }

  lemma PartsParity(a: Bytes, c: Bytes, b: Bytes)
    ensures Odd(MessageBits(a + c + b)) == (Odd(MessageBits(a + b)) != Odd(MessageBits(c)))
  {
    MessageAppend(a + c, b);
    MessageAppend(a, c);
    MessageAppend(a, b);
    OddAppend(MessageBits(a) + MessageBits(c), MessageBits(b));
    OddAppend(MessageBits(a), MessageBits(c));
    OddAppend(MessageBits(a), MessageBits(b));
  }

  /** So a frame with an odd number of flipped bits is rejected, wherever they are, the
      checksum included. */
  lemma OddlyAlteredFrameRejected(h: Header, payload: Bytes, g: Bytes)
    requires ValidHeader(h) && |g| == |Frame(h, payload)| && Odd(Xor(MessageBits(Frame(h, payload)), MessageBits(g)))
    ensures !Intact(g)
  {
    var f := Frame(h, payload);
    FrameRoundTrip(h, payload);
    IntactIsEven(f);
    OddXor(MessageBits(f), MessageBits(g));
    if Intact(g) { IntactIsEven(g); }
  }

  // ------------------------------------------------------------------ the subscriber

  datatype Outcome = TooShort | BadCrc | Stale | Accepted(payload: Bytes, gap: bool)

  /** What the subscriber remembers between frames. */
  datatype Progress = Progress(hasFirst: bool, lastCounter: nat)

  /** What becomes of a frame that is `age` old; a gap is reported, and the sample is
      delivered all the same. */
  function Judge(s: Progress, raw: Bytes, age: int, maxAge: int): Outcome
  {
    if |raw| < HEADER_SIZE then TooShort
    else if !Intact(raw) then BadCrc
    else if maxAge > 0 && age > maxAge then Stale
    else Accepted(raw[18..], s.hasFirst && Counter(raw) != (s.lastCounter + 1) % 0x1_0000_0000)
  }

  /** Each verdict by what it takes; the age counts only where a limit is set. */
  lemma JudgeExact(s: Progress, raw: Bytes, age: int, maxAge: int)
    ensures Judge(s, raw, age, maxAge).TooShort? <==> |raw| < 18
    ensures Judge(s, raw, age, maxAge).BadCrc? <==> |raw| >= 18 && !Intact(raw)
    ensures Judge(s, raw, age, maxAge).Stale? <==> |raw| >= 18 && Intact(raw) && 0 < maxAge < age
    ensures Judge(s, raw, age, maxAge).Accepted? ==> Judge(s, raw, age, maxAge).payload == raw[18..]
  {
  }

  function Advance(s: Progress, raw: Bytes, o: Outcome): Progress
    requires o.Accepted? ==> |raw| >= HEADER_SIZE
  {
    if o.Accepted? then Progress(true, Counter(raw)) else s
  }

  class Subscriber {
    const maxAge: int
    var hasFirst: bool
    var lastCounter: nat
    var headerTooShort: nat
    var crcFailures: nat
    var staleSamples: nat
    var sequenceGaps: nat
    var validSamples: nat
    ghost var Processed: nat

    /** Every frame is counted under exactly one verdict. */
    ghost predicate Valid()
      reads this
    {
      headerTooShort + crcFailures + staleSamples + validSamples == Processed && sequenceGaps <= validSamples
    }

    ghost function View(): Progress
      reads this
    {
      Progress(hasFirst, lastCounter)
    }

    constructor (maxAge: int)
      ensures Valid() && Processed == 0 && View() == Progress(false, 0) && this.maxAge == maxAge
    {
      this.maxAge, hasFirst, lastCounter := maxAge, false, 0;
      headerTooShort, crcFailures, staleSamples, sequenceGaps, validSamples := 0, 0, 0, 0, 0;
      Processed := 0;
    }

    method Process(raw: Bytes, now: int) returns (o: Outcome)
      requires Valid()
      modifies this
      ensures Valid() && Processed == old(Processed) + 1
      ensures o == Judge(old(View()), raw, if |raw| < HEADER_SIZE then 0 else now - Timestamp(raw), maxAge)
      ensures View() == Advance(old(View()), raw, o)
      ensures headerTooShort == old(headerTooShort) + (if o.TooShort? then 1 else 0)
      ensures validSamples == old(validSamples) + (if o.Accepted? then 1 else 0)
      ensures sequenceGaps == old(sequenceGaps) + (if o.Accepted? && o.gap then 1 else 0)
      ensures crcFailures == old(crcFailures) + (if o.BadCrc? then 1 else 0)
      ensures staleSamples == old(staleSamples) + (if o.Stale? then 1 else 0)
    {
      Processed := Processed + 1;
      o := Verdict(raw, now);
      match o
      case TooShort => headerTooShort := headerTooShort + 1;
      case BadCrc => crcFailures := crcFailures + 1;
      case Stale => staleSamples := staleSamples + 1;
      case Accepted(_, gap) => Accept(Counter(raw), gap);
    }

    method Verdict(raw: Bytes, now: int) returns (o: Outcome)
      ensures o == Judge(View(), raw, if |raw| < HEADER_SIZE then 0 else now - Timestamp(raw), maxAge)
    {
      if |raw| < HEADER_SIZE {
        return TooShort;
      }
      var counter, ts, payload := ParseFrame(raw);
      if payload.None? {
        return BadCrc;
      }
      if maxAge > 0 && now - ts > maxAge {
        return Stale;
      }
      o := Accepted(payload.value, hasFirst && counter != (lastCounter + 1) % 0x1_0000_0000);
    }

    method Accept(counter: nat, gap: bool)
      modifies `hasFirst, `lastCounter, `sequenceGaps, `validSamples
      ensures hasFirst && lastCounter == counter && validSamples == old(validSamples) + 1
      ensures sequenceGaps == old(sequenceGaps) + (if gap then 1 else 0)
    {
      if gap {
        sequenceGaps := sequenceGaps + 1;
      }
      hasFirst, lastCounter := true, counter;
      validSamples := validSamples + 1;
    }
  }

  /** Of two frames of one publisher that are accepted in succession, the second reports a
      gap exactly when frames between them are missing and their number is not a multiple of
      2^32. */
  lemma LossReported(j: Header, pj: Bytes, k: Header, pk: Bytes, m: nat, n: nat, s: Progress, age: int, maxAge: int)
    requires ValidHeader(j) && ValidHeader(k) && m < n
    requires j.counter == m % 0x1_0000_0000 && k.counter == n % 0x1_0000_0000
    requires !(maxAge > 0 && age > maxAge)
    ensures var o := Judge(s, Frame(j, pj), age, maxAge);
      && o.Accepted? && o.payload == pj
      && Judge(Advance(s, Frame(j, pj), o), Frame(k, pk), age, maxAge)
           == Accepted(pk, (n - m - 1) % 0x1_0000_0000 != 0)
  {
    JudgeFrame(j, pj, s, age, maxAge);
    WrapGap(m, n - m - 1);
    assert m + 1 + (n - m - 1) == n;
    JudgeFrame(k, pk, Progress(true, j.counter), age, maxAge);
  }

  /** An unaltered frame is stale exactly when a limit is set and it is older; otherwise it is
      accepted, with a gap unless it is the first or the successor of the last accepted one. A
      stale frame leaves no trace in what the subscriber remembers. */
  lemma JudgeFrame(h: Header, payload: Bytes, s: Progress, age: int, maxAge: int)
    requires ValidHeader(h)
    ensures var f, late := Frame(h, payload), maxAge > 0 && age > maxAge;
      && Judge(s, f, age, maxAge) == (if late then Stale
           else Accepted(payload, s.hasFirst && h.counter != (s.lastCounter + 1) % 0x1_0000_0000))
      && Advance(s, f, Judge(s, f, age, maxAge)) == if late then s else Progress(true, h.counter)
  {
    FrameRoundTrip(h, payload);
  }

  /** No refused frame leaves a trace. */
  lemma RefusedKeeps(s: Progress, raw: Bytes, age: int, maxAge: int)
    requires !Judge(s, raw, age, maxAge).Accepted?
    ensures Advance(s, raw, Judge(s, raw, age, maxAge)) == s
  {
  }

  lemma WrapGap(m: nat, d: nat)
    ensures (m + 1 + d) % 0x1_0000_0000 == (m % 0x1_0000_0000 + 1) % 0x1_0000_0000 <==> d % 0x1_0000_0000 == 0
  {
    var a, x := m / 0x1_0000_0000, m % 0x1_0000_0000;
    var b, y := d / 0x1_0000_0000, d % 0x1_0000_0000;
    assert m + 1 + d == (a + b) * 0x1_0000_0000 + (x + 1 + y);
  }
}
