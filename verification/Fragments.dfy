/** DATA_FRAG: splitting a payload into fragments and reassembling it (section 8.3.7.3 of
    RTPS 2.3). */
module Fragments {
  import opened Wire
  import opened Submessages

  const MAX_REASSEMBLY: nat := 16 * 1024 * 1024
  const DEFAULT_FRAGMENT: nat := 1200
  const STALE_AGE: int := 5_000_000_000
  const DATA_FRAG_ID: byte := 0x16

  datatype Fragment = Fragment(
    writer: EntityId, reader: EntityId, sn: SequenceNumber,
    start: nat, count: nat, size: nat, total: nat, payload: Bytes)

  /** The fields fit their wire widths. */
  predicate WireSized(f: Fragment)
  {
    f.start < 0x1_0000_0000 && f.count < 0x1_0000 && f.size < 0x1_0000 && f.total < 0x1_0000_0000
  }

  // ------------------------------------------------------------------ wire format

  function FragmentBody(f: Fragment): Bytes
  {
    LE(0, 2) + LE(0, 2) + f.reader + f.writer + EncodeSn(f.sn)
    + LE(f.start, 4) + LE(f.count, 2) + LE(f.size, 2) + LE(f.total, 4) + f.payload
  }

  function ParseFragment(bs: Bytes): Option<Fragment>
  {
    if |bs| < 32 then None
    else Some(Fragment(bs[8..12], bs[4..8], DecodeSn(bs[12..20]), UnLE(bs[20..24]), UnLE(bs[24..26]),
                       UnLE(bs[26..28]), UnLE(bs[28..32]), bs[32..]))
  }

  lemma FragmentFields(f: Fragment)
    ensures var bs := FragmentBody(f);
      && |bs| == 32 + |f.payload| && bs[..4] == [0, 0, 0, 0]
      && bs[4..8] == f.reader && bs[8..12] == f.writer && bs[12..20] == EncodeSn(f.sn)
      && bs[20..24] == LE(f.start, 4) && bs[24..26] == LE(f.count, 2) && bs[26..28] == LE(f.size, 2)
      && bs[28..32] == LE(f.total, 4) && bs[32..] == f.payload
  {
    assert LE(0, 2) == [0] + LE(0, 1) && LE(0, 1) == [0] + LE(0, 0);
    var head := LE(0, 2) + LE(0, 2);
    assert head == [0, 0, 0, 0];
    FragmentTail(f, head);
  }

  lemma FragmentTail(f: Fragment, head: Bytes)
    requires |head| == 4
    ensures var bs := head + f.reader + f.writer + EncodeSn(f.sn)
        + LE(f.start, 4) + LE(f.count, 2) + LE(f.size, 2) + LE(f.total, 4) + f.payload;
      && |bs| == 32 + |f.payload| && bs[..4] == head
      && bs[4..8] == f.reader && bs[8..12] == f.writer && bs[12..20] == EncodeSn(f.sn)
      && bs[20..24] == LE(f.start, 4) && bs[24..26] == LE(f.count, 2) && bs[26..28] == LE(f.size, 2)
      && bs[28..32] == LE(f.total, 4) && bs[32..] == f.payload
  {
    var ids := head + f.reader + f.writer + EncodeSn(f.sn);
    var a, b, c, d := LE(f.start, 4), LE(f.count, 2), LE(f.size, 2), LE(f.total, 4);
    var bs := ids + a + b + c + d + f.payload;
    assert bs[..20] == ids;
    assert bs[20..24] == a && bs[24..26] == b && bs[26..28] == c && bs[28..32] == d && bs[32..] == f.payload;
    assert bs[..4] == ids[..4] && bs[4..8] == ids[4..8] && bs[8..12] == ids[8..12] && bs[12..20] == ids[12..20];
  }

  /** A body shorter than the fixed fields is refused. */
  lemma ParseFragmentExact(bs: Bytes)
    ensures ParseFragment(bs).Some? <==> |bs| >= 32
  {
  }

  lemma FragmentRoundTrip(f: Fragment)
    requires WireSized(f)
    ensures ParseFragment(FragmentBody(f)) == Some(f)
  {
    FragmentFields(f);
    Pow256Values();
    SnWireRoundTrip(f.sn);
    UnLEOfLE(f.start, 4);
    UnLEOfLE(f.count, 2);
    UnLEOfLE(f.size, 2);
    UnLEOfLE(f.total, 4);
  }

  /** The submessage survives framing exactly when its length fits the 16-bit length field,
      which allows payloads of up to 65503 bytes. */
  lemma FragmentFramed(f: Fragment)
    ensures var m := Submessage(DATA_FRAG_ID, FLAG_ENDIANNESS, FragmentBody(f));
      && Frame(m)[0] == 0x16 && Frame(m)[1] == 0x01
      && (Submessages.Split(Frame(m)).0 == [m] <==> |f.payload| <= 65503)
  {
    var m := Submessage(DATA_FRAG_ID, FLAG_ENDIANNESS, FragmentBody(f));
    FragmentFields(f);
    if |f.payload| <= 65503 {
      FramingRoundTrip([m]);
      assert FrameAll([m]) == Frame(m);
    } else {
      var bs := Frame(m);
      SplitStep(bs);
      var n := BodyLength(bs);
      assert bs[1] == FLAG_ENDIANNESS;
      assert Submessages.Split(bs).0[0] == Submessage(bs[0], bs[1], bs[4..][..n]);
      assert |bs[4..][..n]| < |m.body|;
    }
  }

  // --------------------------------------------------------------------- splitting

  function Ceil(a: nat, b: nat): nat
    requires b > 0
  {
    (a + b - 1) / b
  }

  /** The fragment that carries bytes [i*size, (i+1)*size) of the payload. */
  function Piece(writer: EntityId, sn: SequenceNumber, payload: Bytes, size: nat, i: nat): Fragment
    requires size > 0 && i * size < |payload|
  {
    var end := if (i + 1) * size > |payload| then |payload| else (i + 1) * size;
    Fragment(writer, [0, 0, 0, 0], sn, (i + 1) % 0x1_0000_0000, 1, size, |payload| % 0x1_0000_0000,
        payload[i * size..end])
  }

  /** The fragment size in use: a default for none, and otherwise cut to 16 bits. */
  function FragmentSize(maxPayload: int): nat
  {
    if maxPayload <= 0 then DEFAULT_FRAGMENT else maxPayload % 0x1_0000
  }

  /** Exactly a positive multiple of 65536 leaves a size of zero, by which the source divides. */
  lemma ZeroSizeExact(maxPayload: int)
    ensures FragmentSize(maxPayload) == 0 <==> 0 < maxPayload && maxPayload % 0x1_0000 == 0
    ensures maxPayload <= 0 ==> FragmentSize(maxPayload) == 1200
    ensures 0 < maxPayload < 0x1_0000 ==> FragmentSize(maxPayload) == maxPayload
  {
  }

  method Split(writer: EntityId, sn: SequenceNumber, payload: Bytes, maxPayload: int) returns (frags: seq<Fragment>)
    requires FragmentSize(maxPayload) != 0
    ensures var size := FragmentSize(maxPayload);
      |frags| == Ceil(|payload|, size) && Pieces(writer, sn, payload, size, frags)
  {
    var size := FragmentSize(maxPayload);
    frags := [];
    var offset, n := 0, 0;
    while offset < |payload|
      invariant n == |frags| && offset == Min(n * size, |payload|)
      invariant n > 0 ==> (n - 1) * size < |payload|
      invariant Pieces(writer, sn, payload, size, frags)
      decreases |payload| - offset
    {
      var end := offset + size;
      if end > |payload| {
        end := |payload|;
      }
      var f := Fragment(writer, [0, 0, 0, 0], sn, (n + 1) % 0x1_0000_0000, 1, size, |payload| % 0x1_0000_0000,
        payload[offset..end]);
      NextPiece(writer, sn, payload, size, frags, offset, end, f);
      frags := frags + [f];
      offset := end;
      n := n + 1;
    }
    CeilIs(|payload|, size, n);
  }

  lemma NextPiece(writer: EntityId, sn: SequenceNumber, payload: Bytes, size: nat, frags: seq<Fragment>, offset: nat,
      end: nat, f: Fragment)
    requires size > 0 && Pieces(writer, sn, payload, size, frags)
    requires offset == |frags| * size < |payload| && end == Min(offset + size, |payload|)
    requires f == Fragment(writer, [0, 0, 0, 0], sn, (|frags| + 1) % 0x1_0000_0000, 1, size,
      |payload| % 0x1_0000_0000, payload[offset..end])
    ensures Pieces(writer, sn, payload, size, frags + [f])
    ensures end == Min((|frags| + 1) * size, |payload|)
  {
    assert (|frags| + 1) * size == offset + size;
    assert f == Piece(writer, sn, payload, size, |frags|);
  }

  /** The payloads one after the other. */
  function Joined(frags: seq<Fragment>): Bytes
  {
    if frags == [] then [] else Joined(frags[..|frags| - 1]) + frags[|frags| - 1].payload
  }

  /** The pieces make up the payload as far as they go, so all of them make up all of it. */
  lemma {:induction false} PiecesJoin(writer: EntityId, sn: SequenceNumber, payload: Bytes, size: nat,
      frags: seq<Fragment>)
    requires size > 0 && Pieces(writer, sn, payload, size, frags)
    ensures Joined(frags) == payload[..Min(|frags| * size, |payload|)]
    ensures forall i :: 0 <= i < |frags| ==> frags[i].start == (i + 1) % 0x1_0000_0000 && frags[i].count == 1
    decreases |frags|
  {
    if frags != [] {
      var n := |frags| - 1;
      PiecesJoin(writer, sn, payload, size, frags[..n]);
      NextMultiple(n, size);
      assert frags[n] == Piece(writer, sn, payload, size, n);
      var a, b := n * size, Min(|frags| * size, |payload|);
      assert payload[..b] == payload[..a] + payload[a..b];
    }
  }

  function Min(a: nat, b: nat): nat
  {
    if a < b then a else b
  }

  predicate Pieces(writer: EntityId, sn: SequenceNumber, payload: Bytes, size: nat, frags: seq<Fragment>)
    requires size > 0
  {
    forall i :: 0 <= i < |frags| ==> i * size < |payload| && frags[i] == Piece(writer, sn, payload, size, i)
  }

  lemma CeilIs(a: nat, b: nat, n: nat)
    requires b > 0 && a <= n * b && (n == 0 || (n - 1) * b < a)
    ensures Ceil(a, b) == n
  {
    DivBetween(a + b - 1, b, n);
  }

  lemma DivBetween(x: nat, b: nat, n: nat)
    requires b > 0 && n * b <= x < n * b + b
    ensures x / b == n
  {
    var q := x / b;
    assert q * b <= x < q * b + b;
    if q < n { MulMono(q + 1, n, b); } else if q > n { MulMono(n + 1, q, b); }
  }

  lemma MulMono(a: nat, b: nat, c: nat)
    requires a <= b
    ensures a * c <= b * c
  {
    assert b * c == a * c + (b - a) * c;
  }

  // --------------------------------------------------------------------- reassembly

  datatype Key = Key(writer: EntityId, sn: U64)

  datatype Buffer = Buffer(data: Bytes, seen: seq<bool>, received: nat, total: nat, created: int)

  type Buffers = map<Key, Buffer>

  function KeyOf(f: Fragment): Key
  {
    Key(f.writer, SnToU64(f.sn))
  }

  predicate Rejected(f: Fragment)
  {
    f.size == 0 || f.total == 0 || f.count == 0 || f.start == 0 || f.total > MAX_REASSEMBLY
  }

  predicate Expired(b: Buffer, now: int)
  {
    now - b.created > STALE_AGE
  }

  function Live(bufs: Buffers, now: int): Buffers
  {
    map k | k in bufs && !Expired(bufs[k], now) :: bufs[k]
  }

  function Empty(f: Fragment, now: int): Buffer
    requires !Rejected(f)
  {
    var total := Ceil(f.total, f.size);
    Buffer(ZeroBytes(f.total), Zeros(total), 0, total, now)
  }

  /** What the loop does with the i-th fragment of a submessage: leave the loop, skip a
      duplicate, violate a slice bound, or store it. */
  datatype Turn = Leave | Skip | Fault | Put(buffer: Buffer)

  /** Where the fragment goes in the buffer, in 32 bits. */
  function Offset(f: Fragment, index: nat): nat
  {
    (index * f.size) % 0x1_0000_0000
  }

  /** The bounds of the fragment in the submessage's payload. */
  function Bounds(f: Fragment, i: nat): (nat, nat)
  {
    (i * f.size, Min(i * f.size + f.size, |f.payload|))
  }

  function TurnFor(b: Buffer, f: Fragment, i: nat): (t: Turn)
    requires !Rejected(f) && |b.seen| == b.total
    ensures t.Put? ==> |t.buffer.seen| == t.buffer.total
  {
    var index := f.start - 1 + i;
    if index >= b.total then Leave
    else if b.seen[index] then Skip
    else if Offset(f, index) >= f.total then Leave
    else
      var (from, to) := Bounds(f, i);
      if from > to || Min(Offset(f, index) + (to - from), f.total) > |b.data| then Fault
      else Put(Place(b, index, Offset(f, index), Min(Offset(f, index) + (to - from), f.total), f.payload[from..to]))
  }

  /** Stores the i-th and later fragments of a submessage, if no bound is violated. */
  function Fill(b: Buffer, f: Fragment, i: nat): Option<Buffer>
    requires !Rejected(f) && |b.seen| == b.total
    decreases f.count - i
  {
    if i >= f.count then Some(b)
    else
      match TurnFor(b, f, i)
      case Leave => Some(b)
      case Skip => Fill(b, f, i + 1)
      case Fault => None
      case Put(b') => Fill(b', f, i + 1)
  }

  /** Copies as much of the chunk as fits between the bounds, and marks the fragment. */
  function Place(b: Buffer, index: nat, offset: nat, end: nat, chunk: Bytes): (b': Buffer)
    requires index < |b.seen| && offset <= end <= |b.data| && end - offset <= |chunk|
    ensures |b'.seen| == |b.seen| && |b'.data| == |b.data| && b'.total == b.total
  {
    b.(data := b.data[..offset] + chunk[..end - offset] + b.data[end..],
       seen := b.seen[index := true], received := b.received + 1)
  }

  /** The buffer that the fragment is added to. */
  function Target(bufs: Buffers, f: Fragment, now: int): Buffer
    requires !Rejected(f)
  {
    var live := Live(bufs, now);
    if KeyOf(f) in live then live[KeyOf(f)] else Empty(f, now)
  }

  ghost predicate Sized(bufs: Buffers)
  {
    forall k <- bufs :: |bufs[k].seen| == bufs[k].total
  }

  /** The loop ends at the k-th fragment of the submessage: it lies behind the buffer's
      fragments, or is missing and begins behind the declared size. */
  predicate LeavesAt(b: Buffer, f: Fragment, k: nat)
    requires f.start > 0 && |b.seen| == b.total
  {
    f.start - 1 + k >= b.total || (!b.seen[f.start - 1 + k] && Offset(f, f.start - 1 + k) >= f.total)
  }

  /** The submessage carries the beginning of its k-th fragment, and the buffer has room up
      to where its bytes end. */
  predicate Carries(b: Buffer, f: Fragment, k: nat)
    requires f.start > 0
  {
    && k * f.size <= |f.payload|
    && Min(Offset(f, f.start - 1 + k) + Min(f.size, |f.payload| - k * f.size), f.total) <= |b.data|
  }

  predicate Lacks(b: Buffer, f: Fragment, k: nat)
    requires f.start > 0 && |b.seen| == b.total
  {
    f.start - 1 + k < b.total && !b.seen[f.start - 1 + k]
  }

  /** The loop, being at the i-th fragment, reaches the k-th and does not leave there. */
  ghost predicate Passes(b: Buffer, f: Fragment, i: nat, k: nat)
    requires f.start > 0 && |b.seen| == b.total
  {
    forall j :: i <= j <= k ==> !LeavesAt(b, f, j)
  }

  /** Every fragment from the i-th on that the loop reaches and that is missing is carried. */
  ghost predicate Carried(b: Buffer, f: Fragment, i: nat)
    requires f.start > 0 && |b.seen| == b.total
  {
    forall k :: i <= k < f.count && Passes(b, f, i, k) && Lacks(b, f, k) ==> Carries(b, f, k)
  }

  /** The fragment is rejected, or no slice of the buffer or of its payload is out of range. */
  ghost predicate InBounds(bufs: Buffers, f: Fragment, now: int)
    requires Sized(bufs)
  {
    Rejected(f) || Carried(Target(bufs, f, now), f, 0)
  }

  lemma TurnIs(b: Buffer, f: Fragment, k: nat)
    requires !Rejected(f) && |b.seen| == b.total
    ensures TurnFor(b, f, k).Leave? <==> LeavesAt(b, f, k)
    ensures TurnFor(b, f, k).Skip? <==> !LeavesAt(b, f, k) && !Lacks(b, f, k)
    ensures TurnFor(b, f, k).Fault? <==> !LeavesAt(b, f, k) && Lacks(b, f, k) && !Carries(b, f, k)
  {
  }

  /** Storing one fragment changes nothing about the later ones. */
  lemma LaterTurns(b: Buffer, b': Buffer, f: Fragment, i: nat)
    requires f.start > 0 && |b.seen| == b.total && f.start - 1 + i < b.total
    requires b'.total == b.total && b'.seen == b.seen[f.start - 1 + i := true] && |b'.data| == |b.data|
    ensures Carried(b', f, i + 1) <==> Carried(b, f, i + 1)
  {
    forall k | i < k ensures LeavesAt(b', f, k) == LeavesAt(b, f, k) && Lacks(b', f, k) == Lacks(b, f, k) { }
    forall k | i < k ensures Carries(b', f, k) == Carries(b, f, k) { }
    var next := i + 1;
    forall k | i < k ensures Passes(b', f, next, k) == Passes(b, f, next, k) { }
  }

  /** The turn at `i` and then the rest. */
  lemma CarriedStep(b: Buffer, f: Fragment, i: nat)
    requires f.start > 0 && |b.seen| == b.total && i < f.count
    ensures LeavesAt(b, f, i) ==> Carried(b, f, i)
    ensures !LeavesAt(b, f, i) ==>
      (Carried(b, f, i) <==> (!Lacks(b, f, i) || Carries(b, f, i)) && Carried(b, f, i + 1))
  {
    forall k | i <= k ensures Passes(b, f, i, k) <==> !LeavesAt(b, f, i) && (k == i || Passes(b, f, i + 1, k)) {
      PassesStep(b, f, i, k);
    }
  }

  lemma PassesStep(b: Buffer, f: Fragment, i: nat, k: nat)
    requires f.start > 0 && |b.seen| == b.total && i <= k
    ensures Passes(b, f, i, k) <==> !LeavesAt(b, f, i) && (k == i || Passes(b, f, i + 1, k))
  {
  }

  /** A submessage is stored without a slice out of range exactly under that condition. */
  lemma {:induction false} FillExact(b: Buffer, f: Fragment, i: nat)
    requires !Rejected(f) && |b.seen| == b.total
    ensures Fill(b, f, i).Some? <==> Carried(b, f, i)
    decreases f.count - i
  {
    if i < f.count {
      TurnIs(b, f, i);
      CarriedStep(b, f, i);
      match TurnFor(b, f, i)
      case Skip => FillExact(b, f, i + 1);
      case Put(b') =>
        LaterTurns(b, b', f, i);
        FillExact(b', f, i + 1);
      case _ =>
    }
  }

  /** A first fragment suffices: three fragments of ten bytes are declared and five bytes
      carried, and the second one begins behind them. */
  lemma ShortPayloadFaults(writer: EntityId, sn: SequenceNumber, payload: Bytes)
    requires |payload| == 5
    ensures var f := Fragment(writer, [0, 0, 0, 0], sn, 1, 3, 10, 30, payload);
      !Rejected(f) && !InBounds(map[], f, 0) && Fill(Target(map[], f, 0), f, 0) == None
  {
    var f := Fragment(writer, [0, 0, 0, 0], sn, 1, 3, 10, 30, payload);
    var b := Target(map[], f, 0);
    assert b.total == 3 && Passes(b, f, 0, 1) && Lacks(b, f, 1) && !Carries(b, f, 1);
    FillExact(b, f, 0);
  }

  // ------------------------------------------------------- what a submessage stores

  /** Byte `x` of the data is the byte of the submessage's payload at that distance from the
      place of its first fragment. */
  predicate FromPayload(data: Bytes, f: Fragment, x: nat)
    requires x < |data| && f.start > 0
  {
    var first := (f.start - 1) * f.size;
    first <= x < first + |f.payload| && data[x] == f.payload[x - first]
  }

  /** The buffer has changed only by bytes of the payload in their places, and only fragments
      that the submessage declares were marked. */
  ghost predicate Grown(b: Buffer, r: Buffer, f: Fragment)
    requires f.start > 0
  {
    && |r.data| == |b.data| && r.total == b.total && r.created == b.created && |r.seen| == |b.seen|
    && (forall x: nat :: x < |r.data| ==> r.data[x] == b.data[x] || FromPayload(r.data, f, x))
    && (forall n :: 0 <= n < |b.seen| && b.seen[n] ==> r.seen[n])
    && forall n :: 0 <= n < |b.seen| && r.seen[n] ==> b.seen[n] || f.start - 1 <= n < f.start - 1 + f.count
  }

  /** The places of the buffer's fragments do not exceed 32 bits. */
  predicate Places32(b: Buffer, f: Fragment)
  {
    b.total == 0 || (b.total - 1) * f.size < 0x1_0000_0000
  }

  lemma PlaceOf(b: Buffer, f: Fragment, i: nat)
    requires Places32(b, f) && f.start > 0 && f.start - 1 + i < b.total
    ensures Offset(f, f.start - 1 + i) == (f.start - 1) * f.size + i * f.size
  {
    var n := f.start - 1 + i;
    Multiples(f.size, f.start - 1, i, i + 1);
    MulMono(n, b.total - 1, f.size);
  }

  lemma PutAt(b: Buffer, f: Fragment, i: nat)
    requires !Rejected(f) && |b.seen| == b.total && TurnFor(b, f, i).Put?
    ensures var n := f.start - 1 + i; var (from, to) := Bounds(f, i); var offset := Offset(f, n);
      var end := Min(offset + (to - from), f.total);
      && n < b.total && from <= to <= |f.payload| && offset <= end <= |b.data|
      && TurnFor(b, f, i).buffer == Place(b, n, offset, end, f.payload[from..to])
  {
  }

  /** One turn. */
  lemma TurnGrows(b: Buffer, f: Fragment, i: nat)
    requires !Rejected(f) && |b.seen| == b.total && i < f.count && TurnFor(b, f, i).Put? && Places32(b, f)
    ensures Grown(b, TurnFor(b, f, i).buffer, f)
  {
    PutAt(b, f, i);
    PlaceOf(b, f, i);
    var (from, to) := Bounds(f, i);
    var offset := Offset(f, f.start - 1 + i);
    PlaceGrows(b, f, f.start - 1 + i, offset, Min(offset + (to - from), f.total), from, to);
  }

  lemma PlaceGrows(b: Buffer, f: Fragment, n: nat, offset: nat, end: nat, from: nat, to: nat)
    requires f.start > 0 && f.start - 1 <= n < |b.seen| && n < f.start - 1 + f.count
    requires offset == (f.start - 1) * f.size + from && from <= to <= |f.payload|
    requires offset <= end <= |b.data| && end <= offset + (to - from)
    ensures Grown(b, Place(b, n, offset, end, f.payload[from..to]), f)
  {
    var r := Place(b, n, offset, end, f.payload[from..to]);
    PlacedFrom(b.data, f, (f.start - 1) * f.size, offset, end, from, to);
    assert r.data == b.data[..offset] + f.payload[from..to][..end - offset] + b.data[end..];
  }

  lemma GrownTwice(a: Buffer, b: Buffer, c: Buffer, f: Fragment)
    requires f.start > 0 && Grown(a, b, f) && Grown(b, c, f)
    ensures Grown(a, c, f)
  {
    forall x: nat | x < |c.data| ensures c.data[x] == a.data[x] || FromPayload(c.data, f, x) {
      if c.data[x] == b.data[x] && b.data[x] != a.data[x] { assert FromPayload(b.data, f, x); }
    }
  }

  /** Every byte that a submessage adds to a buffer, whatever the number of its fragments, is
      the byte of its payload at that distance from its first fragment. */
  lemma {:induction false} FillGrows(b: Buffer, f: Fragment, i: nat)
    requires !Rejected(f) && |b.seen| == b.total && Fill(b, f, i).Some? && Places32(b, f)
    ensures Grown(b, Fill(b, f, i).value, f)
    decreases f.count - i
  {
    if i < f.count {
      FillTurn(b, f, i);
      match TurnFor(b, f, i)
      case Leave =>
      case Skip => FillGrows(b, f, i + 1);
      case Put(b') =>
        TurnGrows(b, f, i);
        FillGrows(b', f, i + 1);
        GrownTwice(b, b', Fill(b', f, i + 1).value, f);
    }
  }

  lemma PlacedFrom(data: Bytes, f: Fragment, first: nat, offset: nat, end: nat, from: nat, to: nat)
    requires f.start > 0 && first == (f.start - 1) * f.size && offset == first + from
    requires from <= to <= |f.payload| && offset <= end <= |data| && end <= offset + (to - from)
    ensures var data' := data[..offset] + f.payload[from..to][..end - offset] + data[end..];
      |data'| == |data| && forall x: nat :: x < |data'| ==> data'[x] == data[x] || FromPayload(data', f, x)
  {
    var data' := data[..offset] + f.payload[from..to][..end - offset] + data[end..];
    forall x: nat | x < |data'| && offset <= x < end ensures data'[x] == f.payload[x - first] {
      assert data'[x] == f.payload[from..to][x - offset];
    }
  }

  function Complete(b: Buffer): bool
  {
    b.received >= b.total
  }

  /** The buffer after the whole submessage. */
  ghost function Stored(b: Buffer, f: Fragment): (r: Buffer)
    requires !Rejected(f) && |b.seen| == b.total && Carried(b, f, 0)
    ensures Fill(b, f, 0) == Some(r) && |r.seen| == r.total
  {
    FillExact(b, f, 0);
    FillSized(b, f, 0);
    Fill(b, f, 0).value
  }

  /** The buffers and the completed payload, if any, after a fragment. */
  ghost function Received(bufs: Buffers, f: Fragment, now: int): (Buffers, Option<Bytes>)
    requires Sized(bufs) && InBounds(bufs, f, now)
  {
    if Rejected(f) then (bufs, None)
    else
      var b := Stored(Target(bufs, f, now), f);
      if Complete(b) then (Live(bufs, now) - {KeyOf(f)}, Some(b.data))
      else (Live(bufs, now)[KeyOf(f) := b], None)
  }

  /** Buffers are told apart by the writer and the whole sequence number. */
  lemma KeysDiffer(f: Fragment, g: Fragment)
    ensures KeyOf(f) == KeyOf(g) <==> f.writer == g.writer && f.sn == g.sn
  {
    if SnToU64(f.sn) == SnToU64(g.sn) { SnInjective(f.sn, g.sn); }
  }

  /** Malformed fragments and those of more than 16 MiB leave no trace, not even of the time. */
  lemma RefusedExact(bufs: Buffers, f: Fragment, now: int)
    requires Sized(bufs)
    ensures f.size == 0 || f.total == 0 || f.count == 0 || f.start == 0 || f.total > 16_777_216 ==>
      InBounds(bufs, f, now) && Received(bufs, f, now) == (bufs, None)
    ensures f.size > 0 && f.count > 0 && f.start > 0 && 0 < f.total <= 16_777_216 && InBounds(bufs, f, now) ==>
      KeyOf(f) in Received(bufs, f, now).0 || Received(bufs, f, now).1.Some?
  {
  }

  /** A buffer is dropped when it is more than five seconds old. */
  lemma StaleExact(bufs: Buffers, now: int, k: Key)
    ensures k in Live(bufs, now) <==> k in bufs && now - bufs[k].created <= 5_000_000_000
    ensures k in Live(bufs, now) ==> Live(bufs, now)[k] == bufs[k]
  {
  }

  class Assembler {
    var buffers: Buffers

    constructor ()
      ensures buffers == map[]
    {
      buffers := map[];
    }

    method Receive(f: Fragment, now: int) returns (r: Option<Bytes>)
      requires Sized(buffers) && InBounds(buffers, f, now)
      modifies this
      ensures buffers == Received(old(buffers), f, now).0 && r == Received(old(buffers), f, now).1
    {
      if f.size == 0 || f.total == 0 || f.count == 0 || f.start == 0 || f.total > MAX_REASSEMBLY {
        return None;
      }
      var total := (f.total + f.size - 1) / f.size;
      var key := KeyOf(f);
      buffers := Live(buffers, now);
      var b := if key in buffers then buffers[key] else Buffer(ZeroBytes(f.total), Zeros(total), 0, total, now);
      b := FillLoop(b, f);
      if b.received >= b.total {
        buffers := buffers - {key};
        return Some(b.data);
      }
      buffers := buffers[key := b];
      r := None;
    }
  }

  method FillLoop(b0: Buffer, f: Fragment) returns (b: Buffer)
    requires !Rejected(f) && |b0.seen| == b0.total && Carried(b0, f, 0)
    ensures Fill(b0, f, 0) == Some(b)
  {
    FillExact(b0, f, 0);
    b := b0;
    var i := 0;
    while i < f.count
      invariant i <= f.count && |b.seen| == b.total && Fill(b, f, i) == Fill(b0, f, 0)
      decreases f.count - i
    {
      var turn := TakeTurn(b, f, i);
      if turn.Leave? {
        break;
      }
      if turn.Put? {
        b := turn.buffer;
      }
      i := i + 1;
    }
  }

  method TakeTurn(b: Buffer, f: Fragment, i: nat) returns (t: Turn)
    requires !Rejected(f) && |b.seen| == b.total && !TurnFor(b, f, i).Fault?
    ensures t == TurnFor(b, f, i)
  {
    var index := f.start - 1 + i;
    if index >= b.total {
      return Leave;
    }
    if b.seen[index] {
      return Skip;
    }
    var offset := Offset(f, index);
    if offset >= f.total {
      return Leave;
    }
    var (from, to) := Bounds(f, i);
    var end := offset + (to - from);
    if end > f.total {
      end := f.total;
    }
    t := Put(Place(b, index, offset, end, f.payload[from..to]));
  }

  // ------------------------------------------------- one payload among other traffic

  /** A fragmented payload: its key, its bytes and its fragment size. */
  datatype Source = Source(writer: EntityId, sn: SequenceNumber, payload: Bytes, size: nat)

  predicate ValidSource(p: Source)
  {
    0 < |p.payload| <= MAX_REASSEMBLY && 0 < p.size < 0x1_0000
  }

  lemma SourceExact(p: Source)
    ensures ValidSource(p) <==> 0 < |p.payload| <= 16_777_216 && 0 < p.size <= 65535
  {
  }

  /** The number of the piece that byte `x` belongs to. */
  function PieceAt(x: nat, size: nat): nat
    requires size > 0
    decreases x, size
  {
    if x < size then 0 else 1 + PieceAt(x - size, size)
  }

  function Count(p: Source): nat
    requires ValidSource(p)
  {
    PieceAt(|p.payload| - 1, p.size) + 1
  }

  function SourceKey(p: Source): Key
  {
    Key(p.writer, SnToU64(p.sn))
  }

  lemma {:induction false} PieceBounds(x: nat, size: nat)
    requires size > 0
    ensures PieceAt(x, size) * size <= x < PieceAt(x, size) * size + size && PieceAt(x, size) <= x
    decreases x
  {
    if x >= size {
      PieceBounds(x - size, size);
      NextMultiple(PieceAt(x - size, size), size);
    }
  }

  lemma NextMultiple(q: nat, size: nat)
    ensures (1 + q) * size == q * size + size
  {
  }

  lemma {:induction false} PieceOrder(x: nat, y: nat, size: nat)
    requires size > 0 && x <= y
    ensures PieceAt(x, size) <= PieceAt(y, size)
    decreases x
  {
    if x >= size { PieceOrder(x - size, y - size, size); }
  }

  /** The assembler's count of fragments. */
  lemma CountIsCeil(p: Source)
    requires ValidSource(p)
    ensures Ceil(|p.payload|, p.size) == Count(p)
  {
    var q := PieceAt(|p.payload| - 1, p.size);
    PieceBounds(|p.payload| - 1, p.size);
    NextMultiple(q, p.size);
    CeilIs(|p.payload|, p.size, q + 1);
  }

  lemma CountBounds(p: Source, i: nat)
    requires ValidSource(p)
    ensures i < Count(p) <==> i * p.size < |p.payload|
    ensures Count(p) <= |p.payload|
  {
    var q := PieceAt(|p.payload| - 1, p.size);
    PieceBounds(|p.payload| - 1, p.size);
    NextMultiple(q, p.size);
    if i <= q { MulMono(i, q, p.size); } else { MulMono(q + 1, i, p.size); }
  }

  lemma IndexOfByte(p: Source, x: nat)
    requires ValidSource(p) && x < |p.payload|
    ensures var q := PieceAt(x, p.size); q < Count(p) && q * p.size <= x < q * p.size + p.size
  {
    PieceBounds(x, p.size);
    PieceOrder(x, |p.payload| - 1, p.size);
  }

  /** The submessage that carries `k` consecutive pieces from the i-th on, or as many as there
      are. */
  function RunOf(p: Source, i: nat, k: nat): (f: Fragment)
    requires ValidSource(p) && i < Count(p) && 0 < k
    ensures KeyOf(f) == SourceKey(p) && f.start == i + 1 && f.total == |p.payload| && f.count == k && f.size == p.size
  {
    CountBounds(p, i);
    RunFits(p, i, k);
    Fragment(p.writer, [0, 0, 0, 0], p.sn, i + 1, k, p.size, |p.payload|,
        p.payload[i * p.size..Min((i + k) * p.size, |p.payload|)])
  }

  lemma RunFits(p: Source, i: nat, k: nat)
    requires ValidSource(p) && i * p.size < |p.payload|
    ensures i * p.size <= Min((i + k) * p.size, |p.payload|)
  {
    MulMono(i, i + k, p.size);
  }

  /** The submessages of `Split` are the runs of one piece. */
  lemma PieceIsRun(p: Source, i: nat)
    requires ValidSource(p) && i < Count(p)
    ensures i * p.size < |p.payload| && Piece(p.writer, p.sn, p.payload, p.size, i) == RunOf(p, i, 1)
  {
    CountBounds(p, i);
  }

  /** The pieces of a run. */
  function Run(p: Source, i: nat, k: nat): set<nat>
    requires ValidSource(p)
  {
    Interval(i, Min(i + k, Count(p)))
  }

  /** What reassembly amounts to: the set of fragments seen since the last completion or
      expiry, and when its first one came. */
  datatype Progress = Progress(seen: set<nat>, created: int)

  /** The buffer is that of the payload and holds the bytes of the pieces seen. */
  ghost predicate Shape(b: Buffer, p: Source, g: Progress)
    requires ValidSource(p)
  {
    && |b.data| == |p.payload| && |b.seen| == b.total == Count(p) && b.created == g.created
    && (forall j :: 0 <= j < Count(p) ==> (b.seen[j] <==> j in g.seen))
    && (forall j <- g.seen :: j < Count(p)) && b.received == |g.seen|
    && HoldsBytes(b.data, p, g.seen)
  }

  ghost predicate HoldsBytes(data: Bytes, p: Source, seen: set<nat>)
    requires ValidSource(p) && |data| == |p.payload|
  {
    forall x :: 0 <= x < |p.payload| && PieceAt(x, p.size) in seen ==> data[x] == p.payload[x]
  }

  ghost predicate BufferHolds(b: Buffer, p: Source, g: Progress)
    requires ValidSource(p)
  {
    Shape(b, p, g) && |g.seen| < Count(p)
  }

  ghost predicate Holds(bufs: Buffers, p: Source, g: Progress)
    requires ValidSource(p)
  {
    && Sized(bufs)
    && if g.seen == {} then SourceKey(p) !in bufs else SourceKey(p) in bufs && BufferHolds(bufs[SourceKey(p)], p, g)
  }

  /** A submessage with pieces of the payload, or another one. */
  datatype Event = Own(i: nat, k: nat, now: int) | Foreign(f: Fragment, now: int)

  predicate OwnPieces(p: Source, e: Event)
    requires ValidSource(p)
  {
    e.Own? ==> e.i < Count(p) && 0 < e.k
  }

  function Expire(g: Progress, now: int): Progress
  {
    if now - g.created > STALE_AGE then Progress({}, g.created) else g
  }

  /** The reference: a payload is complete when its last missing fragment comes. */
  ghost function Expected(p: Source, g: Progress, e: Event): (Progress, Option<Bytes>)
    requires ValidSource(p)
  {
    match e
    case Own(i, k, now) =>
      var h := Expire(g, now);
      var created, seen := if h.seen == {} then now else h.created, h.seen + Run(p, i, k);
      if |seen| == Count(p) then (Progress({}, created), Some(p.payload)) else (Progress(seen, created), None)
    case Foreign(f, now) => (if Rejected(f) then g else Expire(g, now), None)
  }

  lemma Multiples(size: nat, i: nat, j: nat, k: nat)
    requires j < k
    ensures (i + j) * size == i * size + j * size
    ensures (i + j) * size + size <= (i + k) * size
  {
    NextMultiple(i + j, size);
    MulMono(i + j + 1, i + k, size);
  }

  /** The j-th fragment of the submessage is the piece of the payload at `offset`. */
  predicate CarriesPiece(f: Fragment, p: Source, j: nat, offset: nat)
    requires offset < |p.payload|
  {
    var end := Min(offset + p.size, |p.payload|);
    var (from, to) := Bounds(f, j);
    from <= to <= |f.payload| && to - from == end - offset && f.payload[from..to] == p.payload[offset..end]
  }

  /** The submessage holds pieces of the payload, from the i-th on. */
  ghost predicate CarriesRun(f: Fragment, p: Source, i: nat)
    requires ValidSource(p)
  {
    && !Rejected(f) && KeyOf(f) == SourceKey(p) && f.start == i + 1 && f.total == |p.payload| && f.size == p.size
    && forall j: nat :: j < f.count && i + j < Count(p) ==> CarriesNext(f, p, i, j)
  }

  ghost predicate CarriesNext(f: Fragment, p: Source, i: nat, j: nat)
    requires ValidSource(p)
  {
    var offset := Offset(f, i + j);
    offset == (i + j) * p.size < |p.payload| && CarriesPiece(f, p, j, offset)
  }

  lemma RunCarries(p: Source, i: nat, k: nat)
    requires ValidSource(p) && i < Count(p) && 0 < k
    ensures CarriesRun(RunOf(p, i, k), p, i)
  {
    var f := RunOf(p, i, k);
    CountBounds(p, i);
    RunFits(p, i, k);
    forall j: nat | j < f.count && i + j < Count(p) ensures CarriesNext(f, p, i, j) {
      CountBounds(p, i + j);
      Multiples(p.size, i, j, k);
      RunCarriesNext(f, p, i, j, i * p.size, (i + k) * p.size);
    }
  }

  lemma RunCarriesNext(f: Fragment, p: Source, i: nat, j: nat, start: nat, stop: nat)
    requires ValidSource(p) && start <= Min(stop, |p.payload|) && f.payload == p.payload[start..Min(stop, |p.payload|)]
    requires f.size == p.size && (i + j) * p.size == start + j * p.size < |p.payload|
    requires (i + j) * p.size + p.size <= stop
    ensures CarriesNext(f, p, i, j)
  {
    var from, offset := j * p.size, (i + j) * p.size;
    assert Offset(f, i + j) == offset;
    RunBounds(f, p, start, stop, from, offset, Min(offset + p.size, |p.payload|));
    assert Bounds(f, j) == (from, Min(from + p.size, |f.payload|));
  }

  lemma RunBounds(f: Fragment, p: Source, start: nat, stop: nat, from: nat, offset: nat, end: nat)
    requires start <= Min(stop, |p.payload|) && f.payload == p.payload[start..Min(stop, |p.payload|)]
    requires offset == start + from < |p.payload| && offset + p.size <= stop
    requires end == Min(offset + p.size, |p.payload|)
    ensures var to := Min(from + p.size, |f.payload|);
      from <= to <= |f.payload| && to - from == end - offset && f.payload[from..to] == p.payload[offset..end]
  {
    RunSlice(p, start, Min(stop, |p.payload|), from, offset, end);
  }

  lemma RunSlice(p: Source, start: nat, stop: nat, from: nat, offset: nat, end: nat)
    requires start <= stop <= |p.payload| && offset == start + from && offset <= end <= stop
    ensures p.payload[start..stop][from..from + (end - offset)] == p.payload[offset..end]
  {
  }

  /** Storing a piece keeps the bytes of the pieces stored before and adds its own. */
  lemma PutPiece(b: Buffer, f: Fragment, p: Source, g: Progress, i: nat, j: nat)
    requires ValidSource(p) && !Rejected(f) && f.start == i + 1 && f.total == |p.payload|
    requires i + j < Count(p) && CarriesNext(f, p, i, j) && Shape(b, p, g) && i + j !in g.seen
    ensures var t := TurnFor(b, f, j); t.Put? && Shape(t.buffer, p, Progress(g.seen + {i + j}, g.created))
  {
    var offset := Offset(f, i + j);
    var (from, to) := Bounds(f, j);
    var end := Min(offset + p.size, |p.payload|);
    assert f.start - 1 + j == i + j;
    PutIs(b, f, i + j, offset, from, to, end, p.payload[offset..end], j);
    PlacedBytes(b.data, p, g.seen, i + j, offset, end);
    assert |g.seen + {i + j}| == |g.seen| + 1;
  }

  lemma PutIs(b: Buffer, f: Fragment, n: nat, offset: nat, from: nat, to: nat, end: nat, chunk: Bytes, j: nat)
    requires !Rejected(f) && f.start - 1 + j == n < |b.seen| == b.total && !b.seen[n] && |b.data| == f.total
    requires Offset(f, n) == offset < f.total && Bounds(f, j) == (from, to) && from <= to <= |f.payload|
    requires offset <= end <= f.total && to - from == end - offset && f.payload[from..to] == chunk
    ensures TurnFor(b, f, j) == Put(b.(data := b.data[..offset] + chunk + b.data[end..], seen := b.seen[n := true],
      received := b.received + 1))
  {
    assert chunk[..end - offset] == chunk;
  }

  lemma PlacedBytes(data: Bytes, p: Source, seen: set<nat>, i: nat, offset: nat, end: nat)
    requires ValidSource(p) && |data| == |p.payload| && offset == i * p.size && offset < |p.payload|
    requires end == Min(offset + p.size, |p.payload|) && HoldsBytes(data, p, seen)
    ensures var data' := data[..offset] + p.payload[offset..end] + data[end..];
      |data'| == |data| && HoldsBytes(data', p, seen + {i})
  {
    var data' := data[..offset] + p.payload[offset..end] + data[end..];
    forall x | 0 <= x < |p.payload| && PieceAt(x, p.size) in seen + {i} ensures data'[x] == p.payload[x] {
      if x < offset || x >= end {
        IndexOfByte(p, x);
        assert PieceAt(x, p.size) != i;
      }
    }
  }

  lemma {:induction false} AllSeen(seen: set<nat>, n: nat)
    requires (forall j <- seen :: j < n) && |seen| == n
    ensures forall j :: 0 <= j < n ==> j in seen
  {
    if n > 0 {
      if n - 1 in seen {
        AllSeen(seen - {n - 1}, n - 1);
      } else {
        BelowCount(seen, n - 1);
      }
    }
  }

  lemma {:induction false} BelowCount(seen: set<nat>, n: nat)
    requires forall j <- seen :: j < n
    ensures |seen| <= n
  {
    if n > 0 {
      var rest := seen - {n - 1};
      assert forall j <- rest :: j in seen && j < n - 1;
      BelowCount(rest, n - 1);
    } else {
      assert seen == {};
    }
  }

  /** The buffer a piece goes to, as the progress describes it. */
  lemma PieceTarget(bufs: Buffers, p: Source, g: Progress, f: Fragment, now: int)
    requires ValidSource(p) && Holds(bufs, p, g) && !Rejected(f)
    requires KeyOf(f) == SourceKey(p) && f.total == |p.payload| && f.size == p.size
    ensures var b, h := Target(bufs, f, now), Expire(g, now);
      Shape(b, p, Progress(h.seen, if h.seen == {} then now else h.created)) && |h.seen| < Count(p)
  {
    CountBounds(p, 0);
    CountIsCeil(p);
  }

  /** What every turn keeps holds after the loop. */
  lemma {:induction false} FillKeeps(b: Buffer, f: Fragment, j: nat, keeps: (Buffer, nat) -> bool)
    requires !Rejected(f) && |b.seen| == b.total && j <= f.count && keeps(b, j)
    requires forall b': Buffer, n: nat ::
      n < f.count && |b'.seen| == b'.total && keeps(b', n) ==> TurnKeeps(b', f, n, keeps)
    ensures var r := Fill(b, f, j); r.Some? && keeps(r.value, f.count)
    decreases f.count - j
  {
    if j < f.count {
      FillTurn(b, f, j);
      assert TurnKeeps(b, f, j, keeps);
      match TurnFor(b, f, j)
      case Leave =>
      case Skip => FillKeeps(b, f, j + 1, keeps);
      case Put(b') => FillKeeps(b', f, j + 1, keeps);
    }
  }

  ghost predicate TurnKeeps(b: Buffer, f: Fragment, n: nat, keeps: (Buffer, nat) -> bool)
    requires !Rejected(f) && |b.seen| == b.total
  {
    match TurnFor(b, f, n)
    case Leave => keeps(b, f.count)
    case Skip => keeps(b, n + 1)
    case Fault => false
    case Put(b') => keeps(b', n + 1)
  }

  lemma RunStep(p: Source, seen: set<nat>, i: nat, j: nat)
    requires ValidSource(p)
    ensures i + j < Count(p) ==> seen + Run(p, i, j + 1) == (seen + Run(p, i, j)) + {i + j}
    ensures i + j >= Count(p) ==> forall k :: j <= k ==> Run(p, i, k) == Run(p, i, j)
    ensures i + j !in Run(p, i, j)
  {
  }

  /** The buffer after `j` fragments of a run. */
  ghost predicate RunShaped(b: Buffer, p: Source, g: Progress, i: nat, j: nat)
    requires ValidSource(p)
  {
    Shape(b, p, Progress(g.seen + Run(p, i, j), g.created))
  }

  /** The loop over a run adds its pieces. */
  lemma FilledRun(b: Buffer, f: Fragment, p: Source, g: Progress, i: nat)
    requires ValidSource(p) && CarriesRun(f, p, i) && Shape(b, p, g)
    ensures Fill(b, f, 0).Some? && RunShaped(Fill(b, f, 0).value, p, g, i, f.count)
  {
    var keeps := RunKept(p, g, i);
    assert g.seen + Run(p, i, 0) == g.seen && Progress(g.seen, g.created) == g;
    forall b': Buffer, j: nat | j < f.count && |b'.seen| == b'.total && keeps(b', j)
      ensures TurnKeeps(b', f, j, keeps)
    {
      RunTurnKeeps(b', f, p, g, i, j);
    }
    FillKeeps(b, f, 0, keeps);
  }

  ghost function RunKept(p: Source, g: Progress, i: nat): (Buffer, nat) -> bool
    requires ValidSource(p)
  {
    (b: Buffer, j: nat) => RunShaped(b, p, g, i, j)
  }

  lemma RunTurnKeeps(b: Buffer, f: Fragment, p: Source, g: Progress, i: nat, j: nat)
    requires ValidSource(p) && CarriesRun(f, p, i) && j < f.count && |b.seen| == b.total && RunKept(p, g, i)(b, j)
    ensures TurnKeeps(b, f, j, RunKept(p, g, i))
  {
    RunTurn(b, f, p, g, i, j);
  }

  lemma RunTurn(b: Buffer, f: Fragment, p: Source, g: Progress, i: nat, j: nat)
    requires ValidSource(p) && CarriesRun(f, p, i) && j < f.count && RunShaped(b, p, g, i, j)
    ensures match TurnFor(b, f, j)
      case Leave => RunShaped(b, p, g, i, f.count)
      case Skip => RunShaped(b, p, g, i, j + 1)
      case Fault => false
      case Put(b') => RunShaped(b', p, g, i, j + 1)
  {
    var h := Progress(g.seen + Run(p, i, j), g.created);
    RunStep(p, g.seen, i, j);
    assert f.start - 1 + j == i + j;
    if i + j < Count(p) {
      if i + j in h.seen {
        assert h.seen + {i + j} == h.seen;
      } else {
        assert CarriesNext(f, p, i, j);
        PutPiece(b, f, p, h, i, j);
      }
    }
  }

  lemma FillTurn(b: Buffer, f: Fragment, j: nat)
    requires !Rejected(f) && |b.seen| == b.total && j < f.count
    ensures match TurnFor(b, f, j)
      case Leave => Fill(b, f, j) == Some(b)
      case Skip => Fill(b, f, j) == Fill(b, f, j + 1)
      case Fault => Fill(b, f, j) == None
      case Put(b') => Fill(b, f, j) == Fill(b', f, j + 1)
  {
  }

  lemma WholePayload(data: Bytes, p: Source, seen: set<nat>)
    requires ValidSource(p) && |data| == |p.payload| && (forall j <- seen :: j < Count(p)) && |seen| == Count(p)
    requires HoldsBytes(data, p, seen)
    ensures data == p.payload
  {
    AllSeen(seen, Count(p));
    forall x | 0 <= x < |p.payload| ensures data[x] == p.payload[x] { IndexOfByte(p, x); }
  }

  lemma OwnStep(bufs: Buffers, p: Source, g: Progress, e: Event)
    requires ValidSource(p) && e.Own? && OwnPieces(p, e) && Holds(bufs, p, g)
    ensures InBounds(bufs, FragmentOf(p, e), e.now)
    ensures var r, x := Received(bufs, FragmentOf(p, e), e.now), Expected(p, g, e); r.1 == x.1 && Holds(r.0, p, x.0)
  {
    RunCarries(p, e.i, e.k);
    RunStored(bufs, p, g, FragmentOf(p, e), e.i, e.now);
  }

  lemma RunStored(bufs: Buffers, p: Source, g: Progress, f: Fragment, i: nat, now: int)
    requires ValidSource(p) && CarriesRun(f, p, i) && i < Count(p) && Holds(bufs, p, g)
    ensures InBounds(bufs, f, now)
    ensures var r, x := Received(bufs, f, now), Expected(p, g, Own(i, f.count, now));
      r.1 == x.1 && Holds(r.0, p, x.0)
  {
    var h := Expire(g, now);
    var b, created := Target(bufs, f, now), if h.seen == {} then now else h.created;
    PieceTarget(bufs, p, g, f, now);
    FilledRun(b, f, p, Progress(h.seen, created), i);
    FillExact(b, f, 0);
    var r, seen := Fill(b, f, 0).value, h.seen + Run(p, i, f.count);
    assert i in seen;
    RunCompletes(r, p, Progress(seen, created));
    RunReceived(bufs, p, f, now, r);
  }

  lemma RunCompletes(r: Buffer, p: Source, g: Progress)
    requires ValidSource(p) && Shape(r, p, g)
    ensures Complete(r) <==> |g.seen| == Count(p)
    ensures Complete(r) ==> r.data == p.payload
  {
    BelowCount(g.seen, Count(p));
    if |g.seen| == Count(p) { WholePayload(r.data, p, g.seen); }
  }

  lemma RunReceived(bufs: Buffers, p: Source, f: Fragment, now: int, r: Buffer)
    requires Sized(bufs) && !Rejected(f) && InBounds(bufs, f, now) && Fill(Target(bufs, f, now), f, 0) == Some(r)
    ensures Received(bufs, f, now) == if Complete(r) then (Live(bufs, now) - {KeyOf(f)}, Some(r.data))
      else (Live(bufs, now)[KeyOf(f) := r], None)
    ensures |r.seen| == r.total && Sized(Received(bufs, f, now).0)
  {
    FillSized(Target(bufs, f, now), f, 0);
  }

  lemma ForeignStep(bufs: Buffers, p: Source, g: Progress, f: Fragment, now: int)
    requires ValidSource(p) && Holds(bufs, p, g) && KeyOf(f) != SourceKey(p) && InBounds(bufs, f, now)
    ensures Holds(Received(bufs, f, now).0, p, Expected(p, g, Foreign(f, now)).0)
  {
    if !Rejected(f) {
      assert Sized(Received(bufs, f, now).0);
    }
  }

  lemma {:induction false} FillSized(b: Buffer, f: Fragment, i: nat)
    requires !Rejected(f) && |b.seen| == b.total
    ensures var r := Fill(b, f, i); r.Some? ==> |r.value.seen| == r.value.total
    decreases f.count - i
  {
    if i < f.count {
      match TurnFor(b, f, i)
      case Skip => FillSized(b, f, i + 1);
      case Put(b') => FillSized(b', f, i + 1);
      case _ =>
    }
  }

  // ----------------------------------------------------------------- whole runs

  function FragmentOf(p: Source, e: Event): Fragment
    requires ValidSource(p) && OwnPieces(p, e)
  {
    if e.Own? then RunOf(p, e.i, e.k) else e.f
  }

  /** Submessages with pieces of the payload, any number of them in each, in any order and any
      number, among fragments with other keys that agree with their own buffers. */
  ghost predicate Legal(bufs: Buffers, p: Source, es: seq<Event>)
    requires ValidSource(p)
    decreases |es|
  {
    Sized(bufs) &&
    (es == [] ||
     (var e := es[0];
      && OwnPieces(p, e) && (e.Foreign? ==> KeyOf(e.f) != SourceKey(p))
      && InBounds(bufs, FragmentOf(p, e), e.now)
      && Legal(Received(bufs, FragmentOf(p, e), e.now).0, p, es[1..])))
  }

  /** What the assembler returns on the pieces of the payload, event by event. */
  ghost function Outputs(bufs: Buffers, p: Source, es: seq<Event>): seq<Option<Bytes>>
    requires ValidSource(p) && Legal(bufs, p, es)
    decreases |es|
  {
    if es == [] then []
    else
      var r := Received(bufs, FragmentOf(p, es[0]), es[0].now);
      [if es[0].Own? then r.1 else None] + Outputs(r.0, p, es[1..])
  }

  ghost function ExpectedOutputs(p: Source, g: Progress, es: seq<Event>): seq<Option<Bytes>>
    requires ValidSource(p)
    decreases |es|
  {
    if es == [] then []
    else [Expected(p, g, es[0]).1] + ExpectedOutputs(p, Expected(p, g, es[0]).0, es[1..])
  }

  /** In every run, also one with expiries and repeated completions, the assembler returns
      the exact payload on the piece that is the last missing one, and nothing before. */
  lemma {:induction false} Reassembly(bufs: Buffers, p: Source, g: Progress, es: seq<Event>)
    requires ValidSource(p) && Holds(bufs, p, g) && Legal(bufs, p, es)
    ensures Outputs(bufs, p, es) == ExpectedOutputs(p, g, es)
    decreases |es|
  {
    if es != [] {
      var e := es[0];
      var r := Received(bufs, FragmentOf(p, e), e.now);
      if e.Own? {
        OwnStep(bufs, p, g, e);
      } else {
        ForeignStep(bufs, p, g, e.f, e.now);
      }
      Reassembly(r.0, p, Expected(p, g, e).0, es[1..]);
    }
  }

  /** The pieces among the events. */
  function PiecesIn(p: Source, es: seq<Event>): set<nat>
    requires ValidSource(p)
  {
    if es == [] then {}
    else
      var front, e := PiecesIn(p, es[..|es| - 1]), es[|es| - 1];
      if e.Own? then front + Run(p, e.i, e.k) else front
  }

  lemma PiecesSnoc(p: Source, es: seq<Event>, e: Event)
    requires ValidSource(p)
    ensures PiecesIn(p, es + [e]) == PiecesIn(p, es) + (if e.Own? then Run(p, e.i, e.k) else {})
    ensures |PiecesIn(p, es)| <= |PiecesIn(p, es + [e])|
  {
    assert (es + [e])[..|es|] == es;
    SubsetSize(PiecesIn(p, es), PiecesIn(p, es + [e]));
  }

  /** The events one after the other. */
  ghost function Folded(step: (Progress, Event) -> Progress, g: Progress, es: seq<Event>): Progress
    decreases |es|
  {
    if es == [] then g else step(Folded(step, g, es[..|es| - 1]), es[|es| - 1])
  }

  ghost function NextProgress(p: Source): (Progress, Event) -> Progress
    requires ValidSource(p)
  {
    (g: Progress, e: Event) => Expected(p, g, e).0
  }

  ghost function ProgressAfter(p: Source, g: Progress, es: seq<Event>): Progress
    requires ValidSource(p)
  {
    Folded(NextProgress(p), g, es)
  }

  /** All events lie within one stale age. */
  predicate Timely(es: seq<Event>, start: int)
  {
    forall i :: 0 <= i < |es| ==> start <= es[i].now <= start + STALE_AGE
  }

  predicate AllOwnPieces(p: Source, es: seq<Event>)
    requires ValidSource(p)
  {
    forall i :: 0 <= i < |es| ==> OwnPieces(p, es[i])
  }

  /** Within one stale period nothing expires: before the payload is complete, the progress
      is the set of the pieces that came. */
  lemma {:induction false} ProgressIsPieces(p: Source, es: seq<Event>, start: int)
    requires ValidSource(p) && Timely(es, start) && AllOwnPieces(p, es)
    requires |PiecesIn(p, es)| < Count(p)
    ensures var g := ProgressAfter(p, Progress({}, start), es);
      g.seen == PiecesIn(p, es) && start <= g.created <= start + STALE_AGE
  {
    if es != [] {
      var front, e := es[..|es| - 1], es[|es| - 1];
      assert es == front + [e];
      PiecesSnoc(p, front, e);
      ProgressIsPieces(p, front, start);
    }
  }

  /** So the first completion is at the first event by which every piece has come. */
  lemma CompletesExactly(p: Source, es: seq<Event>, e: Event, start: int)
    requires ValidSource(p) && Timely(es, start) && AllOwnPieces(p, es)
    requires start <= e.now <= start + STALE_AGE && |PiecesIn(p, es)| < Count(p)
    ensures Expected(p, ProgressAfter(p, Progress({}, start), es), e).1
         == if |PiecesIn(p, es + [e])| == Count(p) then Some(p.payload) else None
  {
    ProgressIsPieces(p, es, start);
    PiecesSnoc(p, es, e);
  }

  lemma {:induction false} FoldedFront(step: (Progress, Event) -> Progress, g: Progress, es: seq<Event>)
    requires es != []
    ensures Folded(step, g, es) == Folded(step, step(g, es[0]), es[1..])
    decreases |es|
  {
    var n := |es| - 1;
    if n > 0 {
      FoldedFront(step, g, es[..n]);
      assert es[..n][1..] == es[1..][..n - 1] && es[1..][n - 1] == es[n];
    } else {
      assert es[..n] == [] && es[1..] == [];
    }
  }

  lemma ProgressFront(p: Source, g: Progress, es: seq<Event>)
    requires ValidSource(p) && es != []
    ensures ProgressAfter(p, g, es) == ProgressAfter(p, Expected(p, g, es[0]).0, es[1..])
  {
    FoldedFront(NextProgress(p), g, es);
  }

  /** The k-th expected output is the one the progress so far leads to. */
  lemma {:induction false} ExpectedAt(p: Source, g: Progress, es: seq<Event>, k: nat)
    requires ValidSource(p) && k < |es|
    ensures |ExpectedOutputs(p, g, es)| == |es|
    ensures ExpectedOutputs(p, g, es)[k] == Expected(p, ProgressAfter(p, g, es[..k]), es[k]).1
    decreases |es|
  {
    ExpectedLength(p, g, es);
    if k > 0 {
      ExpectedAt(p, Expected(p, g, es[0]).0, es[1..], k - 1);
      ProgressFront(p, g, es[..k]);
      assert es[..k][1..] == es[1..][..k - 1] && es[..k][0] == es[0];
    } else {
      assert es[..k] == [];
    }
  }

  lemma {:induction false} ExpectedLength(p: Source, g: Progress, es: seq<Event>)
    requires ValidSource(p)
    ensures |ExpectedOutputs(p, g, es)| == |es|
    decreases |es|
  {
    if es != [] { ExpectedLength(p, Expected(p, g, es[0]).0, es[1..]); }
  }

  lemma {:induction false} LegalPieces(bufs: Buffers, p: Source, es: seq<Event>)
    requires ValidSource(p) && Legal(bufs, p, es)
    ensures AllOwnPieces(p, es)
    decreases |es|
  {
    if es != [] {
      LegalPieces(Received(bufs, FragmentOf(p, es[0]), es[0].now).0, p, es[1..]);
      assert forall i :: 0 < i < |es| ==> es[i] == es[1..][i - 1];
    }
  }

  /** An assembler that holds nothing of a payload and receives its pieces within the stale
      age, in any order, with duplicates and among other fragments, returns the exact payload
      at the event with which the last distinct piece has come, and nothing before. */
  lemma AssemblerCompletes(bufs: Buffers, p: Source, es: seq<Event>, start: int, k: nat)
    requires ValidSource(p) && SourceKey(p) !in bufs && Legal(bufs, p, es) && k < |es|
    requires Timely(es, start) && |PiecesIn(p, es[..k])| < Count(p)
    ensures |Outputs(bufs, p, es)| == |es|
    ensures Outputs(bufs, p, es)[k] == if |PiecesIn(p, es[..k + 1])| == Count(p) then Some(p.payload) else None
  {
    LegalPieces(bufs, p, es);
    Reassembly(bufs, p, Progress({}, start), es);
    CompletesAt(p, es, start, k);
  }

  lemma CompletesAt(p: Source, es: seq<Event>, start: int, k: nat)
    requires ValidSource(p) && k < |es| && Timely(es, start) && AllOwnPieces(p, es)
    requires |PiecesIn(p, es[..k])| < Count(p)
    ensures var out := ExpectedOutputs(p, Progress({}, start), es);
      |out| == |es| && out[k] == if |PiecesIn(p, es[..k + 1])| == Count(p) then Some(p.payload) else None
  {
    var g, front, e := Progress({}, start), es[..k], es[k];
    ExpectedAt(p, g, es, k);
    PrefixIsTimely(p, es, start, k);
    CompletesExactly(p, front, e, start);
  }

  lemma PrefixIsTimely(p: Source, es: seq<Event>, start: int, k: nat)
    requires ValidSource(p) && k < |es| && Timely(es, start) && AllOwnPieces(p, es)
    ensures Timely(es[..k], start) && AllOwnPieces(p, es[..k]) && es[..k + 1] == es[..k] + [es[k]]
    ensures start <= es[k].now <= start + STALE_AGE
  {
  }
}
