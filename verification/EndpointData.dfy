/** Endpoint announcements: PL_CDR parameter lists (section 9.4.2.11 of RTPS 2.3) and what
    a peer makes of one. */
module EndpointData {
  import opened Wire
  import opened Identity

  datatype Param = Param(pid: nat, value: Bytes)

  const PID_PAD: nat := 0x0000
  const PID_SENTINEL: nat := 0x0001
  const PID_TOPIC: nat := 0x0005
  const PID_TYPE: nat := 0x0007
  const PID_LOCATOR: nat := 0x002f
  const PID_GUID: nat := 0x005A
  const PID_PARTITION: nat := 0x8004
  const PID_OWNERSHIP: nat := 0x8005
  const PID_STRENGTH: nat := 0x8006
  const PID_LEASE: nat := 0x8007
  const PID_FILTER: nat := 0x8009
  const PID_FILTER_PARAM: nat := 0x800A

  const ENCAPSULATION: Bytes := [0x00, 0x03, 0x00, 0x00]
  const SENTINEL: Bytes := [0x01, 0x00, 0x00, 0x00]

  // ---------------------------------------------------------------- parameter lists

  function PadTo4(n: nat): (m: nat)
    ensures n <= m < n + 4 && m % 4 == 0
  {
    (n + 3) / 4 * 4
  }

  /** The value as it travels. */
  function Padded(v: Bytes): (bs: Bytes)
    ensures |bs| == PadTo4(|v|) && v <= bs
  {
    v + ZeroBytes(PadTo4(|v|) - |v|)
  }

  function EncodeParam(p: Param): Bytes
  {
    LE(p.pid, 2) + LE(PadTo4(|p.value|), 2) + Padded(p.value)
  }

  function EncodeParams(ps: seq<Param>): Bytes
  {
    if ps == [] then [] else EncodeParam(ps[0]) + EncodeParams(ps[1..])
  }

  function Message(ps: seq<Param>): Bytes
  {
    ENCAPSULATION + EncodeParams(ps) + SENTINEL
  }

  /** The parameters up to the sentinel, the end or a malformed length. */
  function DecodeParams(bs: Bytes): seq<Param>
  {
    if |bs| < 4 then []
    else
      var pid, n := UnLE(bs[..2]), UnLE(bs[2..4]);
      if pid == PID_SENTINEL then []
      else if pid == PID_PAD then DecodeParams(bs[4..])
      else if 4 + n > |bs| then []
      else [Param(pid, bs[4..4 + n])] + DecodeParams(bs[4 + n..])
  }

  class Decoder {
    const buf: Bytes
    var pos: nat

    ghost predicate Valid()
      reads this
    {
      pos <= |buf|
    }

    constructor (buf: Bytes)
      requires |buf| >= 4
      ensures Valid() && this.buf == buf && pos == 4
    {
      this.buf, pos := buf, 4;
    }

    /** The next parameter, skipping padding parameters. */
    method Next() returns (p: Option<Param>)
      requires Valid()
      modifies this
      ensures Valid() && (p.Some? ==> pos > old(pos))
      ensures DecodeParams(buf[old(pos)..]) == if p.None? then [] else [p.value] + DecodeParams(buf[pos..])
    {
      while true
        invariant Valid() && old(pos) <= pos && DecodeParams(buf[pos..]) == DecodeParams(buf[old(pos)..])
        decreases |buf| - pos
      {
        if pos + 4 > |buf| {
          return None;
        }
        ghost var rest := buf[pos..];
        var pid, n := UnLE(buf[pos..pos + 2]), UnLE(buf[pos + 2..pos + 4]);
        assert rest[..2] == buf[pos..pos + 2] && rest[2..4] == buf[pos + 2..pos + 4];
        pos := pos + 4;
        assert rest[4..] == buf[pos..];
        if pid == PID_SENTINEL {
          return None;
        }
        if pid != PID_PAD {
          if pos + n > |buf| {
            return None;
          }
          assert rest[4..4 + n] == buf[pos..pos + n] && rest[4 + n..] == buf[pos + n..];
          p := Some(Param(pid, buf[pos..pos + n]));
          pos := pos + n;
          return;
        }
      }
    }
  }

  predicate Encodable(p: Param)
  {
    1 < p.pid < 0x1_0000 && PadTo4(|p.value|) < 0x1_0000
  }

  function PaddedParam(p: Param): Param
  {
    Param(p.pid, Padded(p.value))
  }

  function PaddedAll(ps: seq<Param>): seq<Param>
  {
    if ps == [] then [] else [PaddedParam(ps[0])] + PaddedAll(ps[1..])
  }

  lemma OneParam(p: Param, rest: Bytes)
    requires Encodable(p)
    ensures DecodeParams(EncodeParam(p) + rest) == [PaddedParam(p)] + DecodeParams(rest)
  {
    var bs, n := EncodeParam(p) + rest, PadTo4(|p.value|);
    assert bs[..2] == LE(p.pid, 2) && bs[2..4] == LE(n, 2);
    Pow256Values();
    UnLEOfLE(p.pid, 2);
    UnLEOfLE(n, 2);
    assert bs[4..4 + n] == Padded(p.value) && bs[4 + n..] == rest;
  }

  /** Any list of parameters whose lengths fit 16 bits is read back, padded. */
  lemma {:induction false} ParamsRoundTrip(ps: seq<Param>)
    requires forall i :: 0 <= i < |ps| ==> Encodable(ps[i])
    ensures DecodeParams(EncodeParams(ps) + SENTINEL) == PaddedAll(ps)
  {
    if ps == [] {
      assert [] + SENTINEL == SENTINEL;
      SentinelEnds();
    } else {
      assert EncodeParams(ps) + SENTINEL == EncodeParam(ps[0]) + (EncodeParams(ps[1..]) + SENTINEL);
      OneParam(ps[0], EncodeParams(ps[1..]) + SENTINEL);
      ParamsRoundTrip(ps[1..]);
    }
  }

  lemma SentinelEnds()
    ensures DecodeParams(SENTINEL) == []
  {
    assert SENTINEL[..2] == LE(1, 2) by {
      assert SENTINEL[..2][0] == 1 && SENTINEL[..2][1] == 0;
      assert LE(1, 2) == [1] + LE(0, 1) && LE(0, 1) == [0] + LE(0, 0);
    }
    Pow256Values();
    UnLEOfLE(1, 2);
  }

  // ------------------------------------------------------------------------ values

  function StringValue(s: Bytes): Bytes
  {
    LE(|s| + 1, 4) + s + [0]
  }

  function DecodeString(b: Bytes): Option<Bytes>
  {
    if |b| < 4 || |b| < 4 + UnLE(b[..4]) then None
    else
      var s := b[4..4 + UnLE(b[..4])];
      Some(if s != [] && s[|s| - 1] == 0 then s[..|s| - 1] else s)
  }

  function GuidValue(g: Guid): Bytes
  {
    g.prefix + g.entity
  }

  function DecodeGuid(b: Bytes): Option<Guid>
  {
    if |b| < 16 then None else Some(Guid(b[..12], b[12..16]))
  }

  function DecodeUint32(b: Bytes): Option<nat>
  {
    if |b| < 4 then None else Some(UnLE(b[..4]))
  }

  function DecodeInt64(b: Bytes): Option<int>
  {
    if |b| < 8 then None else Some(ToSigned(UnLE(b[..8]), 8))
  }

  predicate ValidLocator(l: Locator)
  {
    FitsSigned(l.kind, 4) && l.port < 0x1_0000_0000 && |l.address| == 16
  }

  function LocatorValue(l: Locator): Bytes
    requires ValidLocator(l)
  {
    LE(ToUnsigned(l.kind, 4), 4) + LE(l.port, 4) + l.address
  }

  function DecodeLocator(b: Bytes): Option<Locator>
  {
    if |b| < 24 then None else Some(Locator(ToSigned(UnLE(b[..4]), 4), UnLE(b[4..8]), b[8..24]))
  }

  lemma StringRoundTrip(s: Bytes, b: Bytes)
    requires |s| + 1 < 0x1_0000_0000 && StringValue(s) <= b
    ensures DecodeString(b) == Some(s)
  {
    Pow256Values();
    UnLEOfLE(|s| + 1, 4);
    assert StringValue(s)[..4] == LE(|s| + 1, 4);
    assert b[..4] == StringValue(s)[..4];
    assert b[4..4 + (|s| + 1)] == StringValue(s)[4..] == s + [0];
    assert (s + [0])[..|s|] == s;
  }

  lemma LocatorRoundTrip(l: Locator, b: Bytes)
    requires ValidLocator(l) && LocatorValue(l) <= b
    ensures DecodeLocator(b) == Some(l)
  {
    Pow256Values();
    var v := LocatorValue(l);
    assert v[..4] == LE(ToUnsigned(l.kind, 4), 4) && v[4..8] == LE(l.port, 4) && v[8..24] == l.address;
    assert b[..4] == v[..4] && b[4..8] == v[4..8] && b[8..24] == v[8..24];
    UnLEOfLE(ToUnsigned(l.kind, 4), 4);
    UnLEOfLE(l.port, 4);
    SignRoundTrip(l.kind, 4);
  }

  // --------------------------------------------------------------------- endpoints

  const DEFAULT_TYPE: Bytes := [0x43, 0x44, 0x52, 0x5F, 0x42, 0x4C, 0x4F, 0x42]

  /** The text of a content filter and its parameters. */
  datatype FilterText = FilterText(text: Bytes, params: seq<Bytes>)

  datatype Endpoint = Endpoint(guid: Guid, topic: Bytes, typeName: Bytes, isWriter: bool, partitions: seq<Bytes>,
                               exclusive: bool, strength: int, lease: int, filter: Option<FilterText>)

  /** A string whose parameter fits the 16-bit length field. */
  predicate ShortString(s: Bytes)
  {
    |s| <= 65527
  }

  predicate ShortFilter(f: FilterText)
  {
    ShortString(f.text) && forall i :: 0 <= i < |f.params| ==> ShortString(f.params[i])
  }

  predicate Announceable(e: Endpoint)
  {
    && ShortString(e.topic) && ShortString(e.typeName)
    && (forall i :: 0 <= i < |e.partitions| ==> ShortString(e.partitions[i]))
    && (e.filter.Some? ==> ShortFilter(e.filter.value))
    && FitsSigned(e.strength, 4) && FitsSigned(e.lease, 8)
  }

  function Strings(pid: nat, ss: seq<Bytes>): seq<Param>
  {
    if ss == [] then [] else [Param(pid, StringValue(ss[0]))] + Strings(pid, ss[1..])
  }

  function FilterParams(f: Option<FilterText>): seq<Param>
  {
    if f.None? then [] else [Param(PID_FILTER, StringValue(f.value.text))] + Strings(PID_FILTER_PARAM, f.value.params)
  }

  function OwnershipParams(e: Endpoint): seq<Param>
    requires Announceable(e)
  {
    if e.isWriter && e.exclusive
    then [Param(PID_OWNERSHIP, LE(1, 4)), Param(PID_STRENGTH, LE(ToUnsigned(e.strength, 4), 4))] else []
  }

  function LeaseParams(e: Endpoint): seq<Param>
    requires Announceable(e)
  {
    if e.isWriter && e.lease > 0 then [Param(PID_LEASE, LE(ToUnsigned(e.lease, 8), 8))] else []
  }

  function IdentityParams(e: Endpoint, l: Locator): seq<Param>
    requires ValidLocator(l)
  {
    [Param(PID_GUID, GuidValue(e.guid)), Param(PID_TOPIC, StringValue(e.topic)),
     Param(PID_TYPE, StringValue(if e.typeName == [] then DEFAULT_TYPE else e.typeName)),
     Param(PID_LOCATOR, LocatorValue(l))]
  }

  /** The announcement of an endpoint. */
  function Build(e: Endpoint, l: Locator): seq<Param>
    requires Announceable(e) && ValidLocator(l)
  {
    IdentityParams(e, l) + Strings(PID_PARTITION, e.partitions)
    + FilterParams(e.filter) + OwnershipParams(e) + LeaseParams(e)
  }

  /** What the receiver has gathered so far. */
  datatype Draft = Draft(guid: Guid, topic: Bytes, typeName: Bytes, locator: Locator, partitions: seq<Bytes>,
                         exclusive: bool, strength: int, lease: int, expr: Bytes, params: seq<Bytes>)

  const NO_LOCATOR: Locator := Locator(0, 0, ZeroBytes(16))

  /** An IPv4 address. */
  type Address = a: Bytes | |a| == 4 witness [0, 0, 0, 0]

  /** An unspecified address is that of the sender. */
  function Located(l: Locator, from: Option<Address>): Locator
    requires |l.address| == 16
  {
    if l.address == ZeroBytes(16) && from.Some? then l.(address := l.address[..12] + from.value) else l
  }

  function Apply(d: Draft, p: Param, from: Option<Address>): Draft
  {
    var text := DecodeString(p.value);
    if p.pid == PID_GUID then
      var g := DecodeGuid(p.value);
      if g.Some? then d.(guid := g.value) else d
    else if p.pid == PID_LOCATOR then
      var l := DecodeLocator(p.value);
      if l.Some? then d.(locator := Located(l.value, from)) else d
    else if p.pid == PID_OWNERSHIP then
      var v := DecodeUint32(p.value);
      if v.Some? && v.value != 0 then d.(exclusive := true) else d
    else if p.pid == PID_STRENGTH then
      var v := DecodeUint32(p.value);
      if v.Some? then Pow256Values(); d.(strength := ToSigned(v.value % 0x1_0000_0000, 4)) else d
    else if p.pid == PID_LEASE then
      var v := DecodeInt64(p.value);
      if v.Some? then d.(lease := v.value) else d
    else if text.None? then d
    else if p.pid == PID_TOPIC then d.(topic := text.value)
    else if p.pid == PID_TYPE then d.(typeName := text.value)
    else if p.pid == PID_PARTITION then d.(partitions := d.partitions + [text.value])
    else if p.pid == PID_FILTER then d.(expr := text.value)
    else if p.pid == PID_FILTER_PARAM then d.(params := d.params + [text.value])
    else d
  }

  function Gather(d: Draft, ps: seq<Param>, from: Option<Address>): Draft
    decreases |ps|
  {
    if ps == [] then d else Gather(Apply(d, ps[0], from), ps[1..], from)
  }

  /** The endpoint a peer learns; a filter that does not compile is ignored. */
  function Conclude(d: Draft, isWriter: bool, compiles: (Bytes, seq<Bytes>) -> bool): Option<Endpoint>
  {
    if d.topic == [] then None
    else Some(Endpoint(d.guid, d.topic, d.typeName, isWriter, d.partitions, d.exclusive, d.strength, d.lease,
                       if d.expr != [] && compiles(d.expr, d.params) then Some(FilterText(d.expr, d.params)) else None))
  }

  function Start(prefix: Prefix): Draft
  {
    Draft(Guid(prefix, [0, 0, 0, 0]), [], [], NO_LOCATOR, [], false, 0, 0, [], [])
  }

  function Handle(msg: Bytes, prefix: Prefix, isWriter: bool, from: Option<Address>,
      compiles: (Bytes, seq<Bytes>) -> bool): Option<(Endpoint, Locator)>
  {
    if |msg| < 4 || msg[0] != 0 || msg[1] != 3 then None
    else
      var d := Gather(Start(prefix), DecodeParams(msg[4..]), from);
      var e := Conclude(d, isWriter, compiles);
      if e.None? then None else Some((e.value, d.locator))
  }

  /** The decoding loop of the receiver. */
  method HandleAnnounce(msg: Bytes, prefix: Prefix, isWriter: bool, from: Option<Address>,
      compiles: (Bytes, seq<Bytes>) -> bool)
    returns (r: Option<(Endpoint, Locator)>)
    ensures r == Handle(msg, prefix, isWriter, from, compiles)
  {
    if |msg| < 4 || msg[0] != 0 || msg[1] != 3 {
      return None;
    }
    var dec := new Decoder(msg);
    var d := Start(prefix);
    var p := dec.Next();
    while p.Some?
      invariant dec.Valid() && dec.buf == msg
      invariant Gather(d, if p.None? then [] else [p.value] + DecodeParams(msg[dec.pos..]), from)
             == Gather(Start(prefix), DecodeParams(msg[4..]), from)
      decreases p.Some?, |msg| - dec.pos
    {
      ghost var rest := DecodeParams(msg[dec.pos..]);
      assert ([p.value] + rest)[1..] == rest;
      d := Apply(d, p.value, from);
      p := dec.Next();
    }
    var e := Conclude(d, isWriter, compiles);
    r := if e.None? then None else Some((e.value, d.locator));
  }

  /** What an announcement conveys: ownership and lease only of writers, strength only with
      exclusive ownership, and a default for an empty type name. */
  function Conveyed(e: Endpoint, compiles: (Bytes, seq<Bytes>) -> bool): Endpoint
  {
    e.(typeName := if e.typeName == [] then DEFAULT_TYPE else e.typeName,
       exclusive := e.isWriter && e.exclusive,
       strength := if e.isWriter && e.exclusive then e.strength else 0,
       lease := if e.isWriter && e.lease > 0 then e.lease else 0,
       filter := if e.filter.Some? && e.filter.value.text != [] && compiles(e.filter.value.text, e.filter.value.params)
                 then e.filter else None)
  }

  // ------------------------------------------------------------- the round trip

  lemma {:induction false} GatherAppend(d: Draft, ps: seq<Param>, qs: seq<Param>, from: Option<Address>)
    ensures Gather(d, ps + qs, from) == Gather(Gather(d, ps, from), qs, from)
    decreases |ps|
  {
    if ps == [] {
      assert ps + qs == qs;
    } else {
      assert (ps + qs)[1..] == ps[1..] + qs;
      GatherAppend(Apply(d, ps[0], from), ps[1..], qs, from);
    }
  }

  lemma {:induction false} PaddedAppend(ps: seq<Param>, qs: seq<Param>)
    ensures PaddedAll(ps + qs) == PaddedAll(ps) + PaddedAll(qs)
  {
    if ps == [] {
      assert ps + qs == qs;
    } else {
      assert (ps + qs)[1..] == ps[1..] + qs;
      PaddedAppend(ps[1..], qs);
    }
  }

  /** The draft after the padded parameters. */
  function Learn(d: Draft, ps: seq<Param>, from: Option<Address>): Draft
  {
    Gather(d, PaddedAll(ps), from)
  }

  lemma LearnAppend(d: Draft, ps: seq<Param>, qs: seq<Param>, from: Option<Address>)
    ensures Learn(d, ps + qs, from) == Learn(Learn(d, ps, from), qs, from)
  {
    PaddedAppend(ps, qs);
    GatherAppend(d, PaddedAll(ps), PaddedAll(qs), from);
  }

  lemma LearnOne(d: Draft, p: Param, from: Option<Address>)
    ensures Learn(d, [p], from) == Apply(d, PaddedParam(p), from)
  {
    var x := PaddedParam(p);
    assert [p][1..] == [] && [x][1..] == [];
    assert PaddedAll([p]) == [x] + PaddedAll([]);
    assert PaddedAll([p]) == [x];
    assert Gather(d, [x], from) == Gather(Apply(d, x, from), [], from);
  }

  lemma LearnString(d: Draft, pid: nat, s: Bytes, from: Option<Address>)
    requires ShortString(s)
    ensures DecodeString(PaddedParam(Param(pid, StringValue(s))).value) == Some(s)
  {
    StringRoundTrip(s, Padded(StringValue(s)));
  }

  lemma {:induction false} LearnPartitions(d: Draft, ss: seq<Bytes>, from: Option<Address>)
    requires forall i :: 0 <= i < |ss| ==> ShortString(ss[i])
    ensures Learn(d, Strings(PID_PARTITION, ss), from) == d.(partitions := d.partitions + ss)
    decreases |ss|
  {
    if ss == [] {
      assert d.partitions + ss == d.partitions;
    } else {
      LearnPartition(d, ss[0], Strings(PID_PARTITION, ss[1..]), from);
      LearnPartitions(d.(partitions := d.partitions + [ss[0]]), ss[1..], from);
      assert (d.partitions + [ss[0]]) + ss[1..] == d.partitions + ss;
    }
  }

  lemma LearnPartition(d: Draft, s: Bytes, rest: seq<Param>, from: Option<Address>)
    requires ShortString(s)
    ensures Learn(d, [Param(PID_PARTITION, StringValue(s))] + rest, from) ==
      Learn(d.(partitions := d.partitions + [s]), rest, from)
  {
    var p := Param(PID_PARTITION, StringValue(s));
    LearnAppend(d, [p], rest, from);
    LearnOne(d, p, from);
    LearnString(d, PID_PARTITION, s, from);
  }

  lemma {:induction false} LearnFilterParams(d: Draft, ss: seq<Bytes>, from: Option<Address>)
    requires forall i :: 0 <= i < |ss| ==> ShortString(ss[i])
    ensures Learn(d, Strings(PID_FILTER_PARAM, ss), from) == d.(params := d.params + ss)
    decreases |ss|
  {
    if ss == [] {
      assert d.params + ss == d.params;
    } else {
      LearnFilterParam(d, ss[0], Strings(PID_FILTER_PARAM, ss[1..]), from);
      LearnFilterParams(d.(params := d.params + [ss[0]]), ss[1..], from);
      assert (d.params + [ss[0]]) + ss[1..] == d.params + ss;
    }
  }

  lemma LearnFilterParam(d: Draft, s: Bytes, rest: seq<Param>, from: Option<Address>)
    requires ShortString(s)
    ensures Learn(d, [Param(PID_FILTER_PARAM, StringValue(s))] + rest, from) ==
      Learn(d.(params := d.params + [s]), rest, from)
  {
    var p := Param(PID_FILTER_PARAM, StringValue(s));
    LearnAppend(d, [p], rest, from);
    LearnOne(d, p, from);
    LearnString(d, PID_FILTER_PARAM, s, from);
  }

  lemma LearnFilter(d: Draft, f: Option<FilterText>, from: Option<Address>)
    requires f.Some? ==> ShortFilter(f.value)
    requires d.expr == [] && d.params == []
    ensures Learn(d, FilterParams(f), from)
         == if f.None? then d else d.(expr := f.value.text, params := f.value.params)
  {
    if f.Some? {
      var p := Param(PID_FILTER, StringValue(f.value.text));
      LearnAppend(d, [p], Strings(PID_FILTER_PARAM, f.value.params), from);
      LearnOne(d, p, from);
      LearnString(d, PID_FILTER, f.value.text, from);
      LearnFilterParams(d.(expr := f.value.text), f.value.params, from);
      assert [] + f.value.params == f.value.params;
    }
  }

  lemma LearnNumber(n: nat, w: nat)
    requires n < Pow256(w)
    ensures w <= |Padded(LE(n, w))| && UnLE(Padded(LE(n, w))[..w]) == n
  {
    UnLEOfLE(n, w);
    assert Padded(LE(n, w))[..w] == LE(n, w);
  }

  lemma LearnOwnership(d: Draft, e: Endpoint, from: Option<Address>)
    requires Announceable(e)
    ensures Learn(d, OwnershipParams(e), from)
         == if e.isWriter && e.exclusive then d.(exclusive := true, strength := e.strength) else d
  {
    if e.isWriter && e.exclusive {
      var o, s := Param(PID_OWNERSHIP, LE(1, 4)), Param(PID_STRENGTH, LE(ToUnsigned(e.strength, 4), 4));
      assert OwnershipParams(e) == [o] + [s];
      LearnAppend(d, [o], [s], from);
      LearnOne(d, o, from);
      LearnOne(d.(exclusive := true), s, from);
      Pow256Values();
      LearnNumber(1, 4);
      LearnNumber(ToUnsigned(e.strength, 4), 4);
      SignRoundTrip(e.strength, 4);
    }
  }

  lemma LearnLease(d: Draft, e: Endpoint, from: Option<Address>)
    requires Announceable(e)
    ensures Learn(d, LeaseParams(e), from) == if e.isWriter && e.lease > 0 then d.(lease := e.lease) else d
  {
    if e.isWriter && e.lease > 0 {
      LearnOne(d, Param(PID_LEASE, LE(ToUnsigned(e.lease, 8), 8)), from);
      LearnNumber(ToUnsigned(e.lease, 8), 8);
      SignRoundTrip(e.lease, 8);
    }
  }

  lemma LearnIdentity(d: Draft, e: Endpoint, l: Locator, from: Option<Address>)
    requires Announceable(e) && ValidLocator(l)
    ensures Learn(d, IdentityParams(e, l), from)
         == d.(guid := e.guid, topic := e.topic, typeName := if e.typeName == [] then DEFAULT_TYPE else e.typeName,
               locator := Located(l, from))
  {
    var typeName := if e.typeName == [] then DEFAULT_TYPE else e.typeName;
    var g, t := Param(PID_GUID, GuidValue(e.guid)), Param(PID_TOPIC, StringValue(e.topic));
    var y, a := Param(PID_TYPE, StringValue(typeName)), Param(PID_LOCATOR, LocatorValue(l));
    assert IdentityParams(e, l) == [g, t] + [y, a];
    LearnAppend(d, [g, t], [y, a], from);
    LearnNames(d, e.guid, e.topic, from);
    LearnPlace(d.(guid := e.guid, topic := e.topic), typeName, l, from);
  }

  lemma LearnTwo(d: Draft, p: Param, q: Param, from: Option<Address>)
    ensures Learn(d, [p, q], from) == Apply(Apply(d, PaddedParam(p), from), PaddedParam(q), from)
  {
    assert [p, q] == [p] + [q];
    LearnAppend(d, [p], [q], from);
    LearnOne(d, p, from);
    LearnOne(Apply(d, PaddedParam(p), from), q, from);
  }

  lemma LearnNames(d: Draft, g: Guid, topic: Bytes, from: Option<Address>)
    requires ShortString(topic)
    ensures Learn(d, [Param(PID_GUID, GuidValue(g)), Param(PID_TOPIC, StringValue(topic))], from)
         == d.(guid := g, topic := topic)
  {
    LearnTwo(d, Param(PID_GUID, GuidValue(g)), Param(PID_TOPIC, StringValue(topic)), from);
    LearnGuid(g);
    LearnString(d, PID_TOPIC, topic, from);
  }

  lemma LearnPlace(d: Draft, typeName: Bytes, l: Locator, from: Option<Address>)
    requires ShortString(typeName) && ValidLocator(l)
    ensures Learn(d, [Param(PID_TYPE, StringValue(typeName)), Param(PID_LOCATOR, LocatorValue(l))], from)
         == d.(typeName := typeName, locator := Located(l, from))
  {
    LearnTwo(d, Param(PID_TYPE, StringValue(typeName)), Param(PID_LOCATOR, LocatorValue(l)), from);
    LearnString(d, PID_TYPE, typeName, from);
    LocatorRoundTrip(l, Padded(LocatorValue(l)));
  }

  lemma LearnGuid(g: Guid)
    ensures DecodeGuid(Padded(GuidValue(g))) == Some(g)
  {
    var b := Padded(GuidValue(g));
    assert b[..12] == g.prefix && b[12..16] == g.entity;
  }

  lemma LearnBuilt(prefix: Prefix, e: Endpoint, l: Locator, from: Option<Address>)
    requires Announceable(e) && ValidLocator(l)
    ensures var d := Learn(Start(prefix), Build(e, l), from);
      && d.guid == e.guid && d.topic == e.topic && d.typeName == (if e.typeName == [] then DEFAULT_TYPE else e.typeName)
      && d.locator == Located(l, from) && d.partitions == e.partitions
      && d.exclusive == (e.isWriter && e.exclusive)
      && d.strength == (if e.isWriter && e.exclusive then e.strength else 0)
      && d.lease == (if e.isWriter && e.lease > 0 then e.lease else 0)
      && d.expr == (if e.filter.None? then [] else e.filter.value.text)
      && d.params == (if e.filter.None? then [] else e.filter.value.params)
  {
    var d0 := Start(prefix);
    var a, b, c := IdentityParams(e, l), Strings(PID_PARTITION, e.partitions), FilterParams(e.filter);
    var o, z := OwnershipParams(e), LeaseParams(e);
    LearnAppend(d0, a + b + c + o, z, from);
    LearnAppend(d0, a + b + c, o, from);
    LearnAppend(d0, a + b, c, from);
    LearnAppend(d0, a, b, from);
    LearnIdentity(d0, e, l, from);
    var d1 := Learn(d0, a, from);
    LearnPartitions(d1, e.partitions, from);
    assert [] + e.partitions == e.partitions;
    var d2 := Learn(d1, b, from);
    LearnFilter(d2, e.filter, from);
    var d3 := Learn(d2, c, from);
    LearnOwnership(d3, e, from);
    LearnLease(Learn(d3, o, from), e, from);
  }

  lemma {:induction false} StringsEncodable(pid: nat, ss: seq<Bytes>)
    requires 1 < pid < 0x1_0000 && forall i :: 0 <= i < |ss| ==> ShortString(ss[i])
    ensures forall i :: 0 <= i < |Strings(pid, ss)| ==> Encodable(Strings(pid, ss)[i])
  {
    if ss != [] { StringsEncodable(pid, ss[1..]); }
  }

  lemma BuildEncodable(e: Endpoint, l: Locator)
    requires Announceable(e) && ValidLocator(l)
    ensures forall i :: 0 <= i < |Build(e, l)| ==> Encodable(Build(e, l)[i])
  {
    StringsEncodable(PID_PARTITION, e.partitions);
    if e.filter.Some? { StringsEncodable(PID_FILTER_PARAM, e.filter.value.params); }
    var a := IdentityParams(e, l);
    assert Encodable(a[0]) && Encodable(a[1]) && Encodable(a[2]) && Encodable(a[3]);
  }

  /** A peer learns from an announcement exactly what it conveys, and the announced locator
      with the sender's address filled in; without a topic it learns nothing. */
  lemma AnnouncementRoundTrip(e: Endpoint, l: Locator, prefix: Prefix, from: Option<Address>,
      compiles: (Bytes, seq<Bytes>) -> bool)
    requires Announceable(e) && ValidLocator(l)
    ensures Handle(Message(Build(e, l)), prefix, e.isWriter, from, compiles)
         == if e.topic == [] then None else Some((Conveyed(e, compiles), Located(l, from)))
  {
    BuildEncodable(e, l);
    ParamsRoundTrip(Build(e, l));
    MessageParts(Build(e, l));
    LearnBuilt(prefix, e, l, from);
  }

  lemma MessageParts(ps: seq<Param>)
    ensures var msg := Message(ps); |msg| >= 4 && msg[0] == 0 && msg[1] == 3 && msg[4..] == EncodeParams(ps) + SENTINEL
  {
    AfterFour(ENCAPSULATION, EncodeParams(ps), SENTINEL);
  }

  lemma AfterFour(head: Bytes, body: Bytes, tail: Bytes)
    requires |head| == 4
    ensures (head + body + tail)[..4] == head && (head + body + tail)[4..] == body + tail
  {
  }

  // ------------------------------------------------------------------ the format

  /** A parameter is its id, its padded length and its value with zeros behind it. */
  lemma ParamLayout(p: Param)
    requires Encodable(p)
    ensures var bs, n := EncodeParam(p), |EncodeParam(p)| - 4;
      && UnLE(bs[..2]) == p.pid && UnLE(bs[2..4]) == n && n % 4 == 0 && |p.value| <= n < |p.value| + 4
      && bs[4..4 + |p.value|] == p.value && forall i :: 4 + |p.value| <= i < |bs| ==> bs[i] == 0
  {
    var bs, n := EncodeParam(p), PadTo4(|p.value|);
    assert bs[..2] == LE(p.pid, 2) && bs[2..4] == LE(n, 2) && bs[4..] == Padded(p.value);
    Pow256Values();
    UnLEOfLE(p.pid, 2);
    UnLEOfLE(n, 2);
    forall i | 4 + |p.value| <= i < |bs| ensures bs[i] == 0 {
      assert bs[i] == Padded(p.value)[i - 4] == ZeroBytes(n - |p.value|)[i - 4 - |p.value|];
    }
  }

  /** A string value is a count that includes the terminator, the text and a zero; a GUID is
      its prefix and its entity; a locator is its kind in two's complement, its port and its
      address. */
  lemma ValueLayouts(s: Bytes, g: Guid, l: Locator)
    requires |s| + 1 < 0x1_0000_0000 && ValidLocator(l)
    ensures UnLE(StringValue(s)[..4]) == |s| + 1 && StringValue(s)[4..] == s + [0]
    ensures GuidValue(g)[..12] == g.prefix && GuidValue(g)[12..] == g.entity
    ensures UnLE(LocatorValue(l)[..4]) == if l.kind < 0 then l.kind + 0x1_0000_0000 else l.kind
    ensures UnLE(LocatorValue(l)[4..8]) == l.port && LocatorValue(l)[8..] == l.address
  {
    Pow256Values();
    assert StringValue(s)[..4] == LE(|s| + 1, 4);
    UnLEOfLE(|s| + 1, 4);
    var v := LocatorValue(l);
    assert v[..4] == LE(ToUnsigned(l.kind, 4), 4) && v[4..8] == LE(l.port, 4);
    TwosComplement(l.kind, 0, 4);
    UnLEOfLE(ToUnsigned(l.kind, 4), 4);
    UnLEOfLE(l.port, 4);
  }

  function FilterIds(f: Option<FilterText>): seq<nat>
  {
    if f.None? then [] else [0x8009] + Repeated(0x800A, |f.value.params|)
  }

  function WriterIds(e: Endpoint): seq<nat>
  {
    (if e.isWriter && e.exclusive then [0x8005, 0x8006] else []) + (if e.isWriter && e.lease > 0 then [0x8007] else [])
  }

  /** The ids in the order of an announcement: GUID, topic, type, locator, partitions, filter
      with its parameters, ownership with its strength, lease. */
  lemma AnnouncedIds(e: Endpoint, l: Locator)
    requires Announceable(e) && ValidLocator(l)
    ensures IdsOf(Build(e, l))
         == [0x5A, 5, 7, 0x2F] + Repeated(0x8004, |e.partitions|) + FilterIds(e.filter) + WriterIds(e)
  {
    var a, b, c := IdentityParams(e, l), Strings(PID_PARTITION, e.partitions), FilterParams(e.filter);
    var o, z := OwnershipParams(e), LeaseParams(e);
    assert Build(e, l) == a + b + c + (o + z);
    IdsOfParts(a, b, c, o + z);
    IdsOfIdentity(e, l);
    IdsOfStrings(PID_PARTITION, e.partitions);
    IdsOfFilter(e.filter);
    IdsOfWriter(e);
  }

  lemma IdsOfParts(a: seq<Param>, b: seq<Param>, c: seq<Param>, d: seq<Param>)
    ensures IdsOf(a + b + c + d) == IdsOf(a) + IdsOf(b) + IdsOf(c) + IdsOf(d)
  {
    IdsAppend(a + b + c, d);
    IdsAppend(a + b, c);
    IdsAppend(a, b);
  }

  lemma IdsOfIdentity(e: Endpoint, l: Locator)
    requires ValidLocator(l)
    ensures IdsOf(IdentityParams(e, l)) == [0x5A, 5, 7, 0x2F]
  {
  }

  lemma IdsOfFilter(f: Option<FilterText>)
    ensures IdsOf(FilterParams(f)) == FilterIds(f)
  {
    if f.Some? {
      var head := [Param(PID_FILTER, StringValue(f.value.text))];
      IdsAppend(head, Strings(PID_FILTER_PARAM, f.value.params));
      IdsOfStrings(PID_FILTER_PARAM, f.value.params);
      assert IdsOf(head) == [0x8009];
    }
  }

  lemma IdsOfWriter(e: Endpoint)
    requires Announceable(e)
    ensures IdsOf(OwnershipParams(e) + LeaseParams(e)) == WriterIds(e)
  {
  }

  function IdsOf(ps: seq<Param>): (ids: seq<nat>)
    ensures |ids| == |ps| && forall i :: 0 <= i < |ps| ==> ids[i] == ps[i].pid
  {
    if ps == [] then [] else [ps[0].pid] + IdsOf(ps[1..])
  }

  function Repeated(id: nat, n: nat): (ids: seq<nat>)
    ensures |ids| == n && forall i :: 0 <= i < n ==> ids[i] == id
  {
    if n == 0 then [] else [id] + Repeated(id, n - 1)
  }

  lemma IdsAppend(a: seq<Param>, b: seq<Param>)
    ensures IdsOf(a + b) == IdsOf(a) + IdsOf(b)
  {
  }

  lemma {:induction false} IdsOfStrings(pid: nat, ss: seq<Bytes>)
    ensures IdsOf(Strings(pid, ss)) == Repeated(pid, |ss|)
  {
    if ss != [] {
      IdsOfStrings(pid, ss[1..]);
      IdsAppend([Param(pid, StringValue(ss[0]))], Strings(pid, ss[1..]));
    }
  }

  // ----------------------------------------------------------------------- reading

  /** An announcement that leaves its address open is located at its sender, kind and port
      being kept; any other stays as it was announced. */
  lemma LocatedExact(l: Locator, from: Option<Address>)
    requires |l.address| == 16
    ensures var r, open := Located(l, from), forall i :: 0 <= i < 16 ==> l.address[i] == 0;
      && r.kind == l.kind && r.port == l.port && |r.address| == 16
      && (open && from.Some? ==> r.address[12..] == from.value && forall i :: 0 <= i < 12 ==> r.address[i] == 0)
      && (!open || from.None? ==> r == l)
  {
    if forall i :: 0 <= i < 16 ==> l.address[i] == 0 { assert l.address == ZeroBytes(16); }
  }

  /** A padding id is passed over with its length field, the sentinel ends the list whatever
      follows, and so does a parameter that is cut off. */
  lemma OddParams(bs: Bytes, len: Bytes, p: Param, k: nat)
    requires |len| == 2 && Encodable(p) && k < |EncodeParam(p)|
    ensures DecodeParams([0, 0] + len + bs) == DecodeParams(bs)
    ensures DecodeParams([1, 0] + len + bs) == []
    ensures DecodeParams(EncodeParam(p)[..k]) == []
  {
    TwoByteId(0, len, bs);
    TwoByteId(1, len, bs);
    var cut := EncodeParam(p)[..k];
    if k >= 4 {
      ParamLayout(p);
      assert cut[..2] == EncodeParam(p)[..2] && cut[2..4] == EncodeParam(p)[2..4];
    }
  }

  lemma TwoByteId(x: byte, len: Bytes, bs: Bytes)
    requires |len| == 2
    ensures var all := [x, 0] + len + bs; UnLE(all[..2]) == x && all[4..] == bs
  {
    var all := [x, 0] + len + bs;
    assert all[..2] == [x] + [0];
    LowBytesFirst([x], [0]);
    OneByte(x);
    OneByte(0);
  }

  /** A message of another encapsulation, or too short for one, announces nothing. */
  lemma WrongEncapsulation(msg: Bytes, prefix: Prefix, isWriter: bool, from: Option<Address>,
      compiles: (Bytes, seq<Bytes>) -> bool)
    ensures |msg| < 4 || msg[..2] != [0, 3] ==> Handle(msg, prefix, isWriter, from, compiles) == None
    ensures Message([])[..4] == [0, 3, 0, 0] && Message([])[4..] == [1, 0, 0, 0]
  {
    if |msg| >= 4 { assert msg[..2] == [msg[0], msg[1]]; }
    MessageParts([]);
  }

  /** An announcement conveys the endpoint as it is, exactly if it names its type, only a
      writer is exclusive or has a lease, the lease is not negative, there is a strength only
      with exclusive ownership, and the filter is not empty and compiles. */
  lemma ConveyedExact(e: Endpoint, compiles: (Bytes, seq<Bytes>) -> bool)
    ensures Conveyed(e, compiles) == e <==>
      && e.typeName != [] && (e.exclusive ==> e.isWriter) && (e.strength != 0 ==> e.exclusive)
      && (e.lease != 0 ==> e.isWriter && e.lease > 0)
      && (e.filter.Some? ==> e.filter.value.text != [] && compiles(e.filter.value.text, e.filter.value.params))
    ensures var c := Conveyed(e, compiles); c.guid == e.guid && c.topic == e.topic && c.partitions == e.partitions
  {
  }

  /** A string is short enough exactly if its parameter has a 16-bit length. */
  lemma ShortStringExact(s: Bytes, pid: nat)
    requires 1 < pid < 0x1_0000
    ensures ShortString(s) <==> Encodable(Param(pid, StringValue(s)))
  {
  }

  /** What a string parameter holds: as many bytes as its count says, less one final zero. */
  lemma StringsExact(b: Bytes)
    ensures DecodeString(b).Some? <==> |b| >= 4 && |b| >= 4 + UnLE(b[..4])
    ensures DecodeString(b).Some? ==> var raw, s := b[4..4 + UnLE(b[..4])], DecodeString(b).value;
      raw == s + [0] || (raw == s && (s == [] || s[|s| - 1] != 0))
  {
    if DecodeString(b).Some? {
      var raw := b[4..4 + UnLE(b[..4])];
      if raw != [] { assert raw == raw[..|raw| - 1] + [raw[|raw| - 1]]; }
    }
  }

  /** Parameters that are unknown, or too short for what they hold, change nothing, and neither
      does an ownership of zero. */
  lemma ApplyIgnores(d: Draft, p: Param, from: Option<Address>)
    ensures p.pid !in {0x5A, 5, 7, 0x2F, 0x8004, 0x8005, 0x8006, 0x8007, 0x8009, 0x800A} ==> Apply(d, p, from) == d
    ensures |p.value| < 4 ==> Apply(d, p, from) == d
    ensures p.pid == 0x5A && |p.value| < 16 ==> Apply(d, p, from) == d
    ensures p.pid == 0x2F && |p.value| < 24 ==> Apply(d, p, from) == d
    ensures p.pid == 0x8007 && |p.value| < 8 ==> Apply(d, p, from) == d
    ensures p.pid == 0x8005 && |p.value| >= 4 && UnLE(p.value[..4]) == 0 ==> Apply(d, p, from) == d
    ensures p.pid == 0x8005 && |p.value| >= 4 && UnLE(p.value[..4]) != 0 ==> Apply(d, p, from) == d.(exclusive := true)
  {
  }
}
