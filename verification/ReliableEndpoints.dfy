/** The two ends of the reliable protocol: what a writer and a reader send in answer to
    each packet, as functions of their state and as the objects that compute it. */
module ReliableEndpoints {
  import opened Wire
  import opened SendHistory
  import opened RecvTracker
  import Submessages

  datatype Packet =
    | Data(sn: U64, msg: Message)
    | Heartbeat(first: U64, last: U64)
    | AckNack(reader: nat, base: U64, bitmap: Word32)
    | Gap(start: U64, end: U64)

  // -------------------------------------------------------------------- writer

  /** Everything the writer ever sent: number k is the k-th message. */
  function LogOf(written: seq<Message>): (log: map<nat, Message>)
    ensures forall k: nat :: k in log <==> 1 <= k <= |written|
    ensures forall k <- log :: log[k] == written[k - 1]
  {
    var n := |written|;
    if n == 0 then map[] else LogOf(written[..n - 1])[n := written[n - 1]]
  }

  /** The first number still retained after `n` writes. */
  function First(n: nat): nat
  {
    Oldest(1, n)
  }

  predicate Stored(written: seq<Message>, sn: nat)
  {
    1 <= sn <= |written|
  }

  predicate StillRetained(written: seq<Message>, sn: nat)
  {
    First(|written|) <= sn <= |written|
  }

  /** After 256 writes each further one evicts one number. */
  lemma RetainedWindow(written: seq<Message>, sn: nat)
    ensures StillRetained(written, sn) <==> 1 <= sn <= |written| && |written| - sn < 256
    ensures First(|written|) == if |written| <= 256 then 1 else |written| - 255
  {
  }

  function Plus(a: U64, k: nat): U64
  {
    (a + k) % (U64_MAX + 1)
  }

  /** The retransmissions answering the first `k` bits of a request. */
  function Retransmissions(written: seq<Message>, base: U64, bitmap: Word32, k: nat): seq<Packet>
    requires k <= 32
  {
    if k == 0 then []
    else
      var sn := Plus(base, k - 1);
      Retransmissions(written, base, bitmap, k - 1)
      + (if bitmap[k - 1] && StillRetained(written, sn) then [Data(sn, written[sn - 1])] else [])
  }

  function GapReply(n: nat, base: U64): seq<Packet>
    requires n <= U64_MAX
  {
    if n > 0 && base < First(n) then
      var top := Plus(base, 31);
      [Gap(base, if First(n) - 1 > top then top else First(n) - 1)]
    else []
  }

  function AckNackReply(written: seq<Message>, base: U64, bitmap: Word32): seq<Packet>
    requires |written| <= U64_MAX
  {
    Retransmissions(written, base, bitmap, 32) + GapReply(|written|, base)
  }

  function AckedAfter(acked: nat, base: U64): nat
  {
    if base > 0 && base - 1 > acked then base - 1 else acked
  }

  function HeartbeatNow(n: nat): Packet
    requires 1 <= n <= U64_MAX
  {
    Heartbeat(First(n), n)
  }

  /** The packet is a HEARTBEAT that advertises exactly the numbers that can still be had. */
  ghost predicate Advertises(p: Packet, written: seq<Message>)
  {
    p.Heartbeat? && forall k: nat :: StillRetained(written, k) <==> p.first <= k <= p.last
  }

  lemma HeartbeatExact(written: seq<Message>)
    requires 1 <= |written| <= U64_MAX
    ensures Advertises(HeartbeatNow(|written|), written)
  {
  }

  /** A GAP declares the number. */
  predicate Declares(p: Packet, k: nat)
    requires p.Gap?
  {
    p.start <= k <= p.end
  }

  class ReliableWriter {
    ghost var Written: seq<Message>
    const history: SendHistory
    var sequence: U64
    var acked: nat

    ghost predicate Valid()
      reads this, history, history.msg, history.sn, history.filled
    {
      && history.Valid()
      && sequence == |Written|
      && history.Log == LogOf(Written)
      && (|Written| > 0 ==> history.Start == 1 && history.highest == |Written|)
    }

    constructor ()
      ensures Valid() && Written == [] && acked == 0
      ensures fresh(history) && fresh(history.msg) && fresh(history.sn) && fresh(history.filled)
    {
      history := new SendHistory();
      sequence, acked, Written := 0, 0, [];
      new;
      assert LogOf(Written) == map[];
    }

    method Write(m: Message) returns (out: seq<Packet>)
      requires Valid() && sequence < U64_MAX
      modifies this, history, history.msg, history.sn, history.filled
      ensures Valid() && Written == old(Written) + [m] && acked == old(acked)
      ensures out == [Data(|Written|, m), HeartbeatNow(|Written|)]
    {
      sequence := sequence + 1;
      history.Store(sequence, m);
      Written := Written + [m];
      assert Written[..|Written| - 1] == old(Written);
      assert old(Written) == [] ==> LogOf(old(Written)) == map[];
      assert old(Written) != [] ==> 1 in LogOf(old(Written));
      var hb := SendHeartbeat();
      out := [Data(sequence, m)] + hb;
    }

    method SendHeartbeat() returns (out: seq<Packet>)
      requires Valid()
      ensures out == if |Written| == 0 then [] else [HeartbeatNow(|Written|)]
      ensures |Written| > 0 ==> Advertises(out[0], Written)
    {
      var first, last, ok := history.FirstLast();
      assert |Written| > 0 ==> |Written| in LogOf(Written);
      if !ok {
        return [];
      }
      out := [Heartbeat(first, last)];
    }

    method Find(sn: U64) returns (m: Option<Message>)
      requires Valid()
      ensures m == if StillRetained(Written, sn) then Some(Written[sn - 1]) else None
    {
      m := history.Get(sn);
    }

    method Retransmit(base: U64, bitmap: Word32) returns (out: seq<Packet>)
      requires Valid()
      ensures out == Retransmissions(Written, base, bitmap, 32)
    {
      out := [];
      for k := 0 to 32
        invariant out == Retransmissions(Written, base, bitmap, k)
      {
        if bitmap[k] {
          var sn := Plus(base, k);
          var m := Find(sn);
          if m.Some? {
            out := out + [Data(sn, m.value)];
          }
        }
      }
    }

    method DeclareGap(base: U64) returns (out: seq<Packet>)
      requires Valid()
      ensures out == GapReply(|Written|, base)
    {
      var histFirst, _, histOK := history.FirstLast();
      assert |Written| > 0 ==> |Written| in LogOf(Written);
      out := [];
      if histOK && base < histFirst {
        var end := histFirst - 1;
        var top := Plus(base, 31);
        if end > top {
          end := top;
        }
        out := [Gap(base, end)];
      }
    }

    /** Advances the drain watermark, retransmits what is requested and retained, and
        declares the evicted head of the request in a GAP. */
    method HandleAckNack(base: U64, bitmap: Word32) returns (out: seq<Packet>)
      requires Valid()
      modifies this`acked
      ensures Valid() && Written == old(Written)
      ensures acked == AckedAfter(old(acked), base)
      ensures out == AckNackReply(Written, base, bitmap)
    {
      if base != 0 && base - 1 > acked {
        acked := base - 1;
      }
      var data := Retransmit(base, bitmap);
      var gap := DeclareGap(base);
      out := data + gap;
    }
  }

  /** A request whose window does not wrap is answered completely and without overlap:
      each requested number that was ever stored is either retransmitted with its own
      message or declared in the GAP, and the GAP declares nothing still retained. */
  lemma RequestsAnswered(written: seq<Message>, base: U64, bitmap: Word32, k: nat)
    requires k < 32 && bitmap[k] && base + 31 <= U64_MAX && |written| <= U64_MAX && Stored(written, base + k)
    ensures var sn, out := base + k, AckNackReply(written, base, bitmap);
      && (StillRetained(written, sn) <==> Data(sn, written[sn - 1]) in out)
      && (!StillRetained(written, sn) <==> exists g <- out :: g.Gap? && g.start <= sn <= g.end)
  {
    RetransmissionsAre(written, base, bitmap, 32);
    var sn := base + k;
    assert Plus(base, k) == sn && Plus(base, 31) == base + 31;
    var out := AckNackReply(written, base, bitmap);
    if !StillRetained(written, sn) {
      var g := GapReply(|written|, base)[0];
      assert g in out && g.start <= sn <= g.end;
    }
    forall g <- out | g.Gap? && g.start <= sn <= g.end ensures !StillRetained(written, sn) {
      assert g in GapReply(|written|, base);
    }
  }

  /** Only retained numbers are retransmitted, with the message they were written with,
      and only evicted ones are declared missing. */
  lemma RepliesAreTrue(written: seq<Message>, base: U64, bitmap: Word32, p: Packet)
    requires |written| <= U64_MAX && p in AckNackReply(written, base, bitmap)
    ensures p.Data? ==> StillRetained(written, p.sn) && p.msg == written[p.sn - 1] && Visits(base, bitmap, p.sn)
    ensures p.Gap? ==> p.end < First(|written|)
    ensures p.Gap? && base + 31 <= U64_MAX ==>
      forall k: nat :: Declares(p, k) <==> base <= k <= base + 31 && k < First(|written|)
    ensures p.Data? || p.Gap?
  {
    RetransmissionsAre(written, base, bitmap, 32);
    if base + 31 <= U64_MAX { assert Plus(base, 31) == base + 31; }
  }

  /** The retransmissions come first; a GAP comes last, and exactly when something was written
      and the request begins before what is retained. */
  lemma ReplyShape(written: seq<Message>, base: U64, bitmap: Word32)
    requires |written| <= U64_MAX
    ensures var out := AckNackReply(written, base, bitmap);
      && (forall i :: 0 <= i < |out| - 1 ==> out[i].Data?)
      && (out != [] && out[|out| - 1].Gap? <==> written != [] && base < First(|written|))
      && (out != [] && out[|out| - 1].Gap? ==> out[|out| - 1].start == base)
  {
    RetransmissionsAre(written, base, bitmap, 32);
    var data, gap := Retransmissions(written, base, bitmap, 32), GapReply(|written|, base);
    assert forall i :: 0 <= i < |data| ==> data[i] in data;
    assert forall i :: 0 <= i < |data| ==> (data + gap)[i] == data[i];
    if gap != [] { assert (data + gap)[|data|] == gap[0]; }
  }

  /** Packets of DATA with increasing numbers, from `base` on and below `base + n`. */
  predicate InOrder(out: seq<Packet>, base: nat, n: nat)
  {
    && (forall i :: 0 <= i < |out| ==> out[i].Data? && base <= out[i].sn < base + n)
    && forall i, j :: 0 <= i < j < |out| ==> out[i].Data? && out[j].Data? && out[i].sn < out[j].sn
  }

  /** No number is retransmitted twice, and they come in the order of the request. */
  lemma {:induction false} RetransmissionsInOrder(written: seq<Message>, base: U64, bitmap: Word32, n: nat)
    requires n <= 32 && base + 31 <= U64_MAX
    ensures InOrder(Retransmissions(written, base, bitmap, n), base, n)
    decreases n
  {
    if n > 0 {
      RetransmissionsInOrder(written, base, bitmap, n - 1);
      var front, sn := Retransmissions(written, base, bitmap, n - 1), base + (n - 1);
      assert Plus(base, n - 1) == sn;
      if bitmap[n - 1] && StillRetained(written, sn) {
        OneMoreInOrder(front, Data(sn, written[sn - 1]), base, n - 1);
      } else {
        assert Retransmissions(written, base, bitmap, n) == front;
      }
    }
  }

  lemma OneMoreInOrder(out: seq<Packet>, p: Packet, base: nat, n: nat)
    requires InOrder(out, base, n) && p.Data? && p.sn == base + n
    ensures InOrder(out + [p], base, n + 1)
  {
  }

  /** The drain watermark becomes the larger of itself and what the base acknowledges. */
  lemma AckedIsMaximum(acked: nat, base: U64)
    ensures acked <= AckedAfter(acked, base) && (base > 0 ==> base - 1 <= AckedAfter(acked, base))
    ensures AckedAfter(acked, base) == acked || AckedAfter(acked, base) == base - 1
  {
  }

  lemma {:induction false} RetransmissionsAre(written: seq<Message>, base: U64, bitmap: Word32, n: nat)
    requires n <= 32
    ensures forall p <- Retransmissions(written, base, bitmap, n) ::
      p.Data? && StillRetained(written, p.sn) && p.msg == written[p.sn - 1] && Visits(base, bitmap, p.sn)
    ensures forall k :: 0 <= k < n && bitmap[k] && StillRetained(written, Plus(base, k)) ==>
      Data(Plus(base, k), written[Plus(base, k) - 1]) in Retransmissions(written, base, bitmap, n)
    decreases n
  {
    if n > 0 { RetransmissionsAre(written, base, bitmap, n - 1); }
  }

  // -------------------------------------------------------------------- reader

  function Request(reader: nat, t: Tracker, last: U64): seq<Packet>
  {
    if NeedsAck(t, last) then [AckNack(reader, t.expected, RequestBits(t, last))] else []
  }

  class ReliableReader {
    const id: nat
    const tracker: RecvTracker

    ghost predicate Valid()
      reads this, tracker
    {
      Inv(tracker.View())
    }

    constructor (id: nat)
      ensures Valid() && this.id == id && tracker.View() == FRESH_TRACKER && fresh(tracker)
    {
      this.id := id;
      tracker := new RecvTracker();
    }

    /** A DATA submessage: note the number, then ask for every gap below it. */
    method OnData(sn: U64) returns (out: seq<Packet>)
      requires Valid() && !Unending(Recorded(tracker.View(), sn).expected, sn)
      modifies tracker
      ensures Valid() && tracker.View() == Recorded(old(tracker.View()), sn)
      ensures out == Request(id, tracker.View(), sn)
    {
      var _ := tracker.Record(sn);
      var base, bitmap, needAck := tracker.Missing(sn);
      out := if needAck then [AckNack(id, base, bitmap)] else [];
    }

    /** A HEARTBEAT: anchor on first contact, then ask for everything still missing. */
    method OnHeartbeat(first: U64, last: U64) returns (out: seq<Packet>)
      requires Valid() && !Unending(Anchored(tracker.View(), first).expected, last)
      modifies tracker
      ensures Valid() && tracker.View() == Anchored(old(tracker.View()), first)
      ensures out == Request(id, tracker.View(), last)
    {
      tracker.InitExpected(first);
      var base, bitmap, needAck := tracker.Missing(last);
      out := if needAck then [AckNack(id, base, bitmap)] else [];
    }
  }

  /** The writer's retransmission loop visits `sn` for this request. */
  ghost predicate Visits(base: U64, bitmap: Word32, sn: nat)
  {
    exists k :: 0 <= k < 32 && bitmap[k] && Plus(base, k) == sn
  }

  ghost predicate MissingInWindow(t: Tracker, last: U64, sn: nat)
  {
    t.expected + 31 <= U64_MAX && t.expected <= sn <= last && sn <= t.expected + 31 && sn !in t.ahead
  }

  lemma RequestVisits(t: Tracker, last: U64, sn: nat)
    requires t.initDone
    ensures Visits(t.expected, RequestBits(t, last), sn) <==> MissingInWindow(t, last, sn)
  {
    var bits := RequestBits(t, last);
    if MissingInWindow(t, last, sn) {
      var k := sn - t.expected;
      assert bits[k] && Plus(t.expected, k) == sn;
    }
    if k :| 0 <= k < 32 && bits[k] && Plus(t.expected, k) == sn {
      assert t.expected + k <= U64_MAX;
      assert Plus(t.expected, k) == t.expected + k;
    }
  }

  /** From the reader's tracker to the writer's loop, through the wire format: the numbers
      visited are exactly the missing ones of the window. */
  lemma RequestSurvivesWire(t: Tracker, last: U64, a: Submessages.AckNack)
    requires t.initDone
    requires a.base == Submessages.U64ToSn(t.expected) && a.bitmap == RequestBits(t, last)
    ensures var b := Submessages.ParseAckNack(Submessages.AckNackBody(a));
      b.Some? && forall sn: nat :: Visits(Submessages.SnToU64(b.value.base), b.value.bitmap, sn) <==>
          MissingInWindow(t, last, sn)
  {
    Submessages.AckNackRoundTrip(a);
    Submessages.SnRoundTrip(t.expected, a.base);
    forall sn: nat ensures Visits(t.expected, a.bitmap, sn) <==> MissingInWindow(t, last, sn) {
      RequestVisits(t, last, sn);
    }
  }
}
