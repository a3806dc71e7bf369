/** Every run of one reliable writer and any number of matched readers over a network
    that loses, duplicates and reorders (section 8.4 of RTPS 2.3). */
module ReliableProtocol {
  import opened Wire
  import opened SendHistory
  import opened RecvTracker
  import opened ReliableEndpoints

  /** A reader with two history variables: where its tracker was anchored and the
      numbers of the DATA it processed. */
  datatype Reader = Reader(tracker: Tracker, anchor: U64, got: set<nat>)

  /** `net` holds every packet ever sent. A packet may be delivered at any later time,
      any number of times, or never. */
  datatype System = System(written: seq<Message>, acked: nat, readers: map<nat, Reader>, net: set<Packet>)

  datatype Event =
    | Write(m: Message)
    | Tick
    | DeliverData(r: nat, data: Packet)
    | DeliverHeartbeat(r: nat, heartbeat: Packet)
    | DeliverAckNack(acknack: Packet)

  /** Writers stop short of the last 64-bit numbers, so that windows do not wrap. */
  const LAST_SEQUENCE: nat := U64_MAX - 32

  function SetOf<T>(s: seq<T>): set<T>
  {
    set x <- s
  }

  predicate Enabled(s: System, e: Event)
  {
    match e
    case Write(_) => |s.written| < LAST_SEQUENCE
    case Tick => |s.written| > 0
    case DeliverData(r, p) => r in s.readers && p in s.net && p.Data?
    case DeliverHeartbeat(r, p) => r in s.readers && p in s.net && p.Heartbeat?
    case DeliverAckNack(p) => p in s.net && p.AckNack?
  }

  predicate Sized(s: System)
  {
    |s.written| <= LAST_SEQUENCE
  }

  /** What an event does; one that is not enabled does nothing. A delivered GAP is not
      among the events because the reader ignores it. */
  function Apply(s: System, e: Event): (s': System)
    requires Sized(s)
    ensures Sized(s')
  {
    if !Enabled(s, e) then s
    else
      match e
      case Write(m) =>
        var w := s.written + [m];
        s.(written := w, net := s.net + {Data(|w|, m), HeartbeatNow(|w|)})
      case Tick => s.(net := s.net + {HeartbeatNow(|s.written|)})
      case DeliverData(r, p) =>
        var x := ReceiveData(s.readers[r], p.sn);
        s.(readers := s.readers[r := x], net := s.net + SetOf(Request(r, x.tracker, p.sn)))
      case DeliverHeartbeat(r, p) =>
        var x := ReceiveHeartbeat(s.readers[r], p.first);
        s.(readers := s.readers[r := x], net := s.net + SetOf(Request(r, x.tracker, p.last)))
      case DeliverAckNack(p) =>
        s.(acked := AckedAfter(s.acked, p.base), net := s.net + SetOf(AckNackReply(s.written, p.base, p.bitmap)))
  }

  function ReceiveData(x: Reader, sn: U64): Reader
  {
    Reader(Recorded(x.tracker, sn), if x.tracker.initDone then x.anchor else sn, x.got + {sn})
  }

  function ReceiveHeartbeat(x: Reader, first: U64): Reader
  {
    Reader(Anchored(x.tracker, first), if x.tracker.initDone then x.anchor else first, x.got)
  }

  function Run(s: System, es: seq<Event>): (s': System)
    requires Sized(s)
    ensures Sized(s')
    decreases |es|
  {
    if es == [] then s else Run(Apply(s, es[0]), es[1..])
  }

  function Initial(ids: set<nat>): System
  {
    System([], 0, map r <- ids :: Reader(FRESH_TRACKER, 0, {}), {})
  }

  // --------------------------------------------------------------- the invariant

  ghost predicate ReaderInv(x: Reader, n: nat)
  {
    && Inv(x.tracker)
    && (forall k <- x.got :: 1 <= k <= n)
    && (x.tracker.initDone ==> 1 <= x.anchor <= x.tracker.expected <= n + 1)
    && (x.tracker.initDone ==> forall k :: Noted(x.tracker, x.anchor, k) ==> k in x.got)
  }

  ghost predicate PacketInv(s: System, p: Packet)
  {
    match p
    case Data(sn, m) => Stored(s.written, sn) && m == s.written[sn - 1]
    case Heartbeat(first, last) => 1 <= first <= last <= |s.written|
    case AckNack(r, base, _) => r in s.readers && base <= |s.written| && Acknowledged(s.readers[r], base)
    case Gap(start, end) => end < First(|s.written|)
  }

  /** The reader has processed every number from its anchor up to, not including, `base`. */
  ghost predicate Acknowledged(x: Reader, base: nat)
  {
    && x.tracker.initDone && x.anchor <= base <= x.tracker.expected
    && forall k :: x.anchor <= k < base ==> k in x.got
  }

  /** `acked` is 0, or was acknowledged by some reader. */
  ghost predicate AckedInv(s: System)
  {
    s.acked == 0 || exists r <- s.readers :: Acknowledged(s.readers[r], s.acked + 1)
  }

  ghost predicate SystemInv(s: System)
  {
    && Sized(s)
    && (forall r <- s.readers :: ReaderInv(s.readers[r], |s.written|))
    && (forall p <- s.net :: PacketInv(s, p))
    && AckedInv(s)
    && (|s.written| > 0 ==> s.acked < |s.written|)
    && (s.written == [] ==> s.acked == 0)
  }

  lemma ReceiveDataKeeps(x: Reader, sn: U64, n: nat)
    requires ReaderInv(x, n) && 1 <= sn <= n < U64_MAX
    ensures ReaderInv(ReceiveData(x, sn), n)
    ensures forall b: nat :: Acknowledged(x, b) ==> Acknowledged(ReceiveData(x, sn), b)
  {
    var t := Anchored(x.tracker, sn);
    var x' := ReceiveData(x, sn);
    assert Recorded(t, sn) == Recorded(x.tracker, sn);
    RecordExact(t, sn, x'.anchor);
    assert !Exhausted(t.expected, t.ahead + {sn}) by {
      assert x.tracker.initDone ==> !Noted(t, x.anchor, U64_MAX);
      assert U64_MAX !in t.ahead + {sn};
    }
    assert forall k :: Noted(x'.tracker, x'.anchor, k) ==> k in x'.got;
    assert !Noted(x'.tracker, x'.anchor, n + 1);
  }

  /** What later states keep of a packet's meaning: messages are never rewritten, the
      retained window only moves up, and readers never take back an acknowledgement. */
  ghost predicate Later(s: System, s': System)
  {
    && s.written <= s'.written
    && s.readers.Keys == s'.readers.Keys
    && forall r <- s.readers, b: nat :: Acknowledged(s.readers[r], b) ==> Acknowledged(s'.readers[r], b)
  }

  lemma LaterKeepsPacket(s: System, s': System, p: Packet)
    requires Later(s, s') && PacketInv(s, p)
    ensures PacketInv(s', p)
  {
  }

  lemma LaterKeepsAcked(s: System, s': System)
    requires Later(s, s') && AckedInv(s) && s'.acked == s.acked
    ensures AckedInv(s')
  {
    if s.acked != 0 {
      var r :| r in s.readers && Acknowledged(s.readers[r], s.acked + 1);
      assert Acknowledged(s'.readers[r], s'.acked + 1);
    }
  }

  lemma RequestIsTrue(x: Reader, r: nat, n: nat, last: U64, p: Packet)
    requires ReaderInv(x, n) && last <= n <= U64_MAX && p in Request(r, x.tracker, last)
    ensures p.AckNack? && p.reader == r && p.base <= n && Acknowledged(x, p.base)
  {
  }

  lemma ApplyKeepsInv(s: System, e: Event)
    requires SystemInv(s)
    ensures SystemInv(Apply(s, e)) && Later(s, Apply(s, e))
  {
    var s' := Apply(s, e);
    if Enabled(s, e) {
      match e
      case Write(m) =>
        assert Later(s, s');
        forall p <- s'.net ensures PacketInv(s', p) {
          if p in s.net { LaterKeepsPacket(s, s', p); }
        }
        LaterKeepsAcked(s, s');
      case Tick =>
        LaterKeepsAcked(s, s');
      case DeliverData(r, p) =>
        ReceiveDataKeeps(s.readers[r], p.sn, |s.written|);
        ReaderStepKeeps(s, s', r, p.sn);
      case DeliverHeartbeat(r, p) =>
        ReaderStepKeeps(s, s', r, p.last);
      case DeliverAckNack(p) =>
        AckNackKeeps(s, p);
    }
  }

  /** The common part of the two reader steps. */
  lemma ReaderStepKeeps(s: System, s': System, r: nat, last: U64)
    requires SystemInv(s) && r in s.readers && r in s'.readers && last <= |s.written|
    requires s' == s.(readers := s.readers[r := s'.readers[r]],
      net := s.net + SetOf(Request(r, s'.readers[r].tracker, last)))
    requires ReaderInv(s'.readers[r], |s.written|)
    requires forall b: nat :: Acknowledged(s.readers[r], b) ==> Acknowledged(s'.readers[r], b)
    ensures SystemInv(s') && Later(s, s')
  {
    forall p <- s'.net ensures PacketInv(s', p) {
      if p in s.net {
        LaterKeepsPacket(s, s', p);
      } else {
        RequestIsTrue(s'.readers[r], r, |s.written|, last, p);
      }
    }
    LaterKeepsAcked(s, s');
  }

  lemma AckNackKeeps(s: System, p: Packet)
    requires SystemInv(s) && p in s.net && p.AckNack?
    ensures SystemInv(Apply(s, DeliverAckNack(p))) && Later(s, Apply(s, DeliverAckNack(p)))
  {
    var s' := Apply(s, DeliverAckNack(p));
    assert PacketInv(s, p);
    forall q <- s'.net ensures PacketInv(s', q) {
      if q in s.net {
        LaterKeepsPacket(s, s', q);
      } else {
        RepliesAreTrue(s.written, p.base, p.bitmap, q);
      }
    }
    if s'.acked == s.acked {
      LaterKeepsAcked(s, s');
    } else {
      assert Acknowledged(s'.readers[p.reader], s'.acked + 1);
    }
  }

  lemma {:induction false} RunKeepsInv(s: System, es: seq<Event>)
    requires SystemInv(s)
    ensures SystemInv(Run(s, es)) && Later(s, Run(s, es))
    decreases |es|
  {
    if es != [] {
      ApplyKeepsInv(s, es[0]);
      RunKeepsInv(Apply(s, es[0]), es[1..]);
    }
  }

  // --------------------------------------------------------- safety of every run

  /** In every reachable state:
      every DATA in flight carries the message its number was written with;
      every ACKNACK base is at most its reader's watermark, and that reader processed
      every number from its anchor up to the base;
      no GAP declares a number that is still retained, now or later;
      and `acked`, once set, lies below the watermark of some reader that processed every
      number from its anchor through `acked`. */
  lemma Safety(ids: set<nat>, es: seq<Event>)
    ensures var s := Run(Initial(ids), es);
      && (forall p <- s.net | p.Data? :: Stored(s.written, p.sn) && p.msg == s.written[p.sn - 1])
      && (forall p <- s.net | p.AckNack? :: p.reader in s.readers && Acknowledged(s.readers[p.reader], p.base))
      && (forall p <- s.net | p.Gap? :: forall k :: p.start <= k <= p.end ==> !StillRetained(s.written, k))
      && (s.acked > 0 ==> exists r <- s.readers :: Acknowledged(s.readers[r], s.acked + 1))
  {
    RunKeepsInv(Initial(ids), es);
    var s := Run(Initial(ids), es);
    assert forall p <- s.net :: PacketInv(s, p);
  }

  /** `acked` means what its declaration promises: every reader has it. */
  ghost predicate AckedByAll(s: System)
  {
    s.acked == 0 || forall r <- s.readers :: Acknowledged(s.readers[r], s.acked + 1)
  }

  /** With a single reader, `acked` is its own acknowledgement. */
  lemma SingleReaderSafety(r: nat, es: seq<Event>)
    ensures var s := Run(Initial({r}), es);
      && s.readers.Keys == {r}
      && AckedByAll(s)
      && (s.acked > 0 ==> s.acked < s.readers[r].tracker.expected)
  {
    RunKeepsInv(Initial({r}), es);
    var s := Run(Initial({r}), es);
    assert s.readers.Keys == {r};
    if s.acked > 0 {
      var q :| q in s.readers && Acknowledged(s.readers[q], s.acked + 1);
      assert q == r;
    }
  }

  /** The drain condition `acked >= seq` of a writer that has written anything is met in
      no reachable state: readers stop acknowledging once they have caught up. */
  lemma DrainNeverCompletes(ids: set<nat>, es: seq<Event>)
    ensures var s := Run(Initial(ids), es); s.acked >= |s.written| <==> s.written == []
  {
    RunKeepsInv(Initial(ids), es);
  }

  /** The declared meaning of `acked` holds in every run exactly when the writer has at
      most one reader: the watermark is a maximum over readers. */
  lemma AckedByAllIffSingleReader(ids: set<nat>)
    ensures (forall es :: AckedByAll(Run(Initial(ids), es))) <==> forall a <- ids, b <- ids :: a == b
  {
    if forall a <- ids, b <- ids :: a == b {
      forall es ensures AckedByAll(Run(Initial(ids), es)) {
        if a :| a in ids {
          assert ids == {a};
          SingleReaderSafety(a, es);
        } else {
          assert Initial(ids).readers.Keys == {};
          RunKeepsInv(Initial(ids), es);
        }
      }
    } else {
      var a, b :| a in ids && b in ids && a != b;
      OneReaderAcksForAll(ids, a, b);
      assert !AckedByAll(Run(Initial(ids), OneSidedRun(a)));
    }
  }

  function OneSidedRun(a: nat): seq<Event>
  {
    var t := Tracker(true, 2, {});
    [Write([]), Write([]), DeliverData(a, Data(1, [])), DeliverHeartbeat(a, Heartbeat(1, 2)),
     DeliverAckNack(AckNack(a, 2, RequestBits(t, 2)))]
  }

  lemma OneReaderAcksForAll(ids: set<nat>, a: nat, b: nat)
    requires a in ids && b in ids && a != b
    ensures var s := Run(Initial(ids), OneSidedRun(a));
      b in s.readers && s.acked == 1 && s.readers[b] == Reader(FRESH_TRACKER, 0, {})
  {
    var es := OneSidedRun(a);
    var s0 := Initial(ids);
    var s1 := Apply(s0, es[0]);
    var s2 := Apply(s1, es[1]);
    var s3 := Apply(s2, es[2]);
    assert s3.readers[a].tracker == Tracker(true, 2, {});
    var s4 := Apply(s3, es[3]);
    assert AckNack(a, 2, RequestBits(Tracker(true, 2, {}), 2)) in s4.net;
    var s5 := Apply(s4, es[4]);
    assert s5.acked == 1;
    RunFive(s0, es);
  }

  lemma RunFive(s: System, es: seq<Event>)
    requires Sized(s) && |es| == 5
    ensures Run(s, es) == Apply(Apply(Apply(Apply(Apply(s, es[0]), es[1]), es[2]), es[3]), es[4])
  {
    assert es[1..][1..] == es[2..] && es[2..][1..] == es[3..] && es[3..][1..] == es[4..] && es[4..][1..] == [];
    var s1 := Apply(s, es[0]);
    var s2 := Apply(s1, es[1]);
    var s3 := Apply(s2, es[2]);
    assert Run(s, es) == Run(s1, es[1..]);
    assert Run(s1, es[1..]) == Run(s2, es[2..]);
    assert Run(s2, es[2..]) == Run(s3, es[3..]);
    var s4 := Apply(s3, es[3]);
    assert Run(s3, es[3..]) == Run(s4, es[4..]);
    assert Run(s4, es[4..]) == Apply(s4, es[4]);
  }

  // ------------------------------------------------------------------- recovery

  /** The numbers the reader is missing in the first window up to the last one written. */
  ghost predicate Requested(t: Tracker, n: nat, sn: nat)
  {
    t.expected <= sn <= n && sn <= t.expected + 31 && sn !in t.ahead
  }

  predicate AllStored(written: seq<Message>, order: seq<nat>)
  {
    forall i :: 0 <= i < |order| ==> Stored(written, order[i])
  }

  /** Deliveries of DATA with the given numbers, in the given order. */
  function Deliveries(written: seq<Message>, r: nat, order: seq<nat>): seq<Event>
    requires AllStored(written, order)
    requires |written| <= U64_MAX
  {
    if order == [] then []
    else [DeliverData(r, Data(order[0], written[order[0] - 1]))] + Deliveries(written, r, order[1..])
  }

  /** A round: the periodic HEARTBEAT reaches the reader, its ACKNACK reaches the writer,
      and then DATA arrives in the given order. */
  function Round(s: System, r: nat, order: seq<nat>): seq<Event>
    requires SizedFor(s, r) && |s.written| > 0
    requires AllStored(s.written, order)
  {
    var n, t := |s.written|, s.readers[r].tracker;
    [Tick, DeliverHeartbeat(r, HeartbeatNow(n)), DeliverAckNack(AckNack(r, t.expected, RequestBits(t, n)))]
    + Deliveries(s.written, r, order)
  }

  predicate SizedFor(s: System, r: nat)
  {
    Sized(s) && r in s.readers
  }

  /** The round loses none of the retransmissions; it may repeat and reorder them, and
      mix in any other DATA of the writer. */
  ghost predicate LossFree(s: System, r: nat, order: seq<nat>)
  {
    && SizedFor(s, r)
    && AllStored(s.written, order)
    && forall sn :: Requested(s.readers[r].tracker, |s.written|, sn) && StillRetained(s.written, sn) ==> sn in order
  }

  lemma {:induction false} RunAppend(s: System, es: seq<Event>, fs: seq<Event>)
    requires Sized(s)
    ensures Run(s, es + fs) == Run(Run(s, es), fs)
    decreases |es|
  {
    if es == [] {
      assert es + fs == fs;
    } else {
      assert (es + fs)[1..] == es[1..] + fs;
      RunAppend(Apply(s, es[0]), es[1..], fs);
    }
  }

  /** Delivering DATA never lowers the watermark and notes every number that is in
      flight and not out of the reorder window. */
  lemma {:induction false} DeliveriesNote(s: System, r: nat, order: seq<nat>)
    requires SystemInv(s) && r in s.readers && s.readers[r].tracker.initDone
    requires AllStored(s.written, order)
    ensures var s' := Run(s, Deliveries(s.written, r, order));
      && s'.written == s.written && r in s'.readers && Forward(s.readers[r], s'.readers[r])
      && forall i :: 0 <= i < |order| && Takes(s, r, order[i]) ==>
        Noted(s'.readers[r].tracker, s.readers[r].anchor, order[i])
    decreases |order|
  {
    if order != [] {
      var s1, rest := Apply(s, DeliverData(r, Data(order[0], s.written[order[0] - 1]))), order[1..];
      DeliveryNotes(s, r, order[0]);
      DeliveriesNote(s1, r, rest);
      var s' := Run(s1, Deliveries(s.written, r, rest));
      assert Run(s, Deliveries(s.written, r, order)) == s' by {
        assert Deliveries(s.written, r, order)[1..] == Deliveries(s.written, r, rest);
      }
      forall i | 0 <= i < |order| && Takes(s, r, order[i])
        ensures Noted(s'.readers[r].tracker, s.readers[r].anchor, order[i])
      {
        if i > 0 {
          assert order[i] == rest[i - 1];
          StillTakes(s, s1, r, rest[i - 1]);
        }
      }
    }
  }

  /** What later states of a reader keep of earlier ones. */
  ghost predicate Forward(x: Reader, x': Reader)
  {
    && x'.tracker.initDone && x'.anchor == x.anchor && x.tracker.expected <= x'.tracker.expected
    && forall k :: Noted(x.tracker, x.anchor, k) ==> Noted(x'.tracker, x.anchor, k)
  }

  /** The reader's tracker will take number `k`, whose DATA is in flight. */
  predicate Takes(s: System, r: nat, k: nat)
    requires r in s.readers && Stored(s.written, k) && |s.written| <= U64_MAX
  {
    && s.readers[r].anchor <= k <= s.readers[r].tracker.expected + MAX_REORDER_AHEAD
    && Data(k, s.written[k - 1]) in s.net
  }

  lemma StillTakes(s: System, s1: System, r: nat, k: nat)
    requires r in s.readers && r in s1.readers && Stored(s.written, k) && |s.written| <= U64_MAX && Takes(s, r, k)
    requires s1.written == s.written && s.net <= s1.net && Forward(s.readers[r], s1.readers[r])
    ensures Takes(s1, r, k)
  {
  }

  /** One delivery. */
  lemma DeliveryNotes(s: System, r: nat, k: nat)
    requires SystemInv(s) && r in s.readers && s.readers[r].tracker.initDone && Stored(s.written, k)
    ensures var s1 := Apply(s, DeliverData(r, Data(k, s.written[k - 1])));
      && SystemInv(s1) && s1.written == s.written && s.net <= s1.net && r in s1.readers
      && Forward(s.readers[r], s1.readers[r])
      && (Takes(s, r, k) ==> Noted(s1.readers[r].tracker, s.readers[r].anchor, k))
  {
    ApplyKeepsInv(s, DeliverData(r, Data(k, s.written[k - 1])));
    if Data(k, s.written[k - 1]) in s.net {
      ReceiveDataNotes(s.readers[r], k, |s.written|);
    }
  }

  lemma ReceiveDataNotes(x: Reader, sn: U64, n: nat)
    requires ReaderInv(x, n) && x.tracker.initDone && 1 <= sn <= n < U64_MAX
    ensures var x' := ReceiveData(x, sn);
      && x.tracker.expected <= x'.tracker.expected
      && forall k :: Noted(x'.tracker, x.anchor, k) <==>
           Noted(x.tracker, x.anchor, k) || (k == sn && x.anchor <= sn <= x.tracker.expected + MAX_REORDER_AHEAD)
  {
    RecordExact(x.tracker, sn, x.anchor);
    assert !Noted(x.tracker, x.anchor, U64_MAX);
    assert U64_MAX !in x.tracker.ahead + {sn};
  }

  /** The first three events of a round leave every requested number in flight. */
  lemma RoundOpens(s: System, r: nat, order: seq<nat>)
    requires SystemInv(s) && SizedFor(s, r) && AllStored(s.written, order) && s.readers[r].tracker.initDone
    requires First(|s.written|) <= s.readers[r].tracker.expected && |s.written| > 0
    ensures var s3 := Run(s, Round(s, r, order)[..3]);
      && SystemInv(s3) && s3.written == s.written && s3.readers == s.readers
      && forall sn :: Requested(s.readers[r].tracker, |s.written|, sn) ==> Data(sn, s.written[sn - 1]) in s3.net
  {
    RunThree(s, Round(s, r, order)[..3]);
    OpeningAsks(s, r);
  }

  lemma OpeningKeeps(s: System, r: nat)
    requires SystemInv(s) && SizedFor(s, r) && s.readers[r].tracker.initDone && |s.written| > 0
    ensures var n, t := |s.written|, s.readers[r].tracker;
      var s2 := Apply(Apply(s, Tick), DeliverHeartbeat(r, HeartbeatNow(n)));
      var s3 := Apply(s2, DeliverAckNack(AckNack(r, t.expected, RequestBits(t, n))));
      SystemInv(s3) && s3.written == s.written && s3.readers == s.readers
  {
    var n, t := |s.written|, s.readers[r].tracker;
    var s1 := Apply(s, Tick);
    var s2 := Apply(s1, DeliverHeartbeat(r, HeartbeatNow(n)));
    HeartbeatIsAnswered(s, r);
    ApplyKeepsInv(s, Tick);
    ApplyKeepsInv(s1, DeliverHeartbeat(r, HeartbeatNow(n)));
    ApplyKeepsInv(s2, DeliverAckNack(AckNack(r, t.expected, RequestBits(t, n))));
  }

  lemma OpeningAsks(s: System, r: nat)
    requires SystemInv(s) && SizedFor(s, r) && s.readers[r].tracker.initDone
    requires First(|s.written|) <= s.readers[r].tracker.expected && |s.written| > 0
    ensures var n, t := |s.written|, s.readers[r].tracker;
      var s2 := Apply(Apply(s, Tick), DeliverHeartbeat(r, HeartbeatNow(n)));
      var s3 := Apply(s2, DeliverAckNack(AckNack(r, t.expected, RequestBits(t, n))));
      && SystemInv(s3) && s3.written == s.written && s3.readers == s.readers
      && forall sn :: Requested(t, n, sn) ==> Data(sn, s.written[sn - 1]) in s3.net
  {
    var n, t := |s.written|, s.readers[r].tracker;
    var s2 := Apply(Apply(s, Tick), DeliverHeartbeat(r, HeartbeatNow(n)));
    HeartbeatIsAnswered(s, r);
    OpeningKeeps(s, r);
    forall sn | Requested(t, n, sn)
      ensures Data(sn, s.written[sn - 1]) in Apply(s2, DeliverAckNack(AckNack(r, t.expected, RequestBits(t, n)))).net
    {
      RequestedIsSent(s, s2, r, sn);
    }
  }

  /** The HEARTBEAT leaves an initialised reader as it is and draws its ACKNACK. */
  lemma HeartbeatIsAnswered(s: System, r: nat)
    requires SystemInv(s) && r in s.readers && s.readers[r].tracker.initDone && |s.written| > 0
    ensures var n, t := |s.written|, s.readers[r].tracker;
      var s2 := Apply(Apply(s, Tick), DeliverHeartbeat(r, HeartbeatNow(n)));
      && s2.written == s.written && s2.readers == s.readers
      && (t.expected <= n ==> AckNack(r, t.expected, RequestBits(t, n)) in s2.net)
  {
    var s1 := Apply(s, Tick);
    assert HeartbeatNow(|s.written|) in s1.net && s1.readers == s.readers;
    assert s.readers[r := s.readers[r]] == s.readers;
  }

  /** While the history still holds the reader's watermark, one loss-free round moves it
      past the whole requested window. */
  lemma RoundRecovers(s: System, r: nat, order: seq<nat>)
    requires SystemInv(s) && LossFree(s, r, order) && s.readers[r].tracker.initDone
    requires First(|s.written|) <= s.readers[r].tracker.expected && |s.written| > 0
    ensures var s', e := Run(s, Round(s, r, order)), s.readers[r].tracker.expected;
      && SystemInv(s') && s'.written == s.written && r in s'.readers && s'.readers[r].tracker.initDone
      && e <= s'.readers[r].tracker.expected
      && (|s.written| < s'.readers[r].tracker.expected || e + 31 < s'.readers[r].tracker.expected)
  {
    var es := Round(s, r, order);
    var s3 := Run(s, es[..3]);
    RoundOpens(s, r, order);
    assert es == es[..3] + es[3..] && es[3..] == Deliveries(s.written, r, order);
    RunAppend(s, es[..3], es[3..]);
    RunKeepsInv(s, es);
    DeliveriesNote(s3, r, order);
    WindowIsNoted(s, r, order, s3, Run(s, es).readers[r]);
  }

  lemma WindowIsNoted(s: System, r: nat, order: seq<nat>, s3: System, x': Reader)
    requires SystemInv(s) && LossFree(s, r, order) && s.readers[r].tracker.initDone
    requires s3.written == s.written && s3.readers == s.readers
    requires First(|s.written|) <= s.readers[r].tracker.expected
    requires forall sn :: Requested(s.readers[r].tracker, |s.written|, sn) ==> Data(sn, s.written[sn - 1]) in s3.net
    requires Inv(x'.tracker) && x'.anchor <= x'.tracker.expected && Forward(s.readers[r], x')
    requires forall i :: 0 <= i < |order| && Takes(s3, r, order[i]) ==> Noted(x'.tracker, x'.anchor, order[i])
    ensures |s.written| < x'.tracker.expected || s.readers[r].tracker.expected + 31 < x'.tracker.expected
  {
    var t, e := s.readers[r].tracker, x'.tracker.expected;
    assert !Noted(x'.tracker, x'.anchor, e);
    if e <= |s.written| && e <= t.expected + 31 {
      assert !Noted(t, x'.anchor, e);
      assert Requested(t, |s.written|, e);
    }
  }

  lemma RunThree(s: System, es: seq<Event>)
    requires Sized(s) && |es| == 3
    ensures Run(s, es) == Apply(Apply(Apply(s, es[0]), es[1]), es[2])
  {
    assert es[1..][1..] == es[2..] && es[2..][1..] == [];
    var s1 := Apply(s, es[0]);
    var s2 := Apply(s1, es[1]);
    assert Run(s, es) == Run(s1, es[1..]);
    assert Run(s1, es[1..]) == Run(s2, es[2..]);
    assert Run(s2, es[2..]) == Apply(s2, es[2]);
  }

  /** A requested number that is still retained is in flight after the ACKNACK was handled. */
  lemma RequestedIsSent(s: System, s2: System, r: nat, sn: nat)
    requires SizedFor(s, r) && Sized(s2) && s2.written == s.written && Inv(s.readers[r].tracker)
    requires s.readers[r].tracker.initDone && Requested(s.readers[r].tracker, |s.written|, sn)
    requires First(|s.written|) <= sn
    requires AckNack(r, s.readers[r].tracker.expected, RequestBits(s.readers[r].tracker, |s.written|)) in s2.net
    ensures var t := s.readers[r].tracker;
      Data(sn, s.written[sn - 1]) in Apply(s2, DeliverAckNack(AckNack(r, t.expected, RequestBits(t, |s.written|)))).net
  {
    var t := s.readers[r].tracker;
    var bits := RequestBits(t, |s.written|);
    assert bits[sn - t.expected];
    RequestsAnswered(s.written, t.expected, bits, sn - t.expected);
  }

  /** Successive loss-free rounds, each in its own order of arrival. */
  ghost predicate LossFreeRounds(s: System, r: nat, orders: seq<seq<nat>>)
    decreases |orders|
  {
    orders == [] ||
    (|s.written| > 0 && LossFree(s, r, orders[0]) && LossFreeRounds(Run(s, Round(s, r, orders[0])), r, orders[1..]))
  }

  function RunRounds(s: System, r: nat, orders: seq<seq<nat>>): System
    requires LossFreeRounds(s, r, orders)
    decreases |orders|
  {
    if orders == [] then s else RunRounds(Run(s, Round(s, r, orders[0])), r, orders[1..])
  }

  /** A gap of any size is recovered in one round per 32 numbers, rounded up. */
  lemma {:induction false} Recovery(s: System, r: nat, orders: seq<seq<nat>>)
    requires SystemInv(s) && LossFreeRounds(s, r, orders)
    requires r in s.readers && s.readers[r].tracker.initDone && |s.written| > 0
    requires First(|s.written|) <= s.readers[r].tracker.expected
    requires 32 * |orders| >= |s.written| + 1 - s.readers[r].tracker.expected
    ensures var s' := RunRounds(s, r, orders);
      && r in s'.readers && s'.written == s.written
      && s'.readers[r].tracker.expected == |s.written| + 1
      && forall k :: s'.readers[r].anchor <= k <= |s.written| ==> k in s'.readers[r].got
    decreases |orders|
  {
    if orders == [] {
      assert forall k :: s.readers[r].anchor <= k <= |s.written| ==>
        Noted(s.readers[r].tracker, s.readers[r].anchor, k);
    } else {
      RoundRecovers(s, r, orders[0]);
      Recovery(Run(s, Round(s, r, orders[0])), r, orders[1..]);
    }
  }

  // ------------------------------------------------------------------ evicted numbers

  /** Only numbers that the history still holds arrive. */
  predicate OnlyRetained(written: seq<Message>, order: seq<nat>)
  {
    forall i :: 0 <= i < |order| ==> StillRetained(written, order[i])
  }

  /** Numbers beyond the watermark do not move it. */
  lemma {:induction false} DeliveriesStall(s: System, r: nat, order: seq<nat>)
    requires SystemInv(s) && r in s.readers && s.readers[r].tracker.initDone && AllStored(s.written, order)
    requires forall i :: 0 <= i < |order| ==> s.readers[r].tracker.expected < order[i]
    ensures var s' := Run(s, Deliveries(s.written, r, order));
      && SystemInv(s') && s'.written == s.written && r in s'.readers && s'.readers[r].tracker.initDone
      && s'.readers[r].tracker.expected == s.readers[r].tracker.expected
    decreases |order|
  {
    if order != [] {
      var e, rest := DeliverData(r, Data(order[0], s.written[order[0] - 1])), order[1..];
      var s1 := Apply(s, e);
      ApplyKeepsInv(s, e);
      assert Deliveries(s.written, r, order)[1..] == Deliveries(s.written, r, rest);
      DeliveriesStall(s1, r, rest);
    }
  }

  /** Once the watermark is evicted, a round leaves it where it was, even one in which every
      retained number that was requested arrives. */
  lemma RoundStalls(s: System, r: nat, order: seq<nat>)
    requires SystemInv(s) && LossFree(s, r, order) && s.readers[r].tracker.initDone && |s.written| > 0
    requires OnlyRetained(s.written, order) && s.readers[r].tracker.expected < First(|s.written|)
    ensures var s' := Run(s, Round(s, r, order));
      && SystemInv(s') && s'.written == s.written && r in s'.readers && s'.readers[r].tracker.initDone
      && s'.readers[r].tracker.expected == s.readers[r].tracker.expected
  {
    var es := Round(s, r, order);
    RunThree(s, es[..3]);
    OpeningKeeps(s, r);
    assert es == es[..3] + es[3..] && es[3..] == Deliveries(s.written, r, order);
    RunAppend(s, es[..3], es[3..]);
    DeliveriesStall(Run(s, es[..3]), r, order);
  }

  /** All numbers from `a` to `b`. */
  function Range(a: nat, b: nat): (order: seq<nat>)
    ensures forall k :: k in order <==> a <= k <= b
    decreases b + 1 - a
  {
    if a > b then [] else [a] + Range(a + 1, b)
  }

  /** Rounds in which exactly the retained numbers arrive, all of them each time. */
  function RetainedRounds(n: nat, k: nat): (orders: seq<seq<nat>>)
    requires 0 < n
    ensures |orders| == k && forall j :: 0 <= j < k ==> orders[j] == Range(First(n), n)
  {
    if k == 0 then [] else [Range(First(n), n)] + RetainedRounds(n, k - 1)
  }

  lemma RetainedRound(s: System, r: nat)
    requires SizedFor(s, r) && |s.written| > 0
    ensures var order := Range(First(|s.written|), |s.written|); LossFree(s, r, order) && OnlyRetained(s.written, order)
  {
    var order := Range(First(|s.written|), |s.written|);
    forall i | 0 <= i < |order| ensures StillRetained(s.written, order[i]) { assert order[i] in order; }
  }

  /** They lose nothing, and leave an evicted watermark where it was. */
  lemma {:induction false} RetainedRoundsStall(s: System, r: nat, k: nat)
    requires SystemInv(s) && SizedFor(s, r) && s.readers[r].tracker.initDone
    requires |s.written| > 0 && s.readers[r].tracker.expected < First(|s.written|)
    ensures var orders := RetainedRounds(|s.written|, k);
      && LossFreeRounds(s, r, orders)
      && r in RunRounds(s, r, orders).readers
      && RunRounds(s, r, orders).readers[r].tracker.expected == s.readers[r].tracker.expected
    decreases k
  {
    if k > 0 {
      var orders, order := RetainedRounds(|s.written|, k), Range(First(|s.written|), |s.written|);
      assert orders[0] == order && orders[1..] == RetainedRounds(|s.written|, k - 1);
      RetainedRound(s, r);
      RoundStalls(s, r, order);
      RetainedRoundsStall(Run(s, Round(s, r, order)), r, k - 1);
    }
  }

  ghost predicate Recovers(s: System, r: nat, orders: seq<seq<nat>>)
    requires LossFreeRounds(s, r, orders)
  {
    var s' := RunRounds(s, r, orders);
    r in s'.readers && s'.readers[r].tracker.expected == |s.written| + 1
  }

  /** Enough rounds without loss recover the reader, whatever else arrives in them, if and only
      if the history still holds its watermark; the GAPs that the writer sends do not help. */
  lemma RecoveryExact(s: System, r: nat, k: nat)
    requires SystemInv(s) && SizedFor(s, r) && s.readers[r].tracker.initDone
    requires |s.written| > 0 && 32 * k >= |s.written| + 1 - s.readers[r].tracker.expected
    ensures First(|s.written|) <= s.readers[r].tracker.expected <==>
      forall orders :: |orders| == k && LossFreeRounds(s, r, orders) ==> Recovers(s, r, orders)
  {
    if First(|s.written|) <= s.readers[r].tracker.expected {
      forall orders | |orders| == k && LossFreeRounds(s, r, orders) ensures Recovers(s, r, orders) {
        Recovery(s, r, orders);
      }
    } else {
      RetainedRoundsStall(s, r, k);
      assert !Recovers(s, r, RetainedRounds(|s.written|, k));
    }
  }

  /** What does help is the evicted number itself: a DATA that is still in flight moves the
      watermark past it. */
  lemma LateDataHelps(s: System, r: nat)
    requires SystemInv(s) && SizedFor(s, r) && s.readers[r].tracker.initDone
    requires var e := s.readers[r].tracker.expected; Stored(s.written, e) && Data(e, s.written[e - 1]) in s.net
    ensures var e := s.readers[r].tracker.expected;
      var s' := Apply(s, DeliverData(r, Data(e, s.written[e - 1])));
      r in s'.readers && s'.readers[r].tracker.expected > e
  {
    DeliveryNotes(s, r, s.readers[r].tracker.expected);
  }

  // ---------------------------------------------------------------- late joiners

  /** A reader that the writer's current HEARTBEAT reaches first begins at the oldest number
      that can still be had. */
  lemma FreshReaderBegins(s: System, r: nat)
    requires SystemInv(s) && SizedFor(s, r) && s.readers[r].tracker == FRESH_TRACKER && |s.written| > 0
    requires HeartbeatNow(|s.written|) in s.net
    ensures var s' := Apply(s, DeliverHeartbeat(r, HeartbeatNow(|s.written|)));
      && SystemInv(s') && s'.written == s.written && SizedFor(s', r) && s'.readers[r].tracker.initDone
      && s'.readers[r].anchor == s'.readers[r].tracker.expected
      && StillRetained(s.written, s'.readers[r].tracker.expected)
      && forall k :: StillRetained(s.written, k) ==> s'.readers[r].anchor <= k
  {
    ApplyKeepsInv(s, DeliverHeartbeat(r, HeartbeatNow(|s.written|)));
    HeartbeatExact(s.written);
    FirstContact(HeartbeatNow(|s.written|).first);
  }

  /** And enough rounds without loss bring it every retained number. */
  lemma FreshReaderRecovers(s: System, r: nat, orders: seq<seq<nat>>)
    requires SystemInv(s) && SizedFor(s, r) && s.readers[r].tracker == FRESH_TRACKER && |s.written| > 0
    requires HeartbeatNow(|s.written|) in s.net
    requires LossFreeRounds(Apply(s, DeliverHeartbeat(r, HeartbeatNow(|s.written|))), r, orders) && |orders| >= 8
    ensures var s' := RunRounds(Apply(s, DeliverHeartbeat(r, HeartbeatNow(|s.written|))), r, orders);
      r in s'.readers && forall k :: StillRetained(s.written, k) ==> k in s'.readers[r].got
  {
    var s1 := Apply(s, DeliverHeartbeat(r, HeartbeatNow(|s.written|)));
    FreshReaderBegins(s, r);
    RetainedWindow(s.written, s1.readers[r].tracker.expected);
    Recovery(s1, r, orders);
    RoundsKeepAnchor(s1, r, orders);
  }

  lemma {:induction false} RoundsKeepAnchor(s: System, r: nat, orders: seq<seq<nat>>)
    requires SystemInv(s) && LossFreeRounds(s, r, orders) && r in s.readers && s.readers[r].tracker.initDone
    ensures var s' := RunRounds(s, r, orders); r in s'.readers && s'.readers[r].anchor == s.readers[r].anchor
    decreases |orders|
  {
    if orders != [] {
      var es := Round(s, r, orders[0]);
      RunKeepsInv(s, es);
      RunKeepsAnchor(s, r, es);
      RoundsKeepAnchor(Run(s, es), r, orders[1..]);
    }
  }

  lemma {:induction false} RunKeepsAnchor(s: System, r: nat, es: seq<Event>)
    requires SystemInv(s) && r in s.readers && s.readers[r].tracker.initDone
    ensures var s' := Run(s, es);
      r in s'.readers && s'.readers[r].tracker.initDone && s'.readers[r].anchor == s.readers[r].anchor
    decreases |es|
  {
    if es != [] {
      ApplyKeepsInv(s, es[0]);
      RunKeepsAnchor(Apply(s, es[0]), r, es[1..]);
    }
  }

  // ------------------------------------------------------------ the drain watermark

  /** In every run the drain watermark is the largest number that an ACKNACK delivered in it
      acknowledges, or what it was. */
  lemma {:induction false} AckedIsLargest(s: System, es: seq<Event>)
    requires Sized(s)
    ensures var s' := Run(s, es);
      && s.acked <= s'.acked
      && (s'.acked == s.acked || exists i :: 0 <= i < |es| && AckedBy(Run(s, es[..i]), es[i], s'.acked))
      && forall i, a: nat :: 0 <= i < |es| && AckedBy(Run(s, es[..i]), es[i], a) ==> a <= s'.acked
    decreases |es|
  {
    if es != [] {
      var n := |es| - 1;
      var front, e := es[..n], es[n];
      AckedIsLargest(s, front);
      RunAppend(s, front, [e]);
      assert es == front + [e] && [e][1..] == [];
      var t := Run(s, front);
      assert Run(s, es) == Apply(t, e);
      if e.DeliverAckNack? && Enabled(t, e) { AckedIsMaximum(t.acked, e.acknack.base); }
      forall i | 0 <= i < n ensures es[..i] == front[..i] && es[i] == front[i] { }
    }
  }

  /** The event delivers an ACKNACK that acknowledges everything up to `a`. */
  ghost predicate AckedBy(s: System, e: Event, a: nat)
  {
    Enabled(s, e) && e.DeliverAckNack? && e.acknack.base == a + 1
  }
}
