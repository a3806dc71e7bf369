/** The reader's record of what arrived from one writer: a cumulative watermark and a
    bounded set of numbers received ahead of it. */
module RecvTracker {
  import opened Wire

  const MAX_REORDER_AHEAD: nat := 8192

  datatype Tracker = Tracker(initDone: bool, expected: U64, ahead: set<U64>)

  const FRESH_TRACKER := Tracker(false, 0, {})

  function Anchored(t: Tracker, first: U64): Tracker
  {
    if t.initDone then t else Tracker(true, first, t.ahead)
  }

  /** The watermark and the remaining buffer after consuming buffered successors. */
  function Advance(e: U64, ahead: set<U64>): (U64, set<U64>)
    decreases |ahead|
  {
    if e in ahead then Advance(NextU64(e), ahead - {e}) else (e, ahead)
  }

  function Recorded(t: Tracker, n: U64): Tracker
  {
    var s := Anchored(t, n);
    if n < s.expected then s
    else if n == s.expected then
      var (e, ahead) := Advance(NextU64(n), s.ahead);
      Tracker(true, e, ahead)
    else if n in s.ahead || n - s.expected > MAX_REORDER_AHEAD then s
    else s.(ahead := s.ahead + {n})
  }

  predicate IsNew(t: Tracker, n: U64)
  {
    !t.initDone || (n >= t.expected && n !in t.ahead)
  }

  /** The ACKNACK bitmap. The upper end expected+31 is computed in 64 bits: where it
      wraps, the window is empty. */
  function RequestBits(t: Tracker, last: U64): (b: Bits)
    ensures |b| == 32
  {
    seq(32, k requires 0 <= k < 32 =>
      t.initDone && t.expected + 31 <= U64_MAX && t.expected + k <= last && t.expected + k !in t.ahead)
  }

  predicate NeedsAck(t: Tracker, last: U64)
  {
    t.initDone && t.expected + 31 <= U64_MAX && t.expected <= last
  }

  /** The last number of the loop that fills the bitmap, computed in 64 bits. */
  function WindowEnd(base: U64, last: U64): U64
  {
    var top := (base + 31) % (U64_MAX + 1);
    if last > top then top else last
  }

  /** The loop's counter after `k` turns. */
  function CounterAfter(base: U64, k: nat): U64
  {
    if k == 0 then base else NextU64(CounterAfter(base, k - 1))
  }

  /** The window and the writer's history both end at the last 64-bit number. */
  predicate Unending(base: U64, last: U64)
  {
    base + 31 == U64_MAX && last == U64_MAX
  }

  lemma {:induction false} CounterIs(base: U64, k: nat)
    requires base + k <= U64_MAX
    ensures CounterAfter(base, k) == base + k
  {
    if k > 0 { CounterIs(base, k - 1); }
  }

  /** That is exactly when the loop does not end: its counter never passes the last number. */
  lemma LoopEndsExact(base: U64, last: U64)
    requires base <= last
    ensures (exists k :: CounterAfter(base, k) > WindowEnd(base, last)) <==> !Unending(base, last)
  {
    var end := WindowEnd(base, last);
    if !Unending(base, last) {
      var k := if end < base then 0 else end + 1 - base;
      CounterIs(base, k);
      assert CounterAfter(base, k) > end;
    }
  }

  predicate Inv(t: Tracker)
  {
    && (!t.initDone ==> t.ahead == {})
    && forall n <- t.ahead :: t.expected < n <= t.expected + MAX_REORDER_AHEAD
  }

  class RecvTracker {
    var expected: U64
    var ahead: set<U64>
    var initDone: bool

    ghost function View(): Tracker
      reads this
    {
      Tracker(initDone, expected, ahead)
    }

    constructor ()
      ensures View() == FRESH_TRACKER
    {
      expected, ahead, initDone := 0, {}, false;
    }

    method InitExpected(first: U64)
      modifies this
      ensures View() == Anchored(old(View()), first)
    {
      if !initDone {
        expected := first;
        initDone := true;
      }
    }

    method Record(n: U64) returns (isNew: bool)
      requires Inv(View())
      modifies this
      ensures Inv(View())
      ensures View() == Recorded(old(View()), n)
      ensures isNew == IsNew(old(View()), n)
    {
      RecordKeepsInv(View(), n);
      if !initDone {
        expected := n;
        initDone := true;
      }
      if n < expected {
        return false;
      }
      if n == expected {
        expected := NextU64(expected);
        while expected in ahead
          invariant initDone
          invariant Advance(expected, ahead) == Advance(NextU64(n), old(ahead))
          decreases |ahead|
        {
          ahead := ahead - {expected};
          expected := NextU64(expected);
        }
        return true;
      }
      if n in ahead {
        return false;
      }
      if n - expected <= MAX_REORDER_AHEAD {
        ahead := ahead + {n};
      }
      return true;
    }

    /** The one state excluded, a window that ends exactly at the last 64-bit number, is
        the one on which the source's loop `sn <= end` never ends. */
    method Missing(last: U64) returns (base: U64, bitmap: Word32, needAck: bool)
      requires Inv(View())
      requires !(initDone && Unending(expected, last))
      ensures base == if initDone then expected else 0
      ensures bitmap == RequestBits(View(), last)
      ensures needAck == NeedsAck(View(), last) && needAck == (true in bitmap)
    {
      bitmap, needAck := Zeros(32), false;
      if !initDone {
        return 0, bitmap, false;
      }
      base := expected;
      if last < base {
        return base, bitmap, false;
      }
      var end := last;
      var top := (base + 31) % (U64_MAX + 1);
      if end > top {
        end := top;
      }
      var n := base;
      while n <= end
        invariant base <= n && (end < base ==> n == base) && (base <= end ==> n <= end + 1)
        invariant forall k :: 0 <= k < 32 ==> bitmap[k] == (base + k < n && base + k !in ahead)
        invariant needAck == (base < n)
        decreases end + 1 - n
      {
        if n !in ahead {
          bitmap := bitmap[n - base := true];
          needAck := true;
        }
        n := NextU64(n);
      }
      assert needAck ==> bitmap[0];
    }
  }

  // ------------------------------------------- what the state means, in any run

  /** Every number from `e` to the last 64-bit one is buffered. */
  ghost predicate Exhausted(e: U64, ahead: set<U64>)
  {
    forall n: U64 :: e <= n ==> n in ahead
  }

  /** Advancing stops at the first number not buffered, or consumes every number up to
      the last 64-bit one and wraps. */
  lemma {:induction false} AdvanceSpec(e: U64, ahead: set<U64>)
    requires forall n <- ahead :: e <= n
    ensures var (e', rest) := Advance(e, ahead);
      if Exhausted(e, ahead) then e' == 0 && rest == {}
      else e <= e' && e' !in ahead && (forall n: U64 :: e <= n < e' ==> n in ahead) && rest == set n <- ahead | e' < n
    decreases |ahead|
  {
    if e in ahead {
      var ahead' := ahead - {e};
      if e == U64_MAX {
        assert ahead' == {};
        assert Exhausted(e, ahead);
      } else {
        AdvanceSpec(e + 1, ahead');
        if Exhausted(e + 1, ahead') {
          forall n: U64 | e <= n ensures n in ahead { assert n == e || n in ahead'; }
        } else {
          var n: U64 :| e + 1 <= n && n !in ahead';
          assert n !in ahead;
          var (e', rest) := Advance(e + 1, ahead');
          forall n: U64 | e <= n < e' ensures n in ahead { assert n == e || n in ahead'; }
          assert rest == set n <- ahead | e' < n;
        }
      }
    } else {
      assert ahead == set n <- ahead | e < n;
    }
  }

  lemma RecordKeepsInv(t: Tracker, n: U64)
    requires Inv(t)
    ensures Inv(Recorded(t, n))
  {
    var s := Anchored(t, n);
    if n == s.expected && n < U64_MAX {
      AdvanceSpec(n + 1, s.ahead);
    } else if n == s.expected {
      assert s.ahead == {};
    }
  }

  /** The tracker has taken note of the arrival of `n`. */
  predicate Noted(t: Tracker, anchor: U64, n: nat)
  {
    anchor <= n < t.expected || n in t.ahead
  }

  /** The watermark is the least number from the anchor on that has not been noted, the
      buffer holds every noted number beyond it, and the buffer is bounded. */
  lemma WatermarkIsLeastMissing(t: Tracker, anchor: U64)
    requires t.initDone && Inv(t) && anchor <= t.expected
    ensures !Noted(t, anchor, t.expected) && forall n :: anchor <= n < t.expected ==> Noted(t, anchor, n)
    ensures forall n :: n in t.ahead <==> Noted(t, anchor, n) && t.expected < n
    ensures |t.ahead| <= 8192
  {
    var window := Interval(t.expected + 1, t.expected + 1 + MAX_REORDER_AHEAD);
    assert forall n <- t.ahead :: n in window;
    SubsetSize(t.ahead, window);
  }

  /** Recording adds the number to the contents exactly when it lies in the reorder
      window, reports it new exactly when it was absent, and moves the watermark to the
      new least missing number; this fails only when the 64-bit range is exhausted, and
      then the watermark restarts at zero. */
  lemma RecordExact(t: Tracker, n: U64, anchor: U64)
    requires t.initDone && Inv(t) && anchor <= t.expected
    ensures var t' := Recorded(t, n);
      if Exhausted(t.expected, t.ahead + {n}) then t' == Tracker(true, 0, {})
      else
        && anchor <= t.expected <= t'.expected && t'.initDone && Inv(t')
        && forall x :: Noted(t', anchor, x) <==>
             Noted(t, anchor, x) || (x == n && anchor <= n <= t.expected + 8192)
    ensures IsNew(t, n) <==> anchor <= n && !Noted(t, anchor, n)
  {
    RecordKeepsInv(t, n);
    if n < t.expected {
      BelowWatermarkMissing(t, n);
    } else if n == t.expected {
      RecordAtWatermark(t, anchor);
    } else {
      BelowWatermarkMissing(t, n);
    }
  }

  /** The first number that a fresh tracker records is new and everything before it counts as
      received; a HEARTBEAT instead puts the watermark at its first number. */
  lemma FirstContact(n: U64)
    ensures IsNew(FRESH_TRACKER, n)
    ensures Recorded(FRESH_TRACKER, n) == Tracker(true, if n == U64_MAX then 0 else n + 1, {})
    ensures Anchored(FRESH_TRACKER, n) == Tracker(true, n, {})
  {
  }

  lemma BelowWatermarkMissing(t: Tracker, n: U64)
    requires Inv(t) && n != t.expected
    ensures !Exhausted(t.expected, t.ahead + {n})
  {
    assert t.expected !in t.ahead + {n};
  }

  lemma RecordAtWatermark(t: Tracker, anchor: U64)
    requires t.initDone && Inv(t) && anchor <= t.expected
    ensures var t' := Recorded(t, t.expected);
      if Exhausted(t.expected, t.ahead + {t.expected}) then t' == Tracker(true, 0, {})
      else t.expected < t'.expected && forall x :: Noted(t', anchor, x) <==> Noted(t, anchor, x) || x == t.expected
  {
    var n := t.expected;
    if n == U64_MAX {
      assert t.ahead == {};
      assert Exhausted(n, t.ahead + {n});
    } else {
      AdvanceSpec(n + 1, t.ahead);
      ExhaustedStep(n, t.ahead);
      if !Exhausted(n + 1, t.ahead) {
        NotedAfterAdvance(t, Recorded(t, n), anchor);
      }
    }
  }

  lemma ExhaustedStep(n: U64, ahead: set<U64>)
    requires n < U64_MAX
    ensures Exhausted(n, ahead + {n}) <==> Exhausted(n + 1, ahead)
  {
    if Exhausted(n + 1, ahead) {
      forall x: U64 | n <= x ensures x in ahead + {n} { assert x == n || x in ahead; }
    } else {
      var x: U64 :| n + 1 <= x && x !in ahead;
      assert x !in ahead + {n};
    }
  }

  lemma NotedAfterAdvance(t: Tracker, t': Tracker, anchor: U64)
    requires Inv(t) && anchor <= t.expected < t'.expected
    requires forall n: U64 :: t.expected + 1 <= n < t'.expected ==> n in t.ahead
    requires t'.expected !in t.ahead && t'.ahead == set n <- t.ahead | t'.expected < n
    ensures forall x :: Noted(t', anchor, x) <==> Noted(t, anchor, x) || x == t.expected
  {
    forall x: nat ensures Noted(t', anchor, x) <==> Noted(t, anchor, x) || x == t.expected {
      if t.expected + 1 <= x < t'.expected { assert x in t.ahead; }
    }
  }

  // ------------------------------------------------------------ order of arrival

  function RecordAll(t: Tracker, ns: seq<U64>): Tracker
  {
    if ns == [] then t else Recorded(RecordAll(t, ns[..|ns| - 1]), ns[|ns| - 1])
  }

  ghost predicate WithinReach(anchor: U64, ns: seq<U64>)
  {
    anchor + MAX_REORDER_AHEAD < U64_MAX && forall n <- ns :: anchor <= n <= anchor + MAX_REORDER_AHEAD
  }

  /** Numbers within reach of the anchor are all retained, whatever the order. */
  lemma {:induction false} RecordAllExact(anchor: U64, ns: seq<U64>)
    requires WithinReach(anchor, ns)
    ensures var t := RecordAll(Tracker(true, anchor, {}), ns);
      && t.initDone && Inv(t) && anchor <= t.expected
      && forall n :: Noted(t, anchor, n) <==> n in ns
  {
    if ns != [] {
      var k := |ns| - 1;
      assert forall n <- ns[..k] :: n in ns;
      RecordAllExact(anchor, ns[..k]);
      var t := RecordAll(Tracker(true, anchor, {}), ns[..k]);
      RecordExact(t, ns[k], anchor);
      assert !Noted(t, anchor, U64_MAX);
      assert ns[k] in ns;
      assert U64_MAX !in t.ahead + {ns[k]};
      assert ns == ns[..k] + [ns[k]];
    }
  }

  /** The final state depends on which numbers arrived, not on their order or their
      repetitions. */
  lemma ArrivalOrderIrrelevant(anchor: U64, ns: seq<U64>, ms: seq<U64>)
    requires WithinReach(anchor, ns)
    requires forall n :: n in ns <==> n in ms
    ensures RecordAll(Tracker(true, anchor, {}), ns) == RecordAll(Tracker(true, anchor, {}), ms)
  {
    RecordAllExact(anchor, ns);
    RecordAllExact(anchor, ms);
    var s, t := RecordAll(Tracker(true, anchor, {}), ns), RecordAll(Tracker(true, anchor, {}), ms);
    WatermarkIsLeastMissing(s, anchor);
    WatermarkIsLeastMissing(t, anchor);
    assert forall n :: Noted(s, anchor, n) <==> Noted(t, anchor, n);
    assert s.expected == t.expected;
    assert s.ahead == t.ahead;
  }
}
