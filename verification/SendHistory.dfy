/** The writer's retransmission store: a 256-slot ring addressed by sequence number. */
module SendHistory {
  import opened Wire

  type Message = Bytes

  const DEPTH: nat := 256

  /** The messages a history of `DEPTH` slots still holds: those of the last `DEPTH`
      sequence numbers up to `newest`. */
  function Retained(log: map<nat, Message>, newest: nat): map<nat, Message>
  {
    map s | s in log && newest < s + DEPTH :: log[s]
  }

  function Lookup(log: map<nat, Message>, s: nat): Option<Message>
  {
    if s in log then Some(log[s]) else None
  }

  /** The lowest number a history that began at `start` advertises. */
  function Oldest(start: nat, newest: nat): nat
  {
    if newest >= start + DEPTH then newest - DEPTH + 1 else start
  }

  /** What is held are the entries of the last 256 numbers, and of a record without holes the
      lowest number advertised is the first of them. */
  lemma RetainedExact(log: map<nat, Message>, start: nat, newest: nat, s: nat)
    requires forall k :: k in log <==> start <= k <= newest
    ensures s in Retained(log, newest) <==> s in log && newest - s < 256
    ensures s in Retained(log, newest) ==> Retained(log, newest)[s] == log[s]
    ensures start <= newest ==> (s in Retained(log, newest) <==> Oldest(start, newest) <= s <= newest)
    ensures Lookup(log, s) == if s in log then Some(log[s]) else None
  {
  }

  lemma SameSlot(a: nat, b: nat)
    requires a % DEPTH == b % DEPTH && a <= b < a + DEPTH
    ensures a == b
  {
  }

  class SendHistory {
    /** Everything ever stored, the first number stored, and nothing else: the
        reference the ring is measured against. */
    ghost var Log: map<nat, Message>
    ghost var Start: nat

    const msg: array<Message>
    const sn: array<nat>
    const filled: array<bool>
    var highest: nat
    var lowest: nat
    var any: bool

    ghost predicate Valid()
      reads this, msg, sn, filled
    {
      && msg.Length == sn.Length == filled.Length == DEPTH
      && any == (Log != map[])
      && (any ==> highest in Log && Start in Log && lowest == Oldest(Start, highest))
      && (forall s <- Log :: Start <= s <= highest)
      && SlotsHold()
    }

    /** A slot holds the newest message stored under a number that maps to it. */
    ghost predicate SlotsHold()
      requires msg.Length == sn.Length == filled.Length == DEPTH
      reads this, msg, sn, filled
    {
      && (forall s <- Log :: filled[s % DEPTH] && s <= sn[s % DEPTH])
      && forall i :: 0 <= i < DEPTH && filled[i] ==> sn[i] in Log && sn[i] % DEPTH == i && msg[i] == Log[sn[i]]
    }

    constructor ()
      ensures Valid() && Log == map[] && fresh(msg) && fresh(sn) && fresh(filled)
    {
      msg := new Message[DEPTH](i => []);
      sn := new nat[DEPTH](i => 0);
      filled := new bool[DEPTH](i => false);
      highest, lowest, any := 0, 0, false;
      Log, Start := map[], 0;
    }

    /** Numbers are stored in strictly increasing order, as a writer assigns them. */
    method Store(n: nat, m: Message)
      requires Valid() && forall s <- Log :: s < n
      modifies this, msg, sn, filled
      ensures Valid()
      ensures Log == old(Log)[n := m] && highest == n
      ensures Start == if old(Log) == map[] then n else old(Start)
    {
      Fill(n, m);
      assert n in Log;
      if !any {
        lowest, highest, any := n, n, true;
        Start := n;
      }
      if n > highest {
        highest := n;
      }
      if highest >= DEPTH {
        var lb := highest - DEPTH + 1;
        if lb > lowest {
          lowest := lb;
        }
      }
    }

    method Fill(n: nat, m: Message)
      requires msg.Length == sn.Length == filled.Length == DEPTH && SlotsHold() && forall s <- Log :: s < n
      modifies `Log, msg, sn, filled
      ensures SlotsHold() && Log == old(Log)[n := m]
    {
      var i := n % DEPTH;
      msg[i] := m;
      sn[i] := n;
      filled[i] := true;
      Log := Log[n := m];
    }

    /** The ring answers exactly as the full record cut to the last `DEPTH` numbers. */
    method Get(n: nat) returns (r: Option<Message>)
      requires Valid()
      ensures r == if any then Lookup(Retained(Log, highest), n) else None
    {
      if !any || n < lowest || n > highest {
        return None;
      }
      var i := n % DEPTH;
      if n in Log {
        SameSlot(n, sn[i]);
      }
      if !filled[i] || sn[i] != n {
        return None;
      }
      r := Some(msg[i]);
    }

    method FirstLast() returns (first: nat, last: nat, ok: bool)
      requires Valid()
      ensures ok == (Log != map[])
      ensures ok ==> first == Oldest(Start, last) && last in Log && forall s <- Log :: s <= last
    {
      if !any {
        return 0, 0, false;
      }
      return lowest, highest, true;
    }
  }
}
