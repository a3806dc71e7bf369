/** The channels of the in-process broker: bounded queues with a back-pressure policy, what
    any interleaving of publishers and readers does to them, and the delivery counters. */
module BrokerChannels {
  import opened Wire
  import opened Identity

  datatype Sample = Sample(topic: string, payload: Bytes, sequenceNumber: nat, writer: Guid)

  datatype Policy = DropNewest | DropOldest | Block

  // ----------------------------------------------------------------------- one channel

  /** A subscriber's channel. */
  datatype Inbox = Inbox(depth: nat, policy: Policy, items: seq<Sample>)

  /** What has happened to a channel: all that was put into it, and how many samples were
      taken out by the reader, evicted, put in as a replay, and turned away. */
  datatype Book = Book(sent: seq<Sample>, read: nat, evicted: nat, replays: nat, refused: nat)

  datatype Channel = Channel(box: Inbox, book: Book)

  function Opened(box: Inbox): (ch: Channel)
    ensures 0 < box.depth && box.items == [] ==> ChannelInv(ch) && Tally(ch) == NO_COUNT
  {
    Channel(box, Book([], 0, 0, 0, 0))
  }

  predicate Room(b: Inbox)
  {
    |b.items| < b.depth
  }

  function Put(ch: Channel, x: Sample, replay: bool): Channel
  {
    Channel(ch.box.(items := ch.box.items + [x]),
            ch.book.(sent := ch.book.sent + [x], replays := ch.book.replays + if replay then 1 else 0))
  }

  function Evicted(ch: Channel): Channel
    requires ch.box.items != []
  {
    Channel(ch.box.(items := ch.box.items[1..]), ch.book.(evicted := ch.book.evicted + 1))
  }

  function Taken(ch: Channel): Channel
    requires ch.box.items != []
  {
    Channel(ch.box.(items := ch.box.items[1..]), ch.book.(read := ch.book.read + 1))
  }

  function Refused(ch: Channel): Channel
  {
    ch.(book := ch.book.(refused := ch.book.refused + 1))
  }

  /** Samples leave in the order they came, and every one is read, queued or evicted. */
  ghost predicate ChannelInv(ch: Channel)
  {
    && 0 < ch.box.depth && |ch.box.items| <= ch.box.depth
    && ch.book.replays <= |ch.book.sent|
    && ch.book.read + ch.book.evicted <= |ch.book.sent|
    && ch.box.items == ch.book.sent[ch.book.read + ch.book.evicted..]
  }

  lemma ChannelStepsKeepInv(ch: Channel, x: Sample, replay: bool)
    requires ChannelInv(ch)
    ensures Room(ch.box) ==> ChannelInv(Put(ch, x, replay))
    ensures ch.box.items != [] ==> ChannelInv(Evicted(ch)) && ChannelInv(Taken(ch))
    ensures ChannelInv(Refused(ch))
  {
    var gone := ch.book.read + ch.book.evicted;
    assert (ch.book.sent + [x])[gone..] == ch.book.sent[gone..] + [x];
    if ch.box.items != [] { assert ch.book.sent[gone..][1..] == ch.book.sent[gone + 1..]; }
  }

  /** What offering a sample does when nothing intervenes. A full channel under Block waits
      until the reader has taken a sample. */
  function Offered(ch: Channel, x: Sample): Channel
    requires 0 < ch.box.depth
  {
    if Room(ch.box) then Put(ch, x, false)
    else
      match ch.box.policy
      case DropOldest => Put(Evicted(ch), x, false)
      case Block => Put(Taken(ch), x, false)
      case DropNewest => Refused(ch)
  }

  function OfferedAll(ch: Channel, xs: seq<Sample>): (r: Channel)
    requires 0 < ch.box.depth
    ensures r.box.depth == ch.box.depth && r.box.policy == ch.box.policy
  {
    if xs == [] then ch else Offered(OfferedAll(ch, xs[..|xs| - 1]), xs[|xs| - 1])
  }

  function Newest(n: nat, xs: seq<Sample>): seq<Sample>
  {
    if |xs| <= n then xs else xs[|xs| - n..]
  }

  function Earliest(n: nat, xs: seq<Sample>): seq<Sample>
  {
    if |xs| <= n then xs else xs[..n]
  }

  /** A channel that is never read holds the newest offers under DropOldest and the
      earliest under DropNewest, those it began with included. */
  lemma {:induction false} UnreadChannelHolds(ch: Channel, xs: seq<Sample>)
    requires ChannelInv(ch)
    ensures var all, held := ch.box.items + xs, OfferedAll(ch, xs).box.items;
      && (ch.box.policy == DropOldest ==> held == Newest(ch.box.depth, all))
      && (ch.box.policy == DropNewest ==> held == Earliest(ch.box.depth, all))
    decreases |xs|
  {
    var d := ch.box.depth;
    if xs == [] {
      assert ch.box.items + xs == ch.box.items;
    } else {
      var front, x := xs[..|xs| - 1], xs[|xs| - 1];
      UnreadChannelHolds(ch, front);
      var before := ch.box.items + front;
      assert ch.box.items + xs == before + [x];
      assert |before| >= d ==> Newest(d, before)[1..] + [x] == Newest(d, before + [x]);
      assert |before| >= d ==> Earliest(d, before) == Earliest(d, before + [x]);
    }
  }

  /** Under Block nothing is lost: every offer is put in, in order, and nothing is evicted or
      turned away. */
  lemma {:induction false} BlockLosesNothing(ch: Channel, xs: seq<Sample>)
    requires ChannelInv(ch) && ch.box.policy == Block
    ensures var r := OfferedAll(ch, xs);
      && ChannelInv(r) && r.book.sent == ch.book.sent + xs
      && r.book.evicted == ch.book.evicted && r.book.refused == ch.book.refused && r.book.replays == ch.book.replays
    decreases |xs|
  {
    if xs == [] {
      assert ch.book.sent + xs == ch.book.sent;
    } else {
      var front, x := xs[..|xs| - 1], xs[|xs| - 1];
      BlockLosesNothing(ch, front);
      BlockTakes(OfferedAll(ch, front), x);
      assert ch.book.sent + xs == (ch.book.sent + front) + [x];
    }
  }

  lemma BlockTakes(ch: Channel, x: Sample)
    requires ChannelInv(ch) && ch.box.policy == Block
    ensures var r := Offered(ch, x);
      && ChannelInv(r) && r.book.sent == ch.book.sent + [x]
      && r.book.evicted == ch.book.evicted && r.book.refused == ch.book.refused && r.book.replays == ch.book.replays
  {
    ChannelStepsKeepInv(ch, x, false);
    if !Room(ch.box) { ChannelStepsKeepInv(Taken(ch), x, false); }
  }

  /** Otherwise every offer is put in or turned away, and what is evicted is what no longer
      fits: the book balances. */
  lemma {:induction false} OffersAccounted(ch: Channel, xs: seq<Sample>)
    requires ChannelInv(ch) && ch.box.policy != Block
    ensures var r := OfferedAll(ch, xs);
      && ChannelInv(r) && r.book.read == ch.book.read && r.book.replays == ch.book.replays
      && |r.book.sent| + r.book.refused == |ch.book.sent| + ch.book.refused + |xs|
      && (ch.box.policy == DropOldest ==> r.book.refused == ch.book.refused)
      && (ch.box.policy == DropNewest ==> r.book.evicted == ch.book.evicted)
    decreases |xs|
  {
    if xs != [] {
      var front, x := xs[..|xs| - 1], xs[|xs| - 1];
      OffersAccounted(ch, front);
      var b := OfferedAll(ch, front);
      ChannelStepsKeepInv(b, x, false);
      if !Room(b.box) { ChannelStepsKeepInv(Evicted(b), x, false); }
    }
  }

  // ----------------------------------------------------- deliveries that are interrupted

  function SendIfRoom(ch: Channel, x: Sample): Channel
  {
    if Room(ch.box) then Put(ch, x, false) else ch
  }

  function EvictIfAny(ch: Channel): Channel
  {
    if ch.box.items != [] then Evicted(ch) else ch
  }

  /** What others do to the channel between the steps of a delivery. */
  datatype Other = Sends(y: Sample) | Takes | Evicts

  function Meanwhile(ch: Channel, others: seq<Other>): (r: Channel)
    ensures r.box.depth == ch.box.depth
    decreases |others|
  {
    if others == [] then ch
    else
      var next := match others[0]
        case Sends(y) => SendIfRoom(ch, y)
        case Takes => if ch.box.items != [] then Taken(ch) else ch
        case Evicts => EvictIfAny(ch);
      Meanwhile(next, others[1..])
  }

  predicate NoneSends(others: seq<Other>)
  {
    forall i :: 0 <= i < |others| ==> !others[i].Sends?
  }

  /** A DropOldest delivery that found the channel full, evicted and is about to try again,
      with others at work before and after the eviction. */
  function BeforeRetry(ch: Channel, before: seq<Other>, after: seq<Other>): Channel
  {
    Meanwhile(EvictIfAny(Meanwhile(ch, before)), after)
  }

  lemma {:induction false} WithoutSendsShrinks(ch: Channel, others: seq<Other>)
    requires NoneSends(others)
    ensures |Meanwhile(ch, others).box.items| <= |ch.box.items|
    decreases |others|
  {
    if others != [] {
      var o := others[0];
      var next := if o.Takes? then (if ch.box.items != [] then Taken(ch) else ch) else EvictIfAny(ch);
      assert !o.Sends? && Meanwhile(ch, others) == Meanwhile(next, others[1..]);
      WithoutSendsShrinks(next, others[1..]);
    }
  }

  /** Whether the retry of every such delivery finds room, whatever the others do, comes down
      to whether others may send: readers and other evictions never keep the sample out, and
      one send after the eviction does, whatever the depth. */
  lemma RetryExact(ch: Channel, rivals: bool)
    requires ChannelInv(ch) && !Room(ch.box)
    ensures !rivals <==>
      forall before: seq<Other>, after: seq<Other> :: (rivals || (NoneSends(before) && NoneSends(after))) ==>
        Room(BeforeRetry(ch, before, after).box)
  {
    if rivals {
      var y := ch.box.items[0];
      SendFills(ch, y);
      assert !Room(BeforeRetry(ch, [], [Sends(y)]).box);
    } else {
      forall before: seq<Other>, after: seq<Other> | NoneSends(before) && NoneSends(after)
        ensures Room(BeforeRetry(ch, before, after).box)
      {
        WithoutSendsShrinks(ch, before);
        WithoutSendsShrinks(EvictIfAny(Meanwhile(ch, before)), after);
      }
    }
  }

  /** The rival's sample takes the place that was made, and the offered one is dropped. */
  lemma SendFills(ch: Channel, y: Sample)
    requires ChannelInv(ch) && !Room(ch.box)
    ensures var full := BeforeRetry(ch, [], [Sends(y)]);
      !Room(full.box) && full.book.sent == ch.book.sent + [y] && full.book.evicted == ch.book.evicted + 1
  {
    var o := [Sends(y)];
    assert Meanwhile(ch, []) == ch && o[1..] == [];
    assert Meanwhile(EvictIfAny(ch), o) == Meanwhile(SendIfRoom(EvictIfAny(ch), y), []);
    assert Meanwhile(SendIfRoom(EvictIfAny(ch), y), []) == SendIfRoom(EvictIfAny(ch), y);
  }

  // -------------------------------------------------------------------------- counters

  datatype Counter = Counter(writes: nat, delivers: nat, drops: nat)

  const NO_COUNT := Counter(0, 0, 0)

  function Plus(a: Counter, b: Counter): Counter
  {
    Counter(a.writes + b.writes, a.delivers + b.delivers, a.drops + b.drops)
  }

  ghost function Sum(m: map<string, Counter>): Counter
    decreases m.Keys
  {
    if m == map[] then NO_COUNT
    else
      var k :| k in m;
      Plus(m[k], Sum(m - {k}))
  }

  function CountOf(m: map<string, Counter>, topic: string): Counter
  {
    if topic in m then m[topic] else NO_COUNT
  }

  lemma {:induction false} SumPicks(m: map<string, Counter>, k: string)
    requires k in m
    ensures Sum(m) == Plus(m[k], Sum(m - {k}))
    decreases m.Keys
  {
    var j :| j in m && Sum(m) == Plus(m[j], Sum(m - {j}));
    if j != k {
      assert (m - {j}).Keys == m.Keys - {j};
      SumPicks(m - {j}, k);
      assert (m - {k}).Keys == m.Keys - {k};
      SumPicks(m - {k}, j);
      assert m - {j} - {k} == m - {k} - {j};
      PlusSwap(m[j], m[k], Sum(m - {j} - {k}));
    }
  }

  lemma PlusSwap(a: Counter, b: Counter, c: Counter)
    ensures Plus(a, Plus(b, c)) == Plus(b, Plus(a, c))
  {
  }

  /** What a channel has contributed to the counters. */
  function Tally(ch: Channel): Counter
    requires ch.book.replays <= |ch.book.sent|
  {
    Counter(0, |ch.book.sent| - ch.book.replays, ch.book.evicted + ch.book.refused)
  }

  ghost predicate AllValid(chans: seq<Channel>)
  {
    forall i :: 0 <= i < |chans| ==> ChannelInv(chans[i])
  }

  /** The sum over the first `n` channels. */
  ghost function Tallies(chans: seq<Channel>, n: nat): Counter
    requires AllValid(chans) && n <= |chans|
  {
    if n == 0 then NO_COUNT else Plus(Tallies(chans, n - 1), Tally(chans[n - 1]))
  }

  lemma {:induction false} TalliesAgree(a: seq<Channel>, b: seq<Channel>, n: nat)
    requires AllValid(a) && AllValid(b) && n <= |a| && n <= |b| && forall i :: 0 <= i < n ==> a[i] == b[i]
    ensures Tallies(a, n) == Tallies(b, n)
  {
    if n > 0 { TalliesAgree(a, b, n - 1); }
  }

  lemma {:induction false} TallyChanges(chans: seq<Channel>, c: nat, ch: Channel, n: nat)
    requires AllValid(chans) && c < n <= |chans| && ChannelInv(ch)
    ensures AllValid(chans[c := ch])
    ensures var now, was := Tallies(chans[c := ch], n), Tallies(chans, n);
      && now.delivers - was.delivers == Tally(ch).delivers - Tally(chans[c]).delivers
      && now.drops - was.drops == Tally(ch).drops - Tally(chans[c]).drops
  {
    if c == n - 1 {
      TalliesAgree(chans, chans[c := ch], n - 1);
    } else {
      TallyChanges(chans, c, ch, n - 1);
    }
  }

  // ---------------------------------------------------------------- every interleaving

  datatype State = State(chans: seq<Channel>, total: Counter, topics: map<string, Counter>)

  const FRESH := State([], NO_COUNT, map[])

  /** The indivisible steps the broker, its publishers and its readers are made of. */
  datatype Op =
    | Open(box: Inbox)
    | Wrote(topic: string)
    | Replay(c: nat, x: Sample)
    | Send(c: nat, x: Sample)
    | Evict(c: nat, topic: string)
    | Refuse(c: nat, topic: string)
    | Take(c: nat)

  predicate Enabled(chans: seq<Channel>, op: Op)
  {
    match op
    case Open(box) => 0 < box.depth && box.items == []
    case Wrote(_) => true
    case Replay(c, _) => c < |chans| && Room(chans[c].box)
    case Send(c, _) => c < |chans| && Room(chans[c].box)
    case Evict(c, _) => c < |chans| && chans[c].box.items != []
    case Refuse(c, _) => c < |chans|
    case Take(c) => c < |chans| && chans[c].box.items != []
  }

  function Moved(chans: seq<Channel>, op: Op): seq<Channel>
    requires Enabled(chans, op)
  {
    match op
    case Open(box) => chans + [Opened(box)]
    case Wrote(_) => chans
    case Replay(c, x) => chans[c := Put(chans[c], x, true)]
    case Send(c, x) => chans[c := Put(chans[c], x, false)]
    case Evict(c, _) => chans[c := Evicted(chans[c])]
    case Refuse(c, _) => chans[c := Refused(chans[c])]
    case Take(c) => chans[c := Taken(chans[c])]
  }

  /** The step moves a counter of the broker and of one topic. */
  predicate Counted(op: Op)
  {
    op.Wrote? || op.Send? || op.Evict? || op.Refuse?
  }

  function ChargedTo(op: Op): string
    requires Counted(op)
  {
    if op.Send? then op.x.topic else op.topic
  }

  function Bumped(k: Counter, op: Op): Counter
    requires Counted(op)
  {
    match op
    case Wrote(_) => k.(writes := k.writes + 1)
    case Send(_, _) => k.(delivers := k.delivers + 1)
    case _ => k.(drops := k.drops + 1)
  }

  function Charged(m: map<string, Counter>, op: Op): map<string, Counter>
    requires Counted(op)
  {
    m[ChargedTo(op) := Bumped(CountOf(m, ChargedTo(op)), op)]
  }

  /** A step that is not enabled does nothing. */
  function Step(s: State, op: Op): State
  {
    if !Enabled(s.chans, op) then s
    else if Counted(op) then State(Moved(s.chans, op), Bumped(s.total, op), Charged(s.topics, op))
    else s.(chans := Moved(s.chans, op))
  }

  /** The channels account for every counted delivery and drop. */
  ghost predicate Accounted(chans: seq<Channel>, total: Counter)
  {
    && AllValid(chans)
    && total.delivers == Tallies(chans, |chans|).delivers && total.drops == Tallies(chans, |chans|).drops
  }

  /** Nothing is lost track of, and the global counters are the sums of the per-topic ones. */
  ghost predicate StateInv(s: State)
  {
    Accounted(s.chans, s.total) && s.total == Sum(s.topics)
  }

  /** The state after any sequence of steps. */
  function Run(ops: seq<Op>): State
    decreases |ops|
  {
    if ops == [] then FRESH else Step(Run(ops[..|ops| - 1]), ops[|ops| - 1])
  }

  lemma ChannelOpens(chans: seq<Channel>, ch: Channel)
    requires AllValid(chans) && ChannelInv(ch) && Tally(ch) == NO_COUNT
    ensures AllValid(chans + [ch]) && Tallies(chans + [ch], |chans + [ch]|) == Tallies(chans, |chans|)
  {
    TalliesAgree(chans, chans + [ch], |chans|);
  }

  lemma StepKeepsAccounts(s: State, op: Op)
    requires Accounted(s.chans, s.total) && Enabled(s.chans, op)
    ensures Accounted(Moved(s.chans, op), if Counted(op) then Bumped(s.total, op) else s.total)
  {
    if op.Open? {
      ChannelOpens(s.chans, Opened(op.box));
    } else if !op.Wrote? {
      var c, ch := op.c, Moved(s.chans, op)[op.c];
      assert Moved(s.chans, op) == s.chans[c := ch];
      ChannelStepKeepsInv(s.chans, op);
      TallyChanges(s.chans, c, ch, |s.chans|);
    }
  }

  /** Only the channel the step names moves, and as the counters say. */
  lemma ChannelStepKeepsInv(chans: seq<Channel>, op: Op)
    requires AllValid(chans) && Enabled(chans, op) && !op.Open? && !op.Wrote?
    ensures var was, now := chans[op.c], Moved(chans, op)[op.c];
      && ChannelInv(now)
      && Tally(now).delivers == Tally(was).delivers + (if op.Send? then 1 else 0)
      && Tally(now).drops == Tally(was).drops + (if op.Evict? || op.Refuse? then 1 else 0)
  {
    var ch := chans[op.c];
    if op.Send? || op.Replay? {
      ChannelStepsKeepInv(ch, op.x, op.Replay?);
    } else if !op.Refuse? {
      ChannelStepsKeepInv(ch, ch.box.items[0], false);
    }
  }

  lemma StepKeepsSums(m: map<string, Counter>, op: Op)
    requires Counted(op)
    ensures Sum(Charged(m, op)) == Bumped(Sum(m), op)
  {
    var topic, m' := ChargedTo(op), Charged(m, op);
    SumPicks(m', topic);
    if topic in m {
      SumPicks(m, topic);
      assert m' - {topic} == m - {topic};
    } else {
      assert m' - {topic} == m;
    }
  }

  lemma StepKeepsInv(s: State, op: Op)
    requires StateInv(s)
    ensures StateInv(Step(s, op))
  {
    if Enabled(s.chans, op) {
      StepKeepsAccounts(s, op);
      if Counted(op) { StepKeepsSums(s.topics, op); }
    }
  }

  /** Whatever the interleaving of steps. */
  lemma {:induction false} RunKeepsInv(ops: seq<Op>)
    ensures StateInv(Run(ops))
    decreases |ops|
  {
    if ops != [] {
      RunKeepsInv(ops[..|ops| - 1]);
      StepKeepsInv(Run(ops[..|ops| - 1]), ops[|ops| - 1]);
    }
  }

  lemma InboxesFit(ops: seq<Op>, c: nat)
    requires c < |Run(ops).chans|
    ensures |Run(ops).chans[c].box.items| <= Run(ops).chans[c].box.depth
  {
    RunKeepsInv(ops);
    assert ChannelInv(Run(ops).chans[c]);
  }

  ghost function Reads(chans: seq<Channel>, n: nat): nat
    requires n <= |chans|
  {
    if n == 0 then 0 else Reads(chans, n - 1) + chans[n - 1].book.read
  }

  ghost function Queued(chans: seq<Channel>, n: nat): nat
    requires n <= |chans|
  {
    if n == 0 then 0 else Queued(chans, n - 1) + |chans[n - 1].box.items|
  }

  ghost function Evictions(chans: seq<Channel>, n: nat): nat
    requires n <= |chans|
  {
    if n == 0 then 0 else Evictions(chans, n - 1) + chans[n - 1].book.evicted
  }

  ghost function Replays(chans: seq<Channel>, n: nat): nat
    requires n <= |chans|
  {
    if n == 0 then 0 else Replays(chans, n - 1) + chans[n - 1].book.replays
  }

  /** Samples read, queued and evicted are the counted deliveries and the replays, and no
      eviction goes uncounted. */
  lemma Conservation(ops: seq<Op>)
    ensures var s := Run(ops); var n := |s.chans|;
      && Reads(s.chans, n) + Queued(s.chans, n) + Evictions(s.chans, n) == s.total.delivers + Replays(s.chans, n)
      && Evictions(s.chans, n) <= s.total.drops && s.total == Sum(s.topics)
  {
    RunKeepsInv(ops);
    Balance(Run(ops).chans, |Run(ops).chans|);
  }

  lemma {:induction false} Balance(chans: seq<Channel>, n: nat)
    requires AllValid(chans) && n <= |chans|
    ensures Reads(chans, n) + Queued(chans, n) + Evictions(chans, n) == Tallies(chans, n).delivers + Replays(chans, n)
    ensures Evictions(chans, n) <= Tallies(chans, n).drops
  {
    if n > 0 { Balance(chans, n - 1); }
  }

  /** How many of the steps are writes on the topic. */
  function WritesOn(ops: seq<Op>, topic: string): nat
  {
    if ops == [] then 0
    else WritesOn(ops[..|ops| - 1], topic) + (if ops[|ops| - 1] == Wrote(topic) then 1 else 0)
  }

  /** Writes are counted one by one, for their own topic. */
  lemma {:induction false} WritesCounted(ops: seq<Op>, topic: string)
    ensures CountOf(Run(ops).topics, topic).writes == WritesOn(ops, topic)
    decreases |ops|
  {
    if ops != [] { WritesCounted(ops[..|ops| - 1], topic); }
  }
}
