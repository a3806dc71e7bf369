/** The in-process broker: subscriptions by topic pattern, publication to the channels of
    those that match, and transient-local replay to late joiners. */
module Broker {
  import opened Wire
  import opened Identity
  import Pushdown = FilterPushdown
  import opened BrokerChannels

  const DEFAULT_DEPTH: nat := 64

  // ------------------------------------------------------------------ topic patterns

  function Split(s: string): (segs: seq<string>)
    ensures segs != []
  {
    if s == [] then [[]]
    else
      var rest := Split(s[1..]);
      if s[0] == '/' then [[]] + rest else [[s[0]] + rest[0]] + rest[1..]
  }

  predicate MatchSlices(p: seq<string>, t: seq<string>)
  {
    if p == [] then t == []
    else if p[0] == "#" then true
    else if t == [] then false
    else (p[0] == "+" || p[0] == t[0]) && MatchSlices(p[1..], t[1..])
  }

  predicate TopicMatches(pattern: string, topic: string)
  {
    MatchSlices(Split(pattern), Split(topic))
  }

  /** The first `n` segments agree, a plus sign standing for any segment. */
  predicate Agrees(p: seq<string>, t: seq<string>, n: nat)
    requires n <= |p| && n <= |t|
  {
    forall i :: 0 <= i < n ==> p[i] == "+" || p[i] == t[i]
  }

  /** A pattern without a hash sign matches segment by segment and in full; otherwise what
      stands before the first hash sign matches the beginning of the topic. */
  lemma {:induction false} PatternMeaning(p: seq<string>, t: seq<string>)
    ensures "#" !in p ==> (MatchSlices(p, t) <==> |p| == |t| && Agrees(p, t, |p|))
    ensures forall h :: 0 <= h < |p| && p[h] == "#" && "#" !in p[..h] ==>
              (MatchSlices(p, t) <==> h <= |t| && Agrees(p, t, h))
  {
    if p != [] && p[0] != "#" && t != [] {
      PatternMeaning(p[1..], t[1..]);
      assert forall i :: 0 < i < |p| ==> p[i] == p[1..][i - 1];
      assert forall i :: 0 < i < |t| ==> t[i] == t[1..][i - 1];
      forall h | 0 <= h < |p| && p[h] == "#" && "#" !in p[..h]
        ensures MatchSlices(p, t) <==> h <= |t| && Agrees(p, t, h)
      {
        assert p[1..][..h - 1] == p[..h][1..];
        assert h <= |t| ==> (Agrees(p, t, h) <==> (p[0] == "+" || p[0] == t[0]) && Agrees(p[1..], t[1..], h - 1));
      }
    }
  }

  /** The text of a list of segments. */
  function Join(segs: seq<string>): string
    requires segs != []
  {
    if |segs| == 1 then segs[0] else segs[0] + "/" + Join(segs[1..])
  }

  predicate Plain(seg: string)
  {
    '/' !in seg
  }

  predicate AllPlain(segs: seq<string>)
  {
    forall i :: 0 <= i < |segs| ==> Plain(segs[i])
  }

  /** Splitting yields segments without a slash that make up the text; with `SplitUnique`
      this says what it does. */
  lemma {:induction false} SplitExact(s: string)
    ensures Join(Split(s)) == s && AllPlain(Split(s))
  {
    if s != [] {
      var rest, segs := Split(s[1..]), Split(s);
      SplitExact(s[1..]);
      if s[0] == '/' {
        assert segs[1..] == rest;
        assert [] + "/" + Join(rest) == s;
      } else {
        assert segs[1..] == rest[1..];
        assert |rest| > 1 ==> Join(rest) == rest[0] + "/" + Join(rest[1..]);
        assert Join(segs) == [s[0]] + Join(rest);
      }
    }
  }

  lemma {:induction false} SplitUnique(segs: seq<string>)
    requires segs != [] && AllPlain(segs)
    ensures Split(Join(segs)) == segs
    decreases |Join(segs)|
  {
    var s := Join(segs);
    if segs[0] != [] {
      var next := [segs[0][1..]] + segs[1..];
      assert next[1..] == segs[1..] && s[1..] == Join(next) && s[0] == segs[0][0];
      assert AllPlain(next);
      SplitUnique(next);
      assert segs[0][0] in segs[0];
      assert [segs[0][0]] + next[0] == segs[0];
    } else if |segs| > 1 {
      assert s[1..] == Join(segs[1..]) && s[0] == '/';
      SplitUnique(segs[1..]);
      assert segs == [[]] + segs[1..];
    } else {
      assert segs == [[]];
    }
  }

  /** On texts: a pattern without a hash sign matches a topic with as many segments, each of
      them the same or under a plus sign; with one, what stands before it matches the beginning
      of the topic, which may end there. */
  lemma TopicMeaning(p: seq<string>, t: seq<string>)
    requires p != [] && t != [] && AllPlain(p) && AllPlain(t)
    ensures "#" !in p ==> (TopicMatches(Join(p), Join(t)) <==> |p| == |t| && Agrees(p, t, |p|))
    ensures forall h :: 0 <= h < |p| && p[h] == "#" && "#" !in p[..h] ==>
              (TopicMatches(Join(p), Join(t)) <==> h <= |t| && Agrees(p, t, h))
  {
    SplitUnique(p);
    SplitUnique(t);
    PatternMeaning(p, t);
  }

  // ------------------------------------------------------------------------ the broker

  /** `accepts` stands for the user's filter and the content filter together. */
  datatype Sub = Sub(chan: nat, accepts: Sample -> bool, partitions: seq<string>, minSeparation: int)

  predicate Routed(pattern: string, topic: string)
  {
    pattern == topic || TopicMatches(pattern, topic)
  }

  /** The subscription matches a sample published on the given partitions. */
  predicate Fits(sub: Sub, x: Sample, partitions: seq<string>)
  {
    Pushdown.PartitionsMatch(partitions, sub.partitions) && sub.accepts(x)
  }

  predicate TooSoon(sub: Sub, last: map<Guid, int>, writer: Guid, now: int)
  {
    sub.minSeparation > 0 && writer in last && now - last[writer] < sub.minSeparation
  }

  /** What a publication does to the channel of a subscription it is meant for. */
  function Outcome(sub: Sub, ch: Channel, last: map<Guid, int>, x: Sample, now: int): Channel
    requires 0 < ch.box.depth
  {
    if TooSoon(sub, last, x.writer, now) then Refused(ch) else Offered(ch, x)
  }

  /** The time-based filter's record of the writers, after the publication. */
  function Heard(sub: Sub, last: map<Guid, int>, writer: Guid, now: int): map<Guid, int>
  {
    if sub.minSeparation <= 0 || TooSoon(sub, last, writer, now) then last else last[writer := now]
  }

  /** The time that the subscription remembers of the writer. */
  function LastOf(last: map<Guid, int>, writer: Guid): Option<int>
  {
    if writer in last then Some(last[writer]) else None
  }

  /** The time-based filter is that of the network readers, for each writer by itself. */
  lemma SameTimeFilter(sub: Sub, last: map<Guid, int>, writer: Guid, now: int, other: Guid)
    requires other != writer
    ensures TooSoon(sub, last, writer, now) <==> !Pushdown.LetThrough(LastOf(last, writer), sub.minSeparation, now)
    ensures LastOf(Heard(sub, last, writer, now), writer)
         == Pushdown.LastAfter(LastOf(last, writer), sub.minSeparation, now)
    ensures LastOf(Heard(sub, last, writer, now), other) == LastOf(last, other)
  {
  }

  /** A turn leaves the channel alone, or refuses the sample as coming too soon, or offers it. */
  lemma TurnMeans(sub: Sub, ch: Channel, last: map<Guid, int>, p: Publication)
    requires 0 < ch.box.depth
    ensures var meant := Pushdown.PartitionsMatch(p.partitions, sub.partitions) && sub.accepts(p.sample);
      var soon := !Pushdown.LetThrough(LastOf(last, p.sample.writer), sub.minSeparation, p.now);
      && ChannelAfter(sub, ch, last, p) == (if !meant then ch else if soon then Refused(ch) else Offered(ch, p.sample))
      && LastOf(TimesAfter(sub, last, p), p.sample.writer)
           == (if meant then Pushdown.LastAfter(LastOf(last, p.sample.writer), sub.minSeparation, p.now)
               else LastOf(last, p.sample.writer))
  {
  }

  datatype Publication = Publication(sample: Sample, partitions: seq<string>, now: int)

  /** What a publication does to the channel of a subscription on a matching pattern. */
  function ChannelAfter(sub: Sub, ch: Channel, last: map<Guid, int>, p: Publication): Channel
    requires 0 < ch.box.depth
  {
    if Fits(sub, p.sample, p.partitions) then Outcome(sub, ch, last, p.sample, p.now) else ch
  }

  function TimesAfter(sub: Sub, last: map<Guid, int>, p: Publication): map<Guid, int>
  {
    if Fits(sub, p.sample, p.partitions) then Heard(sub, last, p.sample.writer, p.now) else last
  }

  datatype Slots = Slots(chans: seq<Channel>, times: seq<map<Guid, int>>)

  /** The subscriptions in `done` have had their turn and nobody else has. */
  ghost predicate HadTheirTurn(done: seq<Sub>, p: Publication, was: Slots, now: Slots)
  {
    && |now.chans| == |was.chans| == |was.times| == |now.times|
    && (forall c :: 0 <= c < |was.chans| ==> 0 < was.chans[c].box.depth)
    && (forall s <- done :: s.chan < |was.chans|
          && now.chans[s.chan] == ChannelAfter(s, was.chans[s.chan], was.times[s.chan], p)
          && now.times[s.chan] == TimesAfter(s, was.times[s.chan], p))
    && forall c :: 0 <= c < |was.chans| ==> (forall s <- done :: s.chan != c) ==>
         now.chans[c] == was.chans[c] && now.times[c] == was.times[c]
  }

  lemma NextTurn(targets: seq<Sub>, i: nat, p: Publication, was: Slots, now: Slots)
    requires Distinct(targets) && i < |targets| && HadTheirTurn(targets[..i], p, was, now)
    requires targets[i].chan < |was.chans|
    ensures var c := targets[i].chan; var then' := Slots(
        now.chans[c := ChannelAfter(targets[i], now.chans[c], now.times[c], p)],
        now.times[c := TimesAfter(targets[i], now.times[c], p)]);
      0 < now.chans[c].box.depth && HadTheirTurn(targets[..i + 1], p, was, then')
  {
    var c, s := targets[i].chan, targets[i];
    assert forall t <- targets[..i] :: t.chan != c;
    assert now.chans[c] == was.chans[c] && now.times[c] == was.times[c];
    assert targets[..i + 1] == targets[..i] + [s];
  }

  /** Every subscription on a matching pattern has had its turn, and nobody else. */
  ghost predicate Published(subs: map<string, seq<Sub>>, p: Publication, was: Slots, now: Slots)
  {
    var patterns := MatchingPatterns(subs, p.sample.topic);
    && |now.chans| == |was.chans| == |was.times| == |now.times|
    && (forall c :: 0 <= c < |was.chans| ==> 0 < was.chans[c].box.depth)
    && (forall t <- patterns, s <- subs[t] :: s.chan < |was.chans|
          && now.chans[s.chan] == ChannelAfter(s, was.chans[s.chan], was.times[s.chan], p)
          && now.times[s.chan] == TimesAfter(s, was.times[s.chan], p))
    && forall c :: 0 <= c < |was.chans| ==> (forall t <- patterns, s <- subs[t] :: s.chan != c) ==>
         now.chans[c] == was.chans[c] && now.times[c] == was.times[c]
  }

  lemma AllHadTheirTurn(subs: map<string, seq<Sub>>, targets: seq<Sub>, p: Publication, was: Slots, now: Slots)
    requires Collects(subs, MatchingPatterns(subs, p.sample.topic), targets)
    requires HadTheirTurn(targets, p, was, now)
    ensures Published(subs, p, was, now)
  {
    var patterns := MatchingPatterns(subs, p.sample.topic);
    forall c | 0 <= c < |was.chans| && forall t <- patterns, s <- subs[t] :: s.chan != c
      ensures now.chans[c] == was.chans[c] && now.times[c] == was.times[c]
    {
      forall s <- targets ensures s.chan != c {
        var t :| t in patterns && s in subs[t];
      }
    }
  }

  /** Deliveries and drops were counted for the topic, and nothing for another. */
  ghost predicate OnlyCharges(was: State, now: State, topic: string)
  {
    && now.total.writes == was.total.writes && CountOf(now.topics, topic).writes == CountOf(was.topics, topic).writes
    && forall t :: t != topic ==> CountOf(now.topics, t) == CountOf(was.topics, t)
  }

  ghost predicate Distinct(subs: seq<Sub>)
  {
    forall i, j :: 0 <= i < j < |subs| ==> subs[i].chan != subs[j].chan
  }

  /** Every subscription has a channel of its own. */
  ghost predicate OwnChannels(subs: map<string, seq<Sub>>, n: nat)
  {
    && (forall t <- subs :: Distinct(subs[t]) && forall i :: 0 <= i < |subs[t]| ==> subs[t][i].chan < n)
    && forall t <- subs, u <- subs :: t != u ==> Apart(subs[t], subs[u])
  }

  ghost predicate Apart(a: seq<Sub>, b: seq<Sub>)
  {
    forall i, j :: 0 <= i < |a| && 0 <= j < |b| ==> a[i].chan != b[j].chan
  }

  function WithSub(subs: map<string, seq<Sub>>, topic: string, sub: Sub): map<string, seq<Sub>>
  {
    subs[topic := (if topic in subs then subs[topic] else []) + [sub]]
  }

  lemma NewChannelIsOwn(subs: map<string, seq<Sub>>, n: nat, topic: string, sub: Sub)
    requires OwnChannels(subs, n) && sub.chan == n
    ensures OwnChannels(WithSub(subs, topic, sub), n + 1)
  {
    var all := WithSub(subs, topic, sub);
    forall t <- all, u <- all | t != u ensures Apart(all[t], all[u]) {
      assert t in subs && u in subs ==> Apart(subs[t], subs[u]);
    }
  }

  function WithoutSub(list: seq<Sub>, i: nat): seq<Sub>
    requires i < |list|
  {
    list[..i] + list[i + 1..]
  }

  lemma WithoutSubKeeps(list: seq<Sub>, i: nat)
    requires i < |list| && Distinct(list)
    ensures Distinct(WithoutSub(list, i))
    ensures forall s <- WithoutSub(list, i) :: s in list && s.chan != list[i].chan
    ensures forall s <- list :: s.chan != list[i].chan ==> s in WithoutSub(list, i)
  {
    var rest := WithoutSub(list, i);
    assert forall k :: 0 <= k < |rest| ==> rest[k] == list[if k < i then k else k + 1];
    forall j | 0 <= j < |list| && j != i ensures list[j] in rest {
      assert rest[if j < i then j else j - 1] == list[j];
    }
  }

  lemma RemovalKeepsOwn(subs: map<string, seq<Sub>>, n: nat, topic: string, i: nat)
    requires OwnChannels(subs, n) && topic in subs && i < |subs[topic]|
    ensures OwnChannels(subs[topic := WithoutSub(subs[topic], i)], n)
  {
    var rest := WithoutSub(subs[topic], i);
    WithoutSubKeeps(subs[topic], i);
    forall k | 0 <= k < |rest|
      ensures rest[k].chan < n
      ensures forall t <- subs, j :: t != topic && 0 <= j < |subs[t]| ==> subs[t][j].chan != rest[k].chan
    {
      assert rest[k] in subs[topic];
      forall t <- subs, j | t != topic && 0 <= j < |subs[t]| ensures subs[t][j].chan != rest[k].chan {
        assert Apart(subs[t], subs[topic]);
      }
    }
  }

  /** `targets` lists, each once, the subscriptions of the given patterns. */
  ghost predicate Collects(subs: map<string, seq<Sub>>, patterns: set<string>, targets: seq<Sub>)
    requires patterns <= subs.Keys
  {
    && Distinct(targets)
    && (forall s <- targets :: exists t :: t in patterns && s in subs[t])
    && forall t <- patterns :: forall s <- subs[t] :: s in targets
  }

  lemma CollectMore(subs: map<string, seq<Sub>>, n: nat, patterns: set<string>, targets: seq<Sub>, t: string)
    requires OwnChannels(subs, n) && patterns <= subs.Keys && t in subs && t !in patterns
    requires Collects(subs, patterns, targets)
    ensures Collects(subs, patterns + {t}, targets + subs[t])
  {
    var more := targets + subs[t];
    forall s <- targets ensures exists u :: u in patterns + {t} && s in subs[u] {
      var u :| u in patterns && s in subs[u];
      assert u in patterns + {t};
    }
    assert t in patterns + {t};
    forall i, j | 0 <= i < j < |more| ensures more[i].chan != more[j].chan {
      if i < |targets| <= j {
        assert targets[i] in targets;
        var u :| u in patterns && targets[i] in subs[u];
        assert Apart(subs[u], subs[t]);
      }
    }
  }

  lemma TargetsHaveChannels(subs: map<string, seq<Sub>>, n: nat, topic: string, targets: seq<Sub>)
    requires OwnChannels(subs, n) && Collects(subs, MatchingPatterns(subs, topic), targets)
    ensures forall i :: 0 <= i < |targets| ==> targets[i].chan < n
  {
    forall i | 0 <= i < |targets| ensures targets[i].chan < n {
      assert targets[i] in targets;
    }
  }

  function MatchingPatterns(subs: map<string, seq<Sub>>, topic: string): set<string>
  {
    set t | t in subs && Routed(t, topic)
  }

  /** The subscriptions of the topic and of every pattern that matches it, the patterns in
      whatever order the map yields them. */
  method Route(subs: map<string, seq<Sub>>, topic: string, ghost n: nat) returns (targets: seq<Sub>)
    requires OwnChannels(subs, n)
    ensures Collects(subs, MatchingPatterns(subs, topic), targets)
  {
    targets := [];
    var todo := subs.Keys;
    ghost var hits := {};
    if topic in subs {
      CollectMore(subs, n, {}, [], topic);
      assert [] + subs[topic] == subs[topic];
      targets := subs[topic];
      todo := todo - {topic};
      hits := hits + {topic};
    }
    while todo != {}
      invariant todo <= subs.Keys && topic !in todo && hits !! todo
      invariant hits <= subs.Keys && forall t <- subs :: t !in todo ==> (t in hits <==> Routed(t, topic))
      invariant Collects(subs, hits, targets)
      decreases |todo|
    {
      var t :| t in todo;
      todo := todo - {t};
      if TopicMatches(t, topic) {
        CollectMore(subs, n, hits, targets, t);
        targets := targets + subs[t];
        hits := hits + {t};
      }
    }
    assert hits == MatchingPatterns(subs, topic);
  }

  class Broker {
    var subs: map<string, seq<Sub>>
    var lastSample: map<string, Sample>
    var boxes: seq<Inbox>
    var lastTimes: seq<map<Guid, int>>
    var total: Counter
    var topics: map<string, Counter>
    /** The steps taken so far, and the channels with their books. */
    ghost var Ops: seq<Op>
    ghost var Chans: seq<Channel>

    ghost function View(): State
      reads this
    {
      State(Chans, total, topics)
    }

    ghost predicate Valid()
      reads this
    {
      && |boxes| == |Chans| == |lastTimes|
      && (forall c :: 0 <= c < |boxes| ==> boxes[c] == Chans[c].box && 0 < boxes[c].depth)
      && View() == Run(Ops)
      && OwnChannels(subs, |boxes|)
    }

    constructor ()
      ensures Valid() && Ops == [] && subs == map[] && lastSample == map[]
    {
      subs, lastSample, boxes, lastTimes := map[], map[], [], [];
      total, topics, Chans, Ops := NO_COUNT, map[], [], [];
    }

    // ------------------------------------------------------------- indivisible steps

    method Count(op: Op)
      requires Counted(op)
      modifies `total, `topics
      ensures total == Bumped(old(total), op) && topics == Charged(old(topics), op)
    {
      total := Bumped(total, op);
      topics := Charged(topics, op);
    }

    ghost method Note(op: Op)
      modifies `Ops
      ensures Ops == old(Ops) + [op] && Run(Ops) == Step(Run(old(Ops)), op)
    {
      assert (Ops + [op])[..|Ops|] == Ops;
      Ops := Ops + [op];
    }

    method TrySend(c: nat, x: Sample) returns (ok: bool)
      requires Valid() && c < |boxes|
      modifies `boxes, `total, `topics, `Ops, `Chans
      ensures Valid() && ok == old(Room(boxes[c])) && View() == Step(old(View()), Send(c, x))
    {
      Note(Send(c, x));
      ok := |boxes[c].items| < boxes[c].depth;
      if ok {
        boxes := boxes[c := boxes[c].(items := boxes[c].items + [x])];
        Chans := Chans[c := Put(Chans[c], x, false)];
        Count(Send(c, x));
      }
    }

    /** A replay is not counted as a delivery. */
    method TryReplay(c: nat, x: Sample)
      requires Valid() && c < |boxes|
      modifies `boxes, `Ops, `Chans
      ensures Valid() && View() == Step(old(View()), Replay(c, x))
    {
      Note(Replay(c, x));
      if |boxes[c].items| < boxes[c].depth {
        boxes := boxes[c := boxes[c].(items := boxes[c].items + [x])];
        Chans := Chans[c := Put(Chans[c], x, true)];
      }
    }

    method TryEvict(c: nat, topic: string)
      requires Valid() && c < |boxes|
      modifies `boxes, `total, `topics, `Ops, `Chans
      ensures Valid() && View() == Step(old(View()), Evict(c, topic))
    {
      Note(Evict(c, topic));
      if |boxes[c].items| > 0 {
        boxes := boxes[c := boxes[c].(items := boxes[c].items[1..])];
        Chans := Chans[c := Evicted(Chans[c])];
        Count(Evict(c, topic));
      }
    }

    method Drop(c: nat, topic: string)
      requires Valid() && c < |boxes|
      modifies `total, `topics, `Ops, `Chans
      ensures Valid() && View() == Step(old(View()), Refuse(c, topic))
    {
      Note(Refuse(c, topic));
      Chans := Chans[c := Refused(Chans[c])];
      Count(Refuse(c, topic));
    }

    /** A read returns the sample that was put in first of those still there. */
    method Read(c: nat) returns (x: Option<Sample>)
      requires Valid() && c < |boxes|
      modifies `boxes, `Ops, `Chans
      ensures Valid() && View() == Step(old(View()), Take(c))
      ensures var ch := old(Chans)[c]; var gone := ch.book.read + ch.book.evicted;
        x == if gone < |ch.book.sent| then Some(ch.book.sent[gone]) else None
    {
      RunKeepsInv(Ops);
      assert ChannelInv(Chans[c]);
      Note(Take(c));
      if |boxes[c].items| == 0 {
        return None;
      }
      x := Some(boxes[c].items[0]);
      boxes := boxes[c := boxes[c].(items := boxes[c].items[1..])];
      Chans := Chans[c := Taken(Chans[c])];
    }

    // ---------------------------------------------------------------------- delivery

    /** With no other publisher in between, every policy does what `Offered` says. */
    method Deliver(c: nat, x: Sample)
      requires Valid() && c < |boxes|
      modifies `boxes, `total, `topics, `Ops, `Chans
      ensures Valid() && Chans == old(Chans)[c := Offered(old(Chans)[c], x)]
      ensures OnlyCharges(old(View()), View(), x.topic)
    {
      InboxesFit(Ops, c);
      var ok := TrySend(c, x);
      if ok {
        return;
      }
      match boxes[c].policy
      case DropOldest => Displace(c, x);
      case Block => Await(c, x);
      case DropNewest => Drop(c, x.topic);
    }

    /** Evicts the oldest sample and tries again, which succeeds. */
    method Displace(c: nat, x: Sample)
      requires Valid() && c < |boxes| && |boxes[c].items| == boxes[c].depth
      modifies `boxes, `total, `topics, `Ops, `Chans
      ensures Valid() && Chans == old(Chans)[c := Put(Evicted(old(Chans)[c]), x, false)]
      ensures OnlyCharges(old(View()), View(), x.topic)
    {
      TryEvict(c, x.topic);
      var ok := TrySend(c, x);
      assert ok;
    }

    /** Sending to a full channel waits, and what it waits for is a read. */
    method Await(c: nat, x: Sample)
      requires Valid() && c < |boxes| && |boxes[c].items| == boxes[c].depth
      modifies `boxes, `total, `topics, `Ops, `Chans
      ensures Valid() && Chans == old(Chans)[c := Put(Taken(old(Chans)[c]), x, false)]
      ensures OnlyCharges(old(View()), View(), x.topic)
    {
      var _ := Read(c);
      var ok := TrySend(c, x);
      assert ok;
    }

    // ----------------------------------------------------------- publish and subscribe

    method Written(topic: string)
      requires Valid()
      modifies `total, `topics, `Ops
      ensures Valid() && View() == Step(old(View()), Wrote(topic))
    {
      Note(Wrote(topic));
      Count(Wrote(topic));
    }

    ghost function Table(): Slots
      reads this
    {
      Slots(Chans, lastTimes)
    }

    /** One subscription's turn in a publication. */
    method Turn(sub: Sub, p: Publication)
      requires Valid() && sub.chan < |boxes|
      modifies `boxes, `lastTimes, `total, `topics, `Ops, `Chans
      ensures Valid() && OnlyCharges(old(View()), View(), p.sample.topic)
      ensures Chans == old(Chans)[sub.chan := ChannelAfter(sub, old(Chans)[sub.chan], old(lastTimes)[sub.chan], p)]
      ensures lastTimes == old(lastTimes)[sub.chan := TimesAfter(sub, old(lastTimes)[sub.chan], p)]
    {
      var c, x := sub.chan, p.sample;
      var ok := Pushdown.CheckPartitions(p.partitions, sub.partitions);
      if !ok || !sub.accepts(x) {
        return;
      }
      if sub.minSeparation > 0 {
        if x.writer in lastTimes[c] && p.now - lastTimes[c][x.writer] < sub.minSeparation {
          Drop(c, x.topic);
          return;
        }
        var heard: map<Guid, int> := lastTimes[c][x.writer := p.now];
        lastTimes := lastTimes[c := heard];
      }
      Deliver(c, x);
    }

    /** `allowed` is the verdict of ownership arbitration on the writer. */
    method Publish(p: Publication, transientLocal: bool, allowed: bool)
      requires Valid()
      modifies `lastSample, `boxes, `lastTimes, `total, `topics, `Ops, `Chans
      ensures Valid()
      ensures lastSample == if transientLocal then old(lastSample)[p.sample.topic := p.sample] else old(lastSample)
      ensures if allowed then Published(subs, p, old(Table()), Table()) else Table() == old(Table())
      ensures OnlyCharges(Step(old(View()), Wrote(p.sample.topic)), View(), p.sample.topic)
    {
      Written(p.sample.topic);
      if transientLocal {
        lastSample := lastSample[p.sample.topic := p.sample];
      }
      var targets := Route(subs, p.sample.topic, |boxes|);
      if !allowed {
        return;
      }
      TargetsHaveChannels(subs, |boxes|, p.sample.topic, targets);
      FanOut(targets, p);
      AllHadTheirTurn(subs, targets, p, old(Table()), Table());
    }

    method FanOut(targets: seq<Sub>, p: Publication)
      requires Valid() && Distinct(targets) && forall i :: 0 <= i < |targets| ==> targets[i].chan < |boxes|
      modifies `boxes, `lastTimes, `total, `topics, `Ops, `Chans
      ensures Valid() && HadTheirTurn(targets, p, old(Table()), Table())
      ensures OnlyCharges(old(View()), View(), p.sample.topic)
    {
      for i := 0 to |targets|
        invariant Valid() && OnlyCharges(old(View()), View(), p.sample.topic)
        invariant HadTheirTurn(targets[..i], p, old(Table()), Table())
      {
        NextTurn(targets, i, p, old(Table()), Table());
        Turn(targets[i], p);
      }
      assert targets[..|targets|] == targets;
    }

    /** A late joiner gets the last transient-local sample of the topic that has the name of
        its pattern if its filters accept it, counted as no delivery. */
    method Subscribe(topic: string, depth: int, policy: Policy, accepts: Sample -> bool, partitions: seq<string>,
                     minSeparation: int, transientLocal: bool) returns (c: nat)
      requires Valid()
      modifies this
      ensures Valid() && c == |old(boxes)| && lastSample == old(lastSample)
      ensures subs == WithSub(old(subs), topic, Sub(c, accepts, partitions, minSeparation))
      ensures var ch := Opened(Inbox(if depth > 0 then depth else DEFAULT_DEPTH, policy, []));
        Chans == old(Chans) +
          [if transientLocal && topic in lastSample && accepts(lastSample[topic])
           then Put(ch, lastSample[topic], true) else ch]
      ensures lastTimes == old(lastTimes) + [map[]]
      ensures total == old(total) && topics == old(topics)
    {
      c := |boxes|;
      Register(topic, Inbox(if depth > 0 then depth else DEFAULT_DEPTH, policy, []),
          Sub(c, accepts, partitions, minSeparation));
      if transientLocal && topic in lastSample && accepts(lastSample[topic]) {
        TryReplay(c, lastSample[topic]);
      }
    }

    method Register(topic: string, box: Inbox, sub: Sub)
      requires Valid() && sub.chan == |boxes| && 0 < box.depth && box.items == []
      modifies `subs, `boxes, `lastTimes, `Ops, `Chans
      ensures Valid() && subs == WithSub(old(subs), topic, sub) && Chans == old(Chans) + [Opened(box)]
      ensures lastTimes == old(lastTimes) + [map[]]
    {
      NewChannelIsOwn(subs, |boxes|, topic, sub);
      Note(Open(box));
      boxes, lastTimes, Chans := boxes + [box], lastTimes + [map[]], Chans + [Opened(box)];
      subs := WithSub(subs, topic, sub);
    }

    /** Removes the subscription that owns the channel; the channel stays readable. */
    method RemoveSubscription(topic: string, c: nat)
      requires Valid()
      modifies `subs
      ensures Valid() && subs.Keys == old(subs).Keys
      ensures forall t <- subs :: t != topic ==> subs[t] == old(subs)[t]
      ensures topic in subs ==> forall s: Sub :: s in subs[topic] <==> s in old(subs)[topic] && s.chan != c
    {
      if topic !in subs {
        return;
      }
      var list := subs[topic];
      for i := 0 to |list|
        invariant forall j :: 0 <= j < i ==> list[j].chan != c
      {
        if list[i].chan == c {
          WithoutSubKeeps(list, i);
          RemovalKeepsOwn(subs, |boxes|, topic, i);
          subs := subs[topic := WithoutSub(list, i)];
          return;
        }
      }
    }
  }

  // ------------------------------------------------------------- replay and delivery

  /** The settings of a subscriber. */
  datatype Settings = Settings(pattern: string, depth: int, policy: Policy, accepts: Sample -> bool,
                               partitions: seq<string>, minSeparation: int)

  function SubOf(s: Settings, chan: nat): Sub
  {
    Sub(chan, s.accepts, s.partitions, s.minSeparation)
  }

  function NewChannel(s: Settings): (ch: Channel)
    ensures ch.box.depth == (if s.depth > 0 then s.depth else 64) && ch.box.policy == s.policy && ch.box.items == []
  {
    Opened(Inbox(if s.depth > 0 then s.depth else DEFAULT_DEPTH, s.policy, []))
  }

  /** A subscriber that is there when the sample is published is meant to get it. */
  predicate Delivered(s: Settings, p: Publication, allowed: bool)
  {
    && allowed && Routed(s.pattern, p.sample.topic)
    && Pushdown.PartitionsMatch(p.partitions, s.partitions) && s.accepts(p.sample)
  }

  /** One that joins after the sample was published as transient-local gets it. */
  predicate Replayed(s: Settings, p: Publication)
  {
    s.pattern == p.sample.topic && s.accepts(p.sample)
  }

  /** Whatever the filters say: on the very topic the writer is not silenced and the
      partitions match, and on a matching wildcard it is silenced or they do not. */
  predicate ReplayFits(s: Settings, p: Publication, allowed: bool)
  {
    var m := allowed && Pushdown.PartitionsMatch(p.partitions, s.partitions);
    if s.pattern == p.sample.topic then m else !(m && TopicMatches(s.pattern, p.sample.topic))
  }

  /** A late joiner gets the sample exactly if it would have got it at once, if and only if
      its filters reject the sample or the replay fits. */
  lemma ReplayExact(s: Settings, p: Publication, allowed: bool)
    ensures (Replayed(s, p) <==> Delivered(s, p, allowed)) <==> (s.accepts(p.sample) ==> ReplayFits(s, p, allowed))
  {
  }

  /** Of another partition. */
  lemma OtherPartitionReplayed(x: Sample)
    ensures var s := Settings(x.topic, 0, DropNewest, _ => true, ["B"], 0);
      var p := Publication(x, ["A"], 0);
      Replayed(s, p) && !Delivered(s, p, true)
  {
    assert forall y :: y in Pushdown.Named(["A"]) ==> y == "A";
    assert forall y :: y in Pushdown.Named(["B"]) ==> y == "B";
  }

  /** Of a writer that ownership arbitration silences. */
  lemma SilencedReplayed(x: Sample)
    ensures var s := Settings(x.topic, 0, DropNewest, _ => true, [], 0);
      var p := Publication(x, [], 0);
      Replayed(s, p) && !Delivered(s, p, false)
  {
  }

  lemma SplitOne(ch: char)
    requires ch != '/'
    ensures Split([ch]) == [[ch]]
  {
    assert [ch][1..] == [];
    assert [ch] + [] == [ch];
  }

  /** To a wildcard, whose pattern is looked up as a topic. */
  lemma WildcardNotReplayed(x: Sample)
    requires x.topic == "a"
    ensures var s := Settings("+", 0, DropNewest, _ => true, [], 0);
      var p := Publication(x, [], 0);
      !Replayed(s, p) && Delivered(s, p, true)
  {
    SplitOne('+');
    SplitOne('a');
    assert MatchSlices(["+"], ["a"]) by { assert MatchSlices([], []); }
    assert "" in Pushdown.Named([]);
  }

  lemma NotAddressed(subs: map<string, seq<Sub>>, n: nat, pattern: string, sub: Sub, topic: string)
    requires OwnChannels(subs, n) && pattern in subs && sub in subs[pattern] && !Routed(pattern, topic)
    ensures forall t <- MatchingPatterns(subs, topic), s <- subs[t] :: s.chan != sub.chan
  {
    forall t <- MatchingPatterns(subs, topic), s <- subs[t] ensures s.chan != sub.chan {
      assert Apart(subs[t], subs[pattern]);
    }
  }

  /** What a publication does to a subscriber that has heard of nobody yet. */
  lemma NewcomersTurn(subs: map<string, seq<Sub>>, s: Settings, c: nat, p: Publication, was: Slots, now: Slots)
    requires OwnChannels(subs, |was.chans|) && s.pattern in subs && SubOf(s, c) in subs[s.pattern]
    requires c < |was.times| && was.times[c] == map[] && Published(subs, p, was, now)
    ensures now.chans[c] == if Delivered(s, p, true) then Offered(was.chans[c], p.sample) else was.chans[c]
  {
    var topic := p.sample.topic;
    if Routed(s.pattern, topic) {
      assert s.pattern in MatchingPatterns(subs, topic);
    } else {
      NotAddressed(subs, |was.chans|, s.pattern, SubOf(s, c), topic);
    }
  }

  /** The channel of a subscriber that joins when the given samples are stored. */
  function Joined(s: Settings, last: map<string, Sample>): Channel
  {
    if s.pattern in last && s.accepts(last[s.pattern]) then Put(NewChannel(s), last[s.pattern], true) else NewChannel(s)
  }

  /** The same channel after the publication. */
  function JoinedBefore(s: Settings, last: map<string, Sample>, p: Publication, allowed: bool): Channel
  {
    if Delivered(s, p, allowed) then Offered(Joined(s, last), p.sample) else Joined(s, last)
  }

  method JoinThenPublish(b: Broker, s: Settings, p: Publication, allowed: bool) returns (early: nat)
    requires b.Valid()
    modifies b
    ensures b.Valid() && early == |old(b.Chans)| && |b.Chans| == early + 1
    ensures b.Chans[early] == JoinedBefore(s, old(b.lastSample), p, allowed)
    ensures b.lastSample == old(b.lastSample)[p.sample.topic := p.sample]
  {
    early := b.Subscribe(s.pattern, s.depth, s.policy, s.accepts, s.partitions, s.minSeparation, true);
    ghost var was := b.Table();
    assert was.chans[early] == Joined(s, old(b.lastSample));
    b.Publish(p, true, allowed);
    if allowed { NewcomersTurn(b.subs, s, early, p, was, b.Table()); }
  }

  /** Two subscribers with the same settings, one before and one after a transient-local
      publication. The first is offered the sample exactly if `Delivered` says so, and the
      second holds it exactly if `Replayed` does; if the first began with nothing, the two
      channels then hold the same exactly under the condition of `ReplayExact`. */
  method JoinBeforeAndAfter(b: Broker, s: Settings, p: Publication, allowed: bool) returns (early: nat, late: nat)
    requires b.Valid()
    modifies b
    ensures b.Valid() && early == |old(b.Chans)| && late == early + 1 && |b.Chans| == late + 1
    ensures var last, first := old(b.lastSample), NewChannel(s);
      && b.Chans[early] == JoinedBefore(s, last, p, allowed)
      && b.Chans[late] == (if Replayed(s, p) then Put(first, p.sample, true)
                           else if s.pattern == p.sample.topic then first else Joined(s, last))
      && (Joined(s, last) == first ==> (b.Chans[early].box == b.Chans[late].box <==>
            (s.accepts(p.sample) ==> ReplayFits(s, p, allowed))))
  {
    early := JoinThenPublish(b, s, p, allowed);
    late := b.Subscribe(s.pattern, s.depth, s.policy, s.accepts, s.partitions, s.minSeparation, true);
    assert b.Chans[late] == Joined(s, old(b.lastSample)[p.sample.topic := p.sample]);
    ReplayExact(s, p, allowed);
  }
}
