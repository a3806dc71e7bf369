/** Which local readers a sample is dispatched to, before their own filters: topic, accepted
    sources, partitions, and the arbitration between exclusive writers. */
module Dispatch {
  import opened Wire
  import opened Identity
  import opened Ownership
  import Pushdown = FilterPushdown
  import Broker

  datatype Reader = Reader(topic: string, sources: set<Guid>, partitions: seq<string>)

  /** A sample on its way to the readers of the participant `own`. The topic is empty for a
      remote writer, whose readers are found by their accepted sources. */
  datatype Arrival = Arrival(own: Prefix, source: Guid, topic: string, partitions: seq<string>)

  predicate Accepts(own: Prefix, r: Reader, g: Guid)
  {
    g.prefix == own || g in r.sources
  }

  /** Arbitration on a topic: nobody claims it, or the writer owns it. */
  ghost predicate Lets(claims: map<string, Claims>, topic: string, g: Guid)
  {
    topic in claims && claims[topic] != map[] ==> Owner(claims[topic], g)
  }

  ghost predicate Gets(claims: map<string, Claims>, r: Reader, a: Arrival)
  {
    && (a.topic == "" || Broker.Routed(r.topic, a.topic))
    && Accepts(a.own, r, a.source)
    && (a.source.prefix == a.own ==> Pushdown.PartitionsMatch(a.partitions, r.partitions))
    && Lets(claims, r.topic, a.source)
  }

  // ------------------------------------------------------------------------- the code

  ghost predicate AllValid(states: map<string, OwnershipState>)
    reads states.Values
  {
    forall t <- states :: states[t] in states.Values && states[t].Valid()
  }

  /** The claims that the arbitration states hold. */
  ghost function ClaimsIn(states: map<string, OwnershipState>): map<string, Claims>
    reads states.Values
  {
    map t | t in states && states[t] in states.Values :: states[t].strengths
  }

  method OwnershipAllows(states: map<string, OwnershipState>, topic: string, g: Guid) returns (ok: bool)
    requires AllValid(states)
    ensures ok <==> Lets(ClaimsIn(states), topic, g)
  {
    if topic !in states {
      return true;
    }
    ok := states[topic].Allows(g);
  }

  method AcceptsSource(own: Prefix, r: Reader, g: Guid) returns (ok: bool)
    ensures ok == Accepts(own, r, g)
  {
    if |r.sources| == 0 {
      return g.prefix == own;
    }
    if g.prefix == own {
      return true;
    }
    ok := g in r.sources;
  }

  /** The readers that get the sample, in the order in which they are visited. */
  method DispatchToReaders(readers: seq<Reader>, states: map<string, OwnershipState>, a: Arrival)
    returns (given: seq<Reader>)
    requires AllValid(states)
    ensures given == Given(ClaimsIn(states), readers, a)
  {
    given := [];
    for i := 0 to |readers|
      invariant given == Given(ClaimsIn(states), readers[..i], a)
    {
      var r := readers[i];
      assert readers[..i + 1][..i] == readers[..i];
      var ok := Admits(r, states, a);
      if ok {
        given := given + [r];
      }
    }
    assert readers[..|readers|] == readers;
  }

  method Admits(r: Reader, states: map<string, OwnershipState>, a: Arrival) returns (ok: bool)
    requires AllValid(states)
    ensures ok <==> Gets(ClaimsIn(states), r, a)
  {
    if a.topic != "" && r.topic != a.topic && !Broker.TopicMatches(r.topic, a.topic) {
      return false;
    }
    ok := AcceptsSource(a.own, r, a.source);
    if !ok {
      return;
    }
    if a.source.prefix == a.own {
      ok := Pushdown.CheckPartitions(a.partitions, r.partitions);
      if !ok {
        return;
      }
    }
    ok := OwnershipAllows(states, r.topic, a.source);
  }

  ghost function Given(claims: map<string, Claims>, readers: seq<Reader>, a: Arrival): seq<Reader>
  {
    if readers == [] then []
    else
      var front, r := Given(claims, readers[..|readers| - 1], a), readers[|readers| - 1];
      if Gets(claims, r, a) then front + [r] else front
  }

  // ----------------------------------------------------------------------- arbitration

  /** Whatever is claimed and whoever writes, the reader gets samples on the topic from a
      writer of its own participant only if the arbitration on the topic lets it. */
  ghost predicate Arbitrated(r: Reader, topic: string)
  {
    forall claims: map<string, Claims>, a: Arrival ::
      a.topic == topic && a.source.prefix == a.own && Gets(claims, r, a) ==> Lets(claims, topic, a.source)
  }

  /** Every reader is arbitrated under its own topic string. So the owner of a topic is the
      only one heard exactly by the readers of that very topic, and a wildcard reader that
      matches the topic hears every writer. */
  lemma ArbitratedExact(r: Reader, topic: string)
    requires topic != "" && Broker.Routed(r.topic, topic)
    ensures Arbitrated(r, topic) <==> r.topic == topic
  {
    if r.topic != topic {
      WildcardHearsAll(r, topic, ZERO_GUID, ZERO_GUID.(entity := [0, 0, 0, 1]));
      assert !Arbitrated(r, topic);
    }
  }

  /** A writer that another one outbids on the topic is heard by such a reader. */
  lemma WildcardHearsAll(r: Reader, topic: string, g: Guid, h: Guid)
    requires topic != "" && r.topic != topic && Broker.Routed(r.topic, topic) && g != h
    ensures var claims, a := map[topic := map[h := 1]], Arrival(g.prefix, g, topic, r.partitions);
      Gets(claims, r, a) && !Lets(claims, topic, g)
  {
    var claims: map<string, Claims> := map[topic := map[h := 1]];
    var a := Arrival(g.prefix, g, topic, r.partitions);
    assert Pushdown.Named(r.partitions)[0] in Pushdown.Named(r.partitions);
    assert h in claims[topic] && claims[topic] != map[] && g !in claims[topic];
  }

  /** A writer without a claim of its own is let through exactly where nobody claims the
      topic, so a shared writer is silenced by any exclusive one. */
  lemma SharedWriterExact(claims: map<string, Claims>, topic: string, g: Guid)
    requires topic in claims ==> g !in claims[topic]
    ensures Lets(claims, topic, g) <==> topic !in claims || claims[topic] == map[]
  {
  }

  /** At most one writer with which a reader is matched is heard on a claimed topic. */
  lemma OneIsHeard(claims: map<string, Claims>, r: Reader, a: Arrival, b: Arrival)
    requires r.topic in claims && claims[r.topic] != map[] && Gets(claims, r, a) && Gets(claims, r, b)
    ensures a.source == b.source
  {
    OwnerUnique(claims[r.topic], a.source, b.source);
  }

  /** A writer of the own participant is heard by the readers of a matching topic with a common
      partition, and a remote one by the readers that accept it, wherever they are let. */
  lemma GetsExact(claims: map<string, Claims>, r: Reader, a: Arrival)
    ensures a.source.prefix == a.own && a.topic != "" ==> (Gets(claims, r, a) <==>
      (r.topic == a.topic || Broker.TopicMatches(r.topic, a.topic))
      && Pushdown.PartitionsMatch(r.partitions, a.partitions) && Lets(claims, r.topic, a.source))
    ensures a.source.prefix != a.own && a.topic == "" ==>
      (Gets(claims, r, a) <==> a.source in r.sources && Lets(claims, r.topic, a.source))
  {
    Pushdown.PartitionsExact(a.partitions, r.partitions);
  }

  /** Of one reader, and of the readers in two parts: with this the list is determined. */
  lemma {:induction false} GivenIs(claims: map<string, Claims>, xs: seq<Reader>, ys: seq<Reader>, r: Reader, a: Arrival)
    ensures Given(claims, [r], a) == if Gets(claims, r, a) then [r] else []
    ensures Given(claims, xs + ys, a) == Given(claims, xs, a) + Given(claims, ys, a)
    decreases |ys|
  {
    assert [r][..0] == [];
    if ys == [] {
      assert xs + ys == xs;
    } else {
      var n := |ys| - 1;
      GivenIs(claims, xs, ys[..n], r, a);
      assert (xs + ys)[..|xs + ys| - 1] == xs + ys[..n] && (xs + ys)[|xs + ys| - 1] == ys[n];
    }
  }
}
