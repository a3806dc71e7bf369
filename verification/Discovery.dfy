/** Discovery tables: known participants with their leases, the remote endpoints they
    announced, the ownership claims of their writers, the writers that local readers accept
    samples from, and the liveliness notices given.

    Goroutines of three kinds work on them. One receives participant announcements, some
    receive endpoint announcements, and one evicts participants whose lease has expired. Each
    changes the tables under a lock and does the rest after it has released it: the first
    and the last give notice, and those in between tell the matched readers about a writer.
    So each of them may owe something while the others go on. */
module Discovery {
  import opened Wire
  import opened Identity
  import opened Ownership
  import Pushdown = FilterPushdown

  const DEFAULT_LEASE: int := 10_000_000_000

  datatype Peer = Peer(lease: int, lastSeen: int)

  datatype WriterInfo = WriterInfo(topic: string, partitions: seq<string>, exclusive: bool, strength: int)

  datatype ReaderInfo = ReaderInfo(topic: string, partitions: seq<string>)

  datatype Notice = Gained(prefix: Prefix) | Lost(prefix: Prefix)

  /** A writer that was stored and whose matched readers have still to be told. */
  datatype Match = Match(g: Guid, readers: set<Bytes>, loc: Locator)

  /** `local` holds the readers of this participant by entity id, and `sources` the writers
      each of them accepts. `matching` are the writers whose readers have still to be told.
      `greeting` is the participant whose gained notice is owed; `leaving` are those whose
      lost notice is owed, in order, the endpoints of the first being removed already if
      `cleared`. */
  datatype Tables = Tables(
    local: map<Bytes, ReaderInfo>,
    sources: map<Bytes, set<Guid>>,
    peers: map<Prefix, Peer>,
    writers: map<Guid, WriterInfo>,
    writerLocs: map<Guid, Locator>,
    readers: map<Guid, ReaderInfo>,
    readerLocs: map<Guid, Locator>,
    claims: map<string, Claims>,
    notices: seq<Notice>,
    matching: multiset<Match>,
    greeting: Option<Prefix>,
    leaving: seq<Prefix>,
    cleared: bool)

  function NothingKnown(local: map<Bytes, ReaderInfo>): Tables
  {
    Tables(local, map e | e in local :: {}, map[], map[], map[], map[], map[], map[], [], multiset{}, None, [], false)
  }

  predicate Expired(p: Peer, now: int)
  {
    now - p.lastSeen > (if p.lease == 0 then DEFAULT_LEASE else p.lease)
  }

  function ClaimsOn(t: Tables, topic: string): Claims
  {
    if topic in t.claims then t.claims[topic] else map[]
  }

  /** The local readers that a remote writer is matched with. */
  function MatchedReaders(local: map<Bytes, ReaderInfo>, info: WriterInfo): set<Bytes>
  {
    set e | e in local && local[e].topic == info.topic && Pushdown.PartitionsMatch(local[e].partitions, info.partitions)
  }

  method MatchLocal(local: map<Bytes, ReaderInfo>, info: WriterInfo) returns (matched: set<Bytes>)
    ensures matched == MatchedReaders(local, info)
  {
    matched := {};
    var todo := local.Keys;
    while todo != {}
      invariant todo <= local.Keys && matched == MatchedReaders(local, info) - todo
      decreases |todo|
    {
      var e :| e in todo;
      todo := todo - {e};
      var together := Pushdown.CheckPartitions(local[e].partitions, info.partitions);
      if local[e].topic == info.topic && together {
        matched := matched + {e};
      }
    }
  }

  function WithPeer(t: Tables, prefix: Prefix, lease: int, now: int): Tables
  {
    t.(peers := t.peers[prefix := Peer(if lease == 0 then DEFAULT_LEASE else lease, now)],
       greeting := if prefix in t.peers then t.greeting else Some(prefix))
  }

  function AddWriter(t: Tables, g: Guid, info: WriterInfo, loc: Locator): Tables
  {
    t.(writers := t.writers[g := info],
       claims := if !info.exclusive then t.claims
                 else t.claims[info.topic := ClaimsOn(t, info.topic)[g := info.strength]],
       matching := t.matching + multiset{Match(g, MatchedReaders(t.local, info), loc)})
  }

  /** The writer is accepted by the given readers. */
  function Told(sources: map<Bytes, set<Guid>>, g: Guid, readers: set<Bytes>): map<Bytes, set<Guid>>
  {
    map e | e in sources :: if e in readers then sources[e] + {g} else sources[e]
  }

  lemma ToldOneMore(sources: map<Bytes, set<Guid>>, g: Guid, done: set<Bytes>, e: Bytes)
    ensures var now := Told(sources, g, done);
      Told(sources, g, done + {e}) == if e in now then now[e := now[e] + {g}] else now
  {
  }

  function TellReaders(t: Tables, m: Match): Tables
  {
    t.(sources := Told(t.sources, m.g, m.readers),
       writerLocs := if m.readers != {} then t.writerLocs[m.g := m.loc] else t.writerLocs,
       matching := t.matching - multiset{m})
  }

  function AddReader(t: Tables, g: Guid, info: ReaderInfo, loc: Locator): Tables
  {
    t.(readers := t.readers[g := info], readerLocs := t.readerLocs[g := loc])
  }

  /** The writer's claim on the topic is withdrawn when its participant goes. */
  predicate StepsDown(t: Tables, prefix: Prefix, topic: string, g: Guid)
  {
    g.prefix == prefix && g in t.writers && t.writers[g].exclusive && t.writers[g].topic == topic
  }

  function OfOthers<T>(m: map<Guid, T>, prefix: Prefix): map<Guid, T>
  {
    map g | g in m && g.prefix != prefix :: m[g]
  }

  /** Removes the endpoints of a participant and the claims of its exclusive writers. */
  function EvictPeer(t: Tables, prefix: Prefix): Tables
  {
    t.(writers := OfOthers(t.writers, prefix),
       writerLocs := OfOthers(t.writerLocs, prefix),
       readers := OfOthers(t.readers, prefix),
       readerLocs := LocsWithout(t, prefix),
       claims := ClaimsWithout(t, prefix))
  }

  function LocsWithout(t: Tables, prefix: Prefix): map<Guid, Locator>
  {
    map g | g in t.readerLocs && !(g in t.readers && g.prefix == prefix) :: t.readerLocs[g]
  }

  function ClaimsWithout(t: Tables, prefix: Prefix): map<string, Claims>
  {
    map topic | topic in t.claims ::
      map g | g in t.claims[topic] && !StepsDown(t, prefix, topic, g) :: t.claims[topic][g]
  }

  /** Half-way through the writers: those in `todo` have not been visited. */
  ghost predicate Evicting(t: Tables, prefix: Prefix, todo: set<Guid>, writers: map<Guid, WriterInfo>,
      claims: map<string, Claims>)
  {
    && todo <= t.writers.Keys
    && writers == (map g | g in t.writers && (g.prefix != prefix || g in todo) :: t.writers[g])
    && claims.Keys == t.claims.Keys
    && forall topic <- t.claims :: SteppingDown(t, prefix, todo, topic, claims[topic])
  }

  ghost predicate SteppingDown(t: Tables, prefix: Prefix, todo: set<Guid>, topic: string, left: Claims)
    requires topic in t.claims
  {
    && (forall g: Guid :: g in left <==> g in t.claims[topic] && (g in todo || !StepsDown(t, prefix, topic, g)))
    && forall g: Guid :: g in left ==> left[g] == t.claims[topic][g]
  }

  function Withdraw(claims: map<string, Claims>, info: WriterInfo, g: Guid): map<string, Claims>
    requires info.exclusive ==> info.topic in claims
  {
    if info.exclusive then claims[info.topic := claims[info.topic] - {g}] else claims
  }

  /** Visiting a writer of the participant. */
  lemma EvictOne(t: Tables, prefix: Prefix, todo: set<Guid>, g: Guid, writers: map<Guid, WriterInfo>,
      claims: map<string, Claims>)
    requires Evicting(t, prefix, todo, writers, claims) && g in todo && g.prefix == prefix
    requires t.writers[g].exclusive ==> t.writers[g].topic in t.claims
    ensures g in writers && Evicting(t, prefix, todo - {g}, writers - {g}, Withdraw(claims, writers[g], g))
  {
    var left := Withdraw(claims, writers[g], g);
    forall topic <- t.claims ensures SteppingDown(t, prefix, todo - {g}, topic, left[topic]) {
      assert SteppingDown(t, prefix, todo, topic, claims[topic]);
    }
  }

  /** Passing over a writer of another participant. */
  lemma PassOver(t: Tables, prefix: Prefix, todo: set<Guid>, g: Guid, writers: map<Guid, WriterInfo>,
      claims: map<string, Claims>)
    requires Evicting(t, prefix, todo, writers, claims) && g in todo && g.prefix != prefix
    ensures Evicting(t, prefix, todo - {g}, writers, claims)
  {
    forall topic <- t.claims ensures SteppingDown(t, prefix, todo - {g}, topic, claims[topic]) {
      assert SteppingDown(t, prefix, todo, topic, claims[topic]);
    }
  }

  /** Half-way through the readers. */
  ghost predicate Leaving(t: Tables, prefix: Prefix, todo: set<Guid>, readers: map<Guid, ReaderInfo>,
      locs: map<Guid, Locator>)
  {
    && todo <= t.readers.Keys
    && readers == (map g | g in t.readers && (g.prefix != prefix || g in todo) :: t.readers[g])
    && locs == map g | g in t.readerLocs && !(g in t.readers && g.prefix == prefix && g !in todo) :: t.readerLocs[g]
  }

  lemma LeaveOne(t: Tables, prefix: Prefix, todo: set<Guid>, g: Guid, readers: map<Guid, ReaderInfo>,
      locs: map<Guid, Locator>)
    requires Leaving(t, prefix, todo, readers, locs) && g in todo
    ensures if g.prefix == prefix then Leaving(t, prefix, todo - {g}, readers - {g}, locs - {g})
            else Leaving(t, prefix, todo - {g}, readers, locs)
  {
  }

  lemma WritersEvicted(t: Tables, prefix: Prefix, writers: map<Guid, WriterInfo>, claims: map<string, Claims>)
    requires Evicting(t, prefix, {}, writers, claims)
    ensures writers == OfOthers(t.writers, prefix) && claims == ClaimsWithout(t, prefix)
  {
    forall topic <- t.claims ensures claims[topic] == ClaimsWithout(t, prefix)[topic] {
      assert SteppingDown(t, prefix, {}, topic, claims[topic]);
    }
  }

  ghost predicate Distinct(order: seq<Prefix>)
  {
    forall i, j :: 0 <= i < j < |order| ==> order[i] != order[j]
  }

  /** `order` lists the participants whose lease has expired. */
  ghost predicate ListsExpired(t: Tables, now: int, order: seq<Prefix>)
  {
    Distinct(order) && forall p: Prefix :: p in order <==> p in t.peers && Expired(t.peers[p], now)
  }

  function Drop(t: Tables, order: seq<Prefix>): (u: Tables)
    ensures u.peers.Keys == t.peers.Keys - (set p <- order)
  {
    t.(peers := t.peers - (set p <- order), leaving := order, cleared := false)
  }

  // -------------------------------------------------------------------------- events

  /** What the goroutines do, step by step. */
  datatype Event =
    | Announced(prefix: Prefix, lease: int, now: int)
    | Greeted
    | WriterFound(g: Guid, writer: WriterInfo, loc: Locator)
    | Matched(m: Match)
    | ReaderFound(g: Guid, reader: ReaderInfo, loc: Locator)
    | Dropped(now: int, order: seq<Prefix>)
    | Cleared
    | Dismissed

  /** What is owed comes before it is done, and the first and the last goroutine finish what
      they have begun before they begin anew. */
  ghost predicate Possible(t: Tables, e: Event)
  {
    match e
    case Announced(_, _, _) => t.greeting.None?
    case Greeted => t.greeting.Some?
    case Matched(m) => m in t.matching
    case Dropped(now, order) => t.leaving == [] && ListsExpired(t, now, order)
    case Cleared => t.leaving != [] && !t.cleared
    case Dismissed => t.leaving != [] && t.cleared
    case _ => true
  }

  function After(t: Tables, e: Event): Tables
  {
    match e
    case Announced(p, lease, now) => WithPeer(t, p, lease, now)
    case Greeted =>
      if t.greeting.None? then t else t.(notices := t.notices + [Gained(t.greeting.value)], greeting := None)
    case WriterFound(g, info, loc) => AddWriter(t, g, info, loc)
    case Matched(m) => TellReaders(t, m)
    case ReaderFound(g, info, loc) => AddReader(t, g, info, loc)
    case Dropped(_, order) => Drop(t, order)
    case Cleared => if t.leaving == [] then t else EvictPeer(t, t.leaving[0]).(cleared := true)
    case Dismissed =>
      if t.leaving == [] then t
      else t.(notices := t.notices + [Lost(t.leaving[0])], leaving := t.leaving[1..], cleared := false)
  }

  ghost predicate IsRun(t: Tables, es: seq<Event>)
    decreases |es|
  {
    es == [] || (Possible(t, es[0]) && IsRun(After(t, es[0]), es[1..]))
  }

  function Run(t: Tables, es: seq<Event>): Tables
    decreases |es|
  {
    if es == [] then t else Run(After(t, es[0]), es[1..])
  }

  /** The rest of a sweep that nothing interrupts. */
  function Evictions(t: Tables): Tables
    decreases |t.leaving|
  {
    if t.leaving == [] then t else Evictions(After(After(t, Cleared), Dismissed))
  }

  class DiscoveryService {
    const local: map<Bytes, ReaderInfo>
    var sources: map<Bytes, set<Guid>>
    var peers: map<Prefix, Peer>
    var writers: map<Guid, WriterInfo>
    var writerLocs: map<Guid, Locator>
    var readers: map<Guid, ReaderInfo>
    var readerLocs: map<Guid, Locator>
    var claims: map<string, Claims>
    var notices: seq<Notice>
    /** What the announcement loops and the eviction loop have still to do. */
    ghost var matching: multiset<Match>
    var greeting: Option<Prefix>
    var leaving: seq<Prefix>
    var cleared: bool

    ghost function View(): Tables
      reads this
    {
      Tables(local, sources, peers, writers, writerLocs, readers, readerLocs, claims, notices, matching,
        greeting, leaving, cleared)
    }

    /** The topic of every exclusive writer has an arbitration state. */
    ghost predicate Valid()
      reads `writers, `claims
    {
      forall g <- writers :: writers[g].exclusive ==> writers[g].topic in claims
    }

    constructor (local: map<Bytes, ReaderInfo>)
      ensures Valid() && View() == NothingKnown(local)
    {
      this.local := local;
      sources, matching := map e | e in local :: {}, multiset{};
      peers, writers, writerLocs, readers, readerLocs, claims := map[], map[], map[], map[], map[], map[];
      notices, greeting, leaving, cleared := [], None, [], false;
    }

    /** An announcement up to the release of the lock. */
    method StorePeer(prefix: Prefix, lease: int, now: int)
      requires Valid() && greeting.None?
      modifies this
      ensures Valid() && View() == After(old(View()), Announced(prefix, lease, now))
    {
      var existed := prefix in peers;
      peers := peers[prefix := Peer(if lease == 0 then DEFAULT_LEASE else lease, now)];
      if !existed {
        greeting := Some(prefix);
      }
    }

    /** Its notice. */
    method Greet()
      requires Valid()
      modifies this
      ensures Valid() && View() == After(old(View()), Greeted)
    {
      if greeting.Some? {
        notices := notices + [Gained(greeting.value)];
        greeting := None;
      }
    }

    /** A writer's announcement up to the release of the lock. */
    method StoreWriter(g: Guid, info: WriterInfo, loc: Locator) returns (m: Match)
      requires Valid()
      modifies `writers, `claims, `matching
      ensures Valid() && View() == After(old(View()), WriterFound(g, info, loc))
      ensures m == Match(g, MatchedReaders(local, info), loc)
    {
      writers := writers[g := info];
      if info.exclusive {
        var before := if info.topic in claims then claims[info.topic] else map[];
        claims := claims[info.topic := before[g := info.strength]];
      }
      var matched := MatchLocal(local, info);
      m := Match(g, matched, loc);
      matching := matching + multiset{m};
    }

    /** What follows it. */
    method NotifyReaders(m: Match)
      requires Valid()
      modifies `sources, `writerLocs, `matching
      ensures Valid() && View() == TellReaders(old(View()), m)
    {
      ghost var was := View();
      AddSource(m.g, m.readers);
      assert View() == was.(sources := Told(was.sources, m.g, m.readers));
      AddWriterLocator(m);
      matching := matching - multiset{m};
    }

    method AddWriterLocator(m: Match)
      modifies `writerLocs
      ensures writerLocs == if m.readers != {} then old(writerLocs)[m.g := m.loc] else old(writerLocs)
    {
      if m.readers != {} {
        writerLocs := writerLocs[m.g := m.loc];
      }
    }

    /** Each matched reader is told, in whatever order. */
    method AddSource(g: Guid, readers: set<Bytes>)
      modifies `sources
      ensures sources == Told(old(sources), g, readers)
    {
      var todo := readers;
      assert Told(sources, g, {}) == sources;
      while todo != {}
        invariant todo <= readers && sources == Told(old(sources), g, readers - todo)
        decreases |todo|
      {
        var e :| e in todo;
        ToldOneMore(old(sources), g, readers - todo, e);
        assert readers - (todo - {e}) == readers - todo + {e};
        todo := todo - {e};
        if e in sources {
          sources := sources[e := sources[e] + {g}];
        }
      }
      assert readers - todo == readers;
    }

    /** A writer's announcement when nothing else happens meanwhile. */
    method OnRemoteWriter(g: Guid, info: WriterInfo, loc: Locator) returns (m: Match)
      requires Valid()
      modifies this
      ensures Valid() && m == Match(g, MatchedReaders(local, info), loc)
      ensures View() == TellReaders(AddWriter(old(View()), g, info, loc), m)
    {
      m := StoreWriter(g, info, loc);
      NotifyReaders(m);
    }

    method OnRemoteReader(g: Guid, info: ReaderInfo, loc: Locator)
      requires Valid()
      modifies this
      ensures Valid() && View() == After(old(View()), ReaderFound(g, info, loc))
    {
      readers := readers[g := info];
      readerLocs := readerLocs[g := loc];
    }

    /** Visits the endpoints in whatever order the maps yield them. */
    method OnPeerEvicted(prefix: Prefix)
      requires Valid()
      modifies `writers, `writerLocs, `readers, `readerLocs, `claims
      ensures Valid() && View() == EvictPeer(old(View()), prefix)
    {
      ghost var was := View();
      EvictWriters(prefix);
      assert View() == was.(writers := OfOthers(was.writers, prefix), claims := ClaimsWithout(was, prefix));
      EvictReaders(prefix);
      assert readers == OfOthers(was.readers, prefix) && readerLocs == LocsWithout(was, prefix);
      EvictWriterLocs(prefix);
    }

    method EvictWriterLocs(prefix: Prefix)
      modifies `writerLocs
      ensures writerLocs == OfOthers(old(writerLocs), prefix)
    {
      var todo := writerLocs.Keys;
      while todo != {}
        invariant todo <= old(writerLocs).Keys
        invariant writerLocs == map g | g in old(writerLocs) && (g.prefix != prefix || g in todo) :: old(writerLocs)[g]
        decreases |todo|
      {
        var g :| g in todo;
        todo := todo - {g};
        if g.prefix == prefix {
          writerLocs := writerLocs - {g};
        }
      }
    }

    method EvictWriters(prefix: Prefix)
      requires Valid()
      modifies `writers, `claims
      ensures Valid() && writers == OfOthers(old(writers), prefix) && claims == ClaimsWithout(old(View()), prefix)
    {
      var todo := writers.Keys;
      while todo != {}
        invariant Evicting(old(View()), prefix, todo, writers, claims)
        decreases |todo|
      {
        var g :| g in todo;
        if g.prefix == prefix {
          EvictOne(old(View()), prefix, todo, g, writers, claims);
          var info := writers[g];
          if info.exclusive {
            claims := claims[info.topic := claims[info.topic] - {g}];
          }
          writers := writers - {g};
        } else {
          PassOver(old(View()), prefix, todo, g, writers, claims);
        }
        todo := todo - {g};
      }
      WritersEvicted(old(View()), prefix, writers, claims);
    }

    method EvictReaders(prefix: Prefix)
      modifies `readers, `readerLocs
      ensures readers == OfOthers(old(readers), prefix) && readerLocs == LocsWithout(old(View()), prefix)
    {
      var todo := readers.Keys;
      while todo != {}
        invariant Leaving(old(View()), prefix, todo, readers, readerLocs)
        decreases |todo|
      {
        var g :| g in todo;
        LeaveOne(old(View()), prefix, todo, g, readers, readerLocs);
        if g.prefix == prefix {
          readers := readers - {g};
          readerLocs := readerLocs - {g};
        }
        todo := todo - {g};
      }
    }

    /** A whole sweep, when nothing else happens meanwhile. */
    method Sweep(now: int) returns (order: seq<Prefix>)
      requires Valid() && leaving == []
      modifies this
      ensures Valid() && Possible(old(View()), Dropped(now, order))
      ensures View() == Evictions(After(old(View()), Dropped(now, order)))
    {
      order := DropExpired(now);
      ghost var start := View();
      while leaving != []
        invariant Valid() && !cleared && Evictions(View()) == Evictions(start)
        decreases |leaving|
      {
        ghost var before := View();
        Clear();
        Dismiss();
        assert View() == After(After(before, Cleared), Dismissed);
      }
    }

    method Clear()
      requires Valid() && leaving != [] && !cleared
      modifies this
      ensures Valid() && View() == After(old(View()), Cleared)
    {
      OnPeerEvicted(leaving[0]);
      cleared := true;
    }

    method Dismiss()
      requires Valid() && leaving != [] && cleared
      modifies this
      ensures Valid() && View() == After(old(View()), Dismissed)
    {
      notices := notices + [Lost(leaving[0])];
      leaving, cleared := leaving[1..], false;
    }

    /** Drops the expired participants, visiting them in whatever order the map yields. */
    method DropExpired(now: int) returns (order: seq<Prefix>)
      requires leaving == []
      modifies `peers, `leaving, `cleared
      ensures Possible(old(View()), Dropped(now, order)) && View() == After(old(View()), Dropped(now, order))
    {
      order := RemoveExpired(now);
      leaving, cleared := order, false;
    }

    method RemoveExpired(now: int) returns (order: seq<Prefix>)
      modifies `peers
      ensures ListsExpired(old(View()), now, order) && peers == old(peers) - (set p <- order)
    {
      order := [];
      var todo := peers.Keys;
      while todo != {}
        invariant todo <= peers.Keys <= old(peers.Keys) && peers == old(peers) - (set p <- order)
        invariant Distinct(order)
        invariant forall p: Prefix :: p in order <==> p in old(peers.Keys) - todo && Expired(old(peers)[p], now)
        decreases |todo|
      {
        var p :| p in todo;
        todo := todo - {p};
        if Expired(peers[p], now) {
          peers := peers - {p};
          order := order + [p];
        }
      }
    }
  }

  // --------------------------------------------------------------- notices in every run

  /** The last notice about the participant is that it was gained. */
  predicate Present(notices: seq<Notice>, p: Prefix)
  {
    notices != [] &&
    (var n, front := notices[|notices| - 1], notices[..|notices| - 1];
     if n.prefix == p then n.Gained? else Present(front, p))
  }

  /** Notices about each participant alternate, beginning with gained. */
  ghost predicate Alternate(notices: seq<Notice>)
  {
    forall i :: 0 <= i < |notices| ==> (notices[i].Gained? <==> !Present(notices[..i], notices[i].prefix))
  }

  /** The step gives no notice before an older one about the same participant: a participant
      that came back while its loss is owed is not greeted yet, and one that was dropped
      before it was greeted is not dismissed yet. */
  predicate InTurn(t: Tables, e: Event)
  {
    match e
    case Greeted => t.greeting.Some? ==> !(t.greeting.value in t.leaving && t.greeting.value in t.peers)
    case Dismissed => t.leaving != [] ==> !(t.greeting == Some(t.leaving[0]) && t.leaving[0] !in t.peers)
    case _ => true
  }

  predicate AllInTurn(t: Tables, es: seq<Event>)
    decreases |es|
  {
    es == [] || (InTurn(t, es[0]) && AllInTurn(After(t, es[0]), es[1..]))
  }

  /** Whether the last notice is gained, as the table and the owed notices tell. */
  predicate Reported(t: Tables, p: Prefix)
  {
    if t.greeting == Some(p) then p in t.leaving && p in t.peers else p in t.leaving || p in t.peers
  }

  ghost predicate NoticesInv(t: Tables)
  {
    && Alternate(t.notices) && Distinct(t.leaving)
    && (forall p: Prefix :: Present(t.notices, p) <==> Reported(t, p))
    && (forall p: Prefix :: p in t.peers && p in t.leaving ==> t.greeting == Some(p))
    && (t.greeting.Some? ==> t.greeting.value in t.peers || t.greeting.value in t.leaving)
  }

  lemma NoticeKeeps(notices: seq<Notice>, n: Notice)
    requires Alternate(notices)
    ensures Alternate(notices + [n]) <==> (n.Gained? <==> !Present(notices, n.prefix))
    ensures forall p: Prefix :: Present(notices + [n], p) <==> if p == n.prefix then n.Gained? else Present(notices, p)
  {
    var all := notices + [n];
    assert all[..|all| - 1] == notices;
    assert all[|notices|] == n;
    forall i | 0 <= i < |notices| ensures all[i].Gained? <==> !Present(all[..i], all[i].prefix) {
      assert all[..i] == notices[..i];
    }
  }

  lemma BrokenStays(notices: seq<Notice>, n: Notice)
    requires !Alternate(notices)
    ensures !Alternate(notices + [n])
  {
    var all := notices + [n];
    var i :| 0 <= i < |notices| && !(notices[i].Gained? <==> !Present(notices[..i], notices[i].prefix));
    assert all[i] == notices[i] && all[..i] == notices[..i];
  }

  lemma Tail(order: seq<Prefix>)
    requires Distinct(order) && order != []
    ensures Distinct(order[1..]) && order[0] !in order[1..]
    ensures forall q: Prefix :: q in order <==> q == order[0] || q in order[1..]
  {
  }

  /** A step in turn keeps the notices in order, and a step out of turn breaks them. */
  lemma NoticeStep(t: Tables, e: Event)
    requires NoticesInv(t) && Possible(t, e)
    ensures InTurn(t, e) ==> NoticesInv(After(t, e))
    ensures !InTurn(t, e) ==> !Alternate(After(t, e).notices)
  {
    match e
    case Announced(p, lease, now) => AnnouncedStep(t, p, lease, now);
    case Greeted => GreetedStep(t);
    case Dropped(now, order) => DroppedStep(t, now, order);
    case Dismissed => DismissedStep(t);
    case _ => assert SameNotices(t, After(t, e));
  }

  predicate SameNotices(t: Tables, u: Tables)
  {
    u.notices == t.notices && u.peers == t.peers && u.greeting == t.greeting && u.leaving == t.leaving
  }

  lemma AnnouncedStep(t: Tables, p: Prefix, lease: int, now: int)
    requires NoticesInv(t) && t.greeting.None?
    ensures NoticesInv(WithPeer(t, p, lease, now))
  {
    var u := WithPeer(t, p, lease, now);
    forall q: Prefix ensures Reported(u, q) <==> Reported(t, q) { }
  }

  lemma GreetedStep(t: Tables)
    requires NoticesInv(t) && t.greeting.Some?
    ensures InTurn(t, Greeted) ==> NoticesInv(After(t, Greeted))
    ensures !InTurn(t, Greeted) ==> !Alternate(After(t, Greeted).notices)
  {
    var p, u := t.greeting.value, After(t, Greeted);
    NoticeKeeps(t.notices, Gained(p));
    forall q: Prefix | q != p ensures Reported(u, q) <==> Reported(t, q) { }
  }

  lemma DroppedStep(t: Tables, now: int, order: seq<Prefix>)
    requires NoticesInv(t) && t.leaving == [] && ListsExpired(t, now, order)
    ensures NoticesInv(Drop(t, order))
  {
    var u := Drop(t, order);
    forall q: Prefix ensures Reported(u, q) <==> Reported(t, q) {
      assert q in u.peers <==> q in t.peers && q !in order;
    }
  }

  lemma DismissedStep(t: Tables)
    requires NoticesInv(t) && t.leaving != []
    ensures InTurn(t, Dismissed) ==> NoticesInv(After(t, Dismissed))
    ensures !InTurn(t, Dismissed) ==> !Alternate(After(t, Dismissed).notices)
  {
    var p, u := t.leaving[0], After(t, Dismissed);
    NoticeKeeps(t.notices, Lost(p));
    Tail(t.leaving);
    forall q: Prefix | q != p ensures Reported(u, q) <==> Reported(t, q) { }
  }

  lemma {:induction false} BrokenRun(t: Tables, es: seq<Event>)
    requires !Alternate(t.notices)
    ensures !Alternate(Run(t, es).notices)
    decreases |es|
  {
    if es != [] {
      BrokenStep(t, es[0]);
      BrokenRun(After(t, es[0]), es[1..]);
    }
  }

  lemma BrokenStep(t: Tables, e: Event)
    requires !Alternate(t.notices)
    ensures !Alternate(After(t, e).notices)
  {
    if e.Greeted? && t.greeting.Some? {
      BrokenStays(t.notices, Gained(t.greeting.value));
    } else if e.Dismissed? && t.leaving != [] {
      BrokenStays(t.notices, Lost(t.leaving[0]));
    } else {
      assert After(t, e).notices == t.notices;
    }
  }

  /** In a run of the goroutines the notices of every participant alternate, beginning
      with gained, exactly when all are given in turn; and then, once none is owed, the last
      notice tells whether the participant is known. */
  lemma {:induction false} NoticesExact(t: Tables, es: seq<Event>)
    requires NoticesInv(t) && IsRun(t, es)
    ensures Alternate(Run(t, es).notices) <==> AllInTurn(t, es)
    ensures AllInTurn(t, es) ==> NoticesInv(Run(t, es))
    decreases |es|
  {
    if es != [] {
      NoticeStep(t, es[0]);
      if InTurn(t, es[0]) {
        NoticesExact(After(t, es[0]), es[1..]);
      } else {
        BrokenRun(After(t, es[0]), es[1..]);
      }
    }
  }

  lemma SettledNotices(t: Tables, p: Prefix)
    requires NoticesInv(t) && t.greeting.None? && t.leaving == []
    ensures Present(t.notices, p) <==> p in t.peers
  {
  }

  lemma Then(t: Tables, e: Event, es: seq<Event>)
    ensures Run(t, [e] + es) == Run(After(t, e), es)
    ensures IsRun(t, [e] + es) <==> Possible(t, e) && IsRun(After(t, e), es)
  {
    assert ([e] + es)[1..] == es;
  }

  /** A participant is dropped and comes back before it is dismissed. */
  function ComeBack(p: Prefix, now: int): seq<Event>
  {
    [Dropped(now, [p])] + ([Announced(p, 0, now)] + ([Greeted] + ([Cleared] + ([Dismissed] + []))))
  }

  /** It is greeted twice, and is then known but last reported lost. */
  lemma Overtaken(t: Tables, p: Prefix, now: int)
    requires t.greeting.None? && t.leaving == [] && ListsExpired(t, now, [p])
    ensures var u := Run(t, ComeBack(p, now));
      IsRun(t, ComeBack(p, now)) && p in u.peers && u.notices == t.notices + [Gained(p)] + [Lost(p)]
  {
    var t1 := After(t, Dropped(now, [p]));
    var t2 := After(t1, Announced(p, 0, now));
    Returned(t, p, now);
    var t3 := After(t2, Greeted);
    var t4 := After(t3, Cleared);
    Then(t4, Dismissed, []);
    Then(t3, Cleared, [Dismissed] + []);
    Then(t2, Greeted, [Cleared] + ([Dismissed] + []));
    Then(t1, Announced(p, 0, now), [Greeted] + ([Cleared] + ([Dismissed] + [])));
    Then(t, Dropped(now, [p]), [Announced(p, 0, now)] + ([Greeted] + ([Cleared] + ([Dismissed] + []))));
  }

  lemma Returned(t: Tables, p: Prefix, now: int)
    requires t.greeting.None? && t.leaving == [] && ListsExpired(t, now, [p])
    ensures var u := After(After(t, Dropped(now, [p])), Announced(p, 0, now));
      u.greeting == Some(p) && u.leaving == [p] && p in u.peers && u.notices == t.notices && !u.cleared
  {
  }

  /** The first announcement of a participant, whose lease lapses after it. */
  lemma FirstGreeting(local: map<Bytes, ReaderInfo>, p: Prefix)
    ensures var t1 := After(NothingKnown(local), Announced(p, 1, 0));
      && t1.greeting == Some(p) && t1.leaving == []
      && (var t2 := After(t1, Greeted);
          t2.greeting.None? && t2.leaving == [] && t2.notices == [Gained(p)] && ListsExpired(t2, 2, [p]))
  {
    assert After(NothingKnown(local), Announced(p, 1, 0)).peers == map[p := Peer(1, 0)];
  }

  /** From the start: a first announcement, a lapsed lease and a return. */
  lemma GreetedTwice(local: map<Bytes, ReaderInfo>, p: Prefix)
    ensures var t, es := NothingKnown(local), [Announced(p, 1, 0)] + ([Greeted] + ComeBack(p, 2));
      IsRun(t, es) && p in Run(t, es).peers && !Present(Run(t, es).notices, p) && !Alternate(Run(t, es).notices)
  {
    var t0 := NothingKnown(local);
    var t1 := After(t0, Announced(p, 1, 0));
    FirstGreeting(local, p);
    Overtaken(After(t1, Greeted), p, 2);
    Then(t1, Greeted, ComeBack(p, 2));
    Then(t0, Announced(p, 1, 0), [Greeted] + ComeBack(p, 2));
    GainedTwice(p);
  }

  lemma GainedTwice(p: Prefix)
    ensures var n := [Gained(p)] + [Gained(p)] + [Lost(p)]; !Alternate(n) && !Present(n, p)
  {
    var n := [Gained(p)] + [Gained(p)] + [Lost(p)];
    assert n[..1] == [Gained(p)] && Present([Gained(p)], p) && n[1] == Gained(p) && n[2] == Lost(p);
  }

  // ---------------------------------------------------------------- tables in every run

  /** Every claim belongs to a known writer that announced it: what keeps eviction complete. */
  ghost predicate ClaimsBacked(t: Tables)
  {
    Backed(t.claims, t.writers)
  }

  ghost predicate Backed(claims: map<string, Claims>, writers: map<Guid, WriterInfo>)
  {
    forall topic <- claims, g <- claims[topic] :: g in writers && writers[g].exclusive && writers[g].topic == topic
  }

  /** Readers and their locators are stored together, and every exclusive writer holds its
      claim. */
  ghost predicate TablesInv(t: Tables)
  {
    && t.readers.Keys == t.readerLocs.Keys
    && forall g <- t.writers :: t.writers[g].exclusive ==> g in ClaimsOn(t, t.writers[g].topic)
  }

  lemma StepKeepsTables(t: Tables, e: Event)
    requires TablesInv(t)
    ensures TablesInv(After(t, e))
  {
  }

  /** In every run, whatever the order of the notices. */
  lemma {:induction false} RunKeepsInv(t: Tables, es: seq<Event>)
    requires TablesInv(t)
    ensures TablesInv(Run(t, es))
    decreases |es|
  {
    if es != [] {
      StepKeepsTables(t, es[0]);
      RunKeepsInv(After(t, es[0]), es[1..]);
    }
  }

  lemma NothingKnownIsValid(local: map<Bytes, ReaderInfo>)
    ensures TablesInv(NothingKnown(local)) && NoticesInv(NothingKnown(local)) && ClaimsBacked(NothingKnown(local))
  {
  }

  // ------------------------------------------------------------- ownership claims

  /** Every topic the writer claims is the exclusive topic it has announced last. */
  predicate ClaimsCurrent(t: Tables, g: Guid)
  {
    forall topic <- t.claims :: g in t.claims[topic] ==> StepsDown(t, g.prefix, topic, g)
  }

  /** Nothing is left of the endpoint in the tables of endpoints, locators and claims. */
  predicate Forgotten(t: Tables, g: Guid)
  {
    && g !in t.writers && g !in t.writerLocs && g !in t.readers && g !in t.readerLocs
    && forall topic <- t.claims :: g !in t.claims[topic]
  }

  /** The removal of a participant's endpoints leaves nothing of an endpoint exactly when
      its claims are current; of other participants it changes nothing. */
  lemma ClearExact(t: Tables, g: Guid)
    requires t.readers.Keys == t.readerLocs.Keys && t.leaving != []
    ensures var u := After(t, Cleared);
      && (ClaimsCurrent(u, g) <==> ClaimsCurrent(t, g))
      && (Forgotten(u, g) <==> if g.prefix == t.leaving[0] then ClaimsCurrent(t, g) else Forgotten(t, g))
    ensures After(t, Cleared).readers.Keys == After(t, Cleared).readerLocs.Keys
  {
    var p, u := t.leaving[0], After(t, Cleared);
    forall topic <- t.claims ensures g in u.claims[topic] <==> g in t.claims[topic] && !StepsDown(t, p, topic, g) {
    }
  }

  /** The same for a whole sweep. */
  lemma {:induction false} SweepExact(t: Tables, g: Guid)
    requires t.readers.Keys == t.readerLocs.Keys
    ensures g.prefix in t.leaving ==> (Forgotten(Evictions(t), g) <==> ClaimsCurrent(t, g))
    ensures g.prefix !in t.leaving ==> (Forgotten(Evictions(t), g) <==> Forgotten(t, g))
    decreases |t.leaving|
  {
    if t.leaving != [] {
      var u := After(After(t, Cleared), Dismissed);
      ClearExact(t, g);
      assert g.prefix in t.leaving <==> g.prefix == t.leaving[0] || g.prefix in u.leaving;
      SweepExact(u, g);
    }
  }

  /** The writer does not change its topic or give up exclusive ownership. */
  predicate Steady(t: Tables, e: Event)
  {
    e.WriterFound? && e.g in t.writers && t.writers[e.g].exclusive ==>
      e.writer.exclusive && e.writer.topic == t.writers[e.g].topic
  }

  /** Claims stay backed by known writers in a step exactly when the announcement is steady. */
  lemma ClaimsStayBacked(t: Tables, e: Event)
    requires ClaimsBacked(t) && TablesInv(t)
    ensures ClaimsBacked(After(t, e)) <==> Steady(t, e)
  {
    if Steady(t, e) { StepBacked(t, e); } else { UnsteadyLeavesClaim(t, e.g, e.writer, e.loc); }
  }

  lemma UnsteadyLeavesClaim(t: Tables, g: Guid, info: WriterInfo, loc: Locator)
    requires g in t.writers && g in ClaimsOn(t, t.writers[g].topic)
      && !(info.exclusive && info.topic == t.writers[g].topic)
    ensures !ClaimsBacked(AddWriter(t, g, info, loc))
  {
    var topic, u := t.writers[g].topic, AddWriter(t, g, info, loc);
    assert topic in u.claims && g in u.claims[topic];
    assert u.writers[g] == info;
  }

  ghost predicate SteadyRun(t: Tables, es: seq<Event>)
    decreases |es|
  {
    es == [] || (Steady(t, es[0]) && SteadyRun(After(t, es[0]), es[1..]))
  }

  lemma {:induction false} SteadyRunBacked(t: Tables, es: seq<Event>)
    requires ClaimsBacked(t) && SteadyRun(t, es)
    ensures ClaimsBacked(Run(t, es))
    decreases |es|
  {
    if es != [] {
      StepBacked(t, es[0]);
      SteadyRunBacked(After(t, es[0]), es[1..]);
    }
  }

  lemma StepBacked(t: Tables, e: Event)
    requires ClaimsBacked(t) && Steady(t, e)
    ensures ClaimsBacked(After(t, e))
  {
    match e
    case WriterFound(g, info, loc) => WriterBacked(t, g, info, loc);
    case Cleared => if t.leaving != [] { EvictionBacked(t, t.leaving[0]); }
    case _ =>
  }

  lemma WriterBacked(t: Tables, g: Guid, info: WriterInfo, loc: Locator)
    requires ClaimsBacked(t) && Steady(t, WriterFound(g, info, loc))
    ensures ClaimsBacked(AddWriter(t, g, info, loc))
  {
  }

  lemma EvictionBacked(t: Tables, prefix: Prefix)
    requires ClaimsBacked(t)
    ensures ClaimsBacked(EvictPeer(t, prefix))
  {
  }

  /** So after a steady run a sweep leaves nothing of the participants it evicts. */
  lemma EvictionIsComplete(local: map<Bytes, ReaderInfo>, es: seq<Event>, g: Guid)
    requires SteadyRun(NothingKnown(local), es) && g.prefix in Run(NothingKnown(local), es).leaving
    ensures Forgotten(Evictions(Run(NothingKnown(local), es)), g)
  {
    NothingKnownIsValid(local);
    RunKeepsInv(NothingKnown(local), es);
    SteadyRunBacked(NothingKnown(local), es);
    SweepExact(Run(NothingKnown(local), es), g);
  }

  /** A writer that moves from one topic to another keeps its claim on the first, and holds
      it still after its participant is evicted, where it silences every weaker writer. */
  lemma MovedWriterKeepsClaim(t: Tables, g: Guid, a: WriterInfo, b: WriterInfo, loc: Locator, now: int)
    requires a.exclusive && a.topic != b.topic && t.leaving == [] && ListsExpired(t, now, [g.prefix])
    ensures var moved := After(After(t, WriterFound(g, a, loc)), WriterFound(g, b, loc));
      var u := After(After(moved, Dropped(now, [g.prefix])), Cleared);
      && Possible(moved, Dropped(now, [g.prefix])) && Possible(After(moved, Dropped(now, [g.prefix])), Cleared)
      && g.prefix !in u.peers && g !in u.writers && g in ClaimsOn(u, a.topic) && ClaimsOn(u, a.topic)[g] == a.strength
  {
    var moved := After(After(t, WriterFound(g, a, loc)), WriterFound(g, b, loc));
    assert g in ClaimsOn(moved, a.topic) && ClaimsOn(moved, a.topic)[g] == a.strength && moved.writers[g] == b;
    StaleClaimSurvives(After(moved, Dropped(now, [g.prefix])), g, a.topic);
  }

  lemma StaleClaimSurvives(t: Tables, g: Guid, topic: string)
    requires g in ClaimsOn(t, topic) && !StepsDown(t, g.prefix, topic, g)
    ensures var u := EvictPeer(t, g.prefix);
      g !in u.writers && g in ClaimsOn(u, topic) && ClaimsOn(u, topic)[g] == ClaimsOn(t, topic)[g]
  {
  }

  // ------------------------------------------------------------ what eviction leaves

  /** The local reader accepts samples of the writer. */
  predicate Accepts(t: Tables, e: Bytes, g: Guid)
  {
    e in t.sources && g in t.sources[e]
  }

  /** It has still to be told about the writer. */
  ghost predicate Owed(t: Tables, e: Bytes, g: Guid)
  {
    exists m :: m in t.matching && m.g == g && e in m.readers
  }

  /** The event is an announcement of the writer that matches the reader. */
  predicate Matches(local: map<Bytes, ReaderInfo>, ev: Event, e: Bytes, g: Guid)
  {
    ev.WriterFound? && ev.g == g && e in MatchedReaders(local, ev.writer)
  }

  ghost predicate EverMatched(local: map<Bytes, ReaderInfo>, es: seq<Event>, e: Bytes, g: Guid)
  {
    exists i :: 0 <= i < |es| && Matches(local, es[i], e, g)
  }

  ghost predicate Admitted(t: Tables, e: Bytes, g: Guid)
  {
    Accepts(t, e, g) || Owed(t, e, g)
  }

  lemma TellingAdmits(t: Tables, m: Match, e: Bytes, g: Guid)
    requires m in t.matching && e in t.sources
    ensures Admitted(TellReaders(t, m), e, g) <==> Admitted(t, e, g)
  {
    var u := TellReaders(t, m);
    if Owed(t, e, g) {
      var n :| n in t.matching && n.g == g && e in n.readers;
      assert n == m || n in u.matching;
    }
    if Owed(u, e, g) {
      var n :| n in u.matching && n.g == g && e in n.readers;
      assert n in t.matching;
    }
  }

  lemma FindingAdmits(t: Tables, ev: Event, e: Bytes, g: Guid)
    requires ev.WriterFound?
    ensures Admitted(After(t, ev), e, g) <==> Admitted(t, e, g) || Matches(t.local, ev, e, g)
  {
    var m, u := Match(ev.g, MatchedReaders(t.local, ev.writer), ev.loc), After(t, ev);
    assert forall n :: n in u.matching <==> n in t.matching || n == m;
    if Owed(t, e, g) {
      var n :| n in t.matching && n.g == g && e in n.readers;
      assert n in u.matching;
    }
    if Matches(t.local, ev, e, g) { assert m in u.matching; }
  }

  lemma StepAdmits(t: Tables, ev: Event, e: Bytes, g: Guid)
    requires Possible(t, ev) && e in t.sources
    ensures var u := After(t, ev);
      && u.local == t.local && u.sources.Keys == t.sources.Keys
      && (Admitted(u, e, g) <==> Admitted(t, e, g) || Matches(t.local, ev, e, g))
  {
    match ev
    case WriterFound(_, _, _) => FindingAdmits(t, ev, e, g);
    case Matched(m) => TellingAdmits(t, m, e, g);
    case _ =>
      var u := After(t, ev);
      assert u.sources == t.sources && u.matching == t.matching;
  }

  /** In every run a reader accepts a writer, or has still to be told about it, if and only if
      it was so at first or an announcement matched the two since. No eviction matters. */
  lemma {:induction false} SourcesExact(t: Tables, es: seq<Event>, e: Bytes, g: Guid)
    requires IsRun(t, es) && e in t.sources
    ensures Admitted(Run(t, es), e, g) <==> Admitted(t, e, g) || EverMatched(t.local, es, e, g)
    decreases |es|
  {
    if es != [] {
      StepAdmits(t, es[0], e, g);
      SourcesExact(After(t, es[0]), es[1..], e, g);
      EverMatchedHead(t.local, es, e, g);
    }
  }

  lemma EverMatchedHead(local: map<Bytes, ReaderInfo>, es: seq<Event>, e: Bytes, g: Guid)
    requires es != []
    ensures EverMatched(local, es, e, g) <==> Matches(local, es[0], e, g) || EverMatched(local, es[1..], e, g)
  {
    if EverMatched(local, es, e, g) {
      var i :| 0 <= i < |es| && Matches(local, es[i], e, g);
      assert i == 0 || es[1..][i - 1] == es[i];
    }
    if EverMatched(local, es[1..], e, g) {
      var i :| 0 <= i < |es[1..]| && Matches(local, es[1..][i], e, g);
      assert es[1..][i] == es[i + 1];
    }
  }

  /** So from the start, once nobody has to be told anything, a reader accepts exactly the
      writers that ever matched it, whether their participants are still there or not. */
  lemma AcceptsWhatEverMatched(local: map<Bytes, ReaderInfo>, es: seq<Event>, e: Bytes, g: Guid)
    requires IsRun(NothingKnown(local), es) && e in local
    requires Run(NothingKnown(local), es).matching == multiset{}
    ensures Accepts(Run(NothingKnown(local), es), e, g) <==> EverMatched(local, es, e, g)
  {
    SourcesExact(NothingKnown(local), es, e, g);
  }

  /** The step brings something of the endpoint into the tables. */
  predicate BringsIn(e: Event, g: Guid)
  {
    || (e.WriterFound? && e.g == g)
    || (e.ReaderFound? && e.g == g)
    || (e.Matched? && e.m.g == g && e.m.readers != {})
  }

  /** A forgotten endpoint stays forgotten in a step exactly unless the step brings something
      of it in. */
  lemma StaysForgotten(t: Tables, e: Event, g: Guid)
    requires Forgotten(t, g)
    ensures Forgotten(After(t, e), g) <==> !BringsIn(e, g)
  {
    match e
    case WriterFound(h, w, loc) => FoundForgotten(t, h, w, ReaderInfo(w.topic, w.partitions), loc, g);
    case ReaderFound(h, r, loc) => FoundForgotten(t, h, WriterInfo(r.topic, r.partitions, false, 0), r, loc, g);
    case Cleared => if t.leaving != [] { EvictedForgotten(t, t.leaving[0], g); }
    case _ =>
  }

  lemma FoundForgotten(t: Tables, h: Guid, w: WriterInfo, r: ReaderInfo, loc: Locator, g: Guid)
    requires Forgotten(t, g)
    ensures Forgotten(AddWriter(t, h, w, loc), g) <==> h != g
    ensures Forgotten(AddReader(t, h, r, loc), g) <==> h != g
  {
  }

  lemma EvictedForgotten(t: Tables, prefix: Prefix, g: Guid)
    requires Forgotten(t, g)
    ensures Forgotten(EvictPeer(t, prefix), g)
  {
  }

  lemma StoredThenEvicted(t: Tables, g: Guid, info: WriterInfo, loc: Locator, now: int)
    requires TablesInv(t) && Forgotten(t, g) && t.leaving == [] && ListsExpired(t, now, [g.prefix])
    ensures var m, t1 := Match(g, MatchedReaders(t.local, info), loc), AddWriter(t, g, info, loc);
      var t2 := Drop(t1, [g.prefix]);
      && m in t1.matching && ListsExpired(t1, now, [g.prefix]) && t1.leaving == []
      && g.prefix !in t2.peers && ClaimsCurrent(t2, g) && t2.readers.Keys == t2.readerLocs.Keys
      && t2.matching == t1.matching && t2.sources == t.sources && t2.leaving == [g.prefix] && !t2.cleared
  {
  }

  /** A new writer is stored, its participant is evicted so that nothing is left of it, and
      only then its matched readers are told: the locator is back and they accept it, of a
      participant that is not known and so will not expire again. */
  lemma ToldTooLate(t: Tables, g: Guid, info: WriterInfo, loc: Locator, now: int, e: Bytes)
    requires TablesInv(t) && Forgotten(t, g) && t.leaving == [] && ListsExpired(t, now, [g.prefix])
    requires e in MatchedReaders(t.local, info) && e in t.sources
    ensures var m, drop := Match(g, MatchedReaders(t.local, info), loc), Dropped(now, [g.prefix]);
      var t1 := After(t, WriterFound(g, info, loc));
      var t2 := After(t1, drop);
      var t3 := After(t2, Cleared);
      var t4 := After(t3, Matched(m));
      && Possible(t1, drop) && Possible(t2, Cleared) && Possible(t3, Matched(m))
      && Forgotten(t3, g) && !Forgotten(t4, g)
      && g.prefix !in t4.peers && g in t4.writerLocs && t4.writerLocs[g] == loc && Accepts(t4, e, g)
  {
    StoredThenEvicted(t, g, info, loc, now);
    var t2 := Drop(AddWriter(t, g, info, loc), [g.prefix]);
    ClearExact(t2, g);
    TellingBrings(After(t2, Cleared), Match(g, MatchedReaders(t.local, info), loc), e);
  }

  lemma TellingBrings(t: Tables, m: Match, e: Bytes)
    requires e in m.readers && e in t.sources
    ensures var u := TellReaders(t, m);
      m.g in u.writerLocs && u.writerLocs[m.g] == m.loc && Accepts(u, e, m.g) && u.peers == t.peers
  {
  }

  // ----------------------------------------------------------- what the tables say

  /** A participant expires when more than its lease has passed since it was last heard, a
      lease of nothing standing for ten seconds. */
  lemma LeaseExact(t: Tables, p: Prefix, lease: int, heard: int, now: int)
    ensures var u := After(t, Announced(p, lease, heard));
      && p in u.peers
      && (Expired(u.peers[p], now) <==> now - heard > (if lease == 0 then 10_000_000_000 else lease))
      && forall q: Prefix :: q != p ==> (q in u.peers <==> q in t.peers) && (q in t.peers ==> u.peers[q] == t.peers[q])
  {
  }

  /** What was announced last stands in the tables: an announcement is stored as it is. */
  lemma AnnouncementStored(t: Tables, g: Guid, w: WriterInfo, r: ReaderInfo, loc: Locator)
    ensures var u := After(t, WriterFound(g, w, loc)); g in u.writers && u.writers[g] == w
    ensures var u := After(t, ReaderFound(g, r, loc));
      g in u.readers && u.readers[g] == r && g in u.readerLocs && u.readerLocs[g] == loc
    ensures w.exclusive ==> var u := After(t, WriterFound(g, w, loc));
      g in ClaimsOn(u, w.topic) && ClaimsOn(u, w.topic)[g] == w.strength
  {
  }

  predicate SameOf(t: Tables, u: Tables, g: Guid)
  {
    && (g in u.writers <==> g in t.writers) && (g in t.writers ==> u.writers[g] == t.writers[g])
    && (g in u.readers <==> g in t.readers) && (g in t.readers ==> u.readers[g] == t.readers[g])
  }

  /** And nothing touches it but another announcement of it or an eviction of its participant:
      not what happens to participants, not the telling of readers, and not what concerns other
      endpoints and other participants. */
  lemma AnnouncementStands(t: Tables, g: Guid, p: Prefix, lease: int, now: int, m: Match)
    ensures SameOf(t, WithPeer(t, p, lease, now), g) && SameOf(t, TellReaders(t, m), g)
  {
  }

  lemma DroppingLeavesAlone(t: Tables, g: Guid, order: seq<Prefix>)
    ensures SameOf(t, Drop(t, order), g)
  {
    var u := Drop(t, order);
    assert u.writers == t.writers && u.readers == t.readers;
  }

  lemma EvictionLeavesAlone(t: Tables, g: Guid, p: Prefix)
    requires g.prefix != p
    ensures SameOf(t, EvictPeer(t, p), g)
  {
    var u := EvictPeer(t, p);
    assert u.writers == OfOthers(t.writers, p) && u.readers == OfOthers(t.readers, p);
  }

  lemma OthersLeaveAlone(t: Tables, g: Guid, h: Guid, w: WriterInfo, r: ReaderInfo, loc: Locator)
    requires h != g
    ensures SameOf(t, AddWriter(t, h, w, loc), g) && SameOf(t, AddReader(t, h, r, loc), g)
  {
  }

  /** A local reader is matched with a remote writer exactly if a writer on that topic and
      those partitions would be matched with such a remote reader: both sides agree. */
  lemma MatchingAgrees(local: map<Bytes, ReaderInfo>, e: Bytes, info: WriterInfo, g: Guid, loc: Locator)
    requires e in local && loc.kind != -1
    ensures var reader := Pushdown.ReaderInfo(local[e].topic, local[e].partitions, None);
      e in MatchedReaders(local, info) <==>
        Pushdown.Matched(Pushdown.Table(map[g := reader], map[g := loc], info.topic, info.partitions), g)
  {
    var reader := Pushdown.ReaderInfo(local[e].topic, local[e].partitions, None);
    Pushdown.MatchedExact(Pushdown.Table(map[g := reader], map[g := loc], info.topic, info.partitions), g);
  }
}
