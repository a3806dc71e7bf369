/** Content filters evaluated by the writer: which locators a sample is sent to, and that
    readers get the samples they would have got without it. */
module FilterPushdown {
  import opened Wire
  import opened FilterLanguage
  import opened Identity

  /** A payload, as the fields its JSON decoding yields; see `Decoded`. */
  type Payload = Option<Fields>

  /** What a payload may be as JSON. */
  datatype Json = Malformed | Null | Object(fields: Fields) | OtherValue

  /** Decoding into a map of fields: `null` is no error and yields no fields. */
  function Decoded(j: Json): Payload
  {
    match j
    case Object(f) => Some(f)
    case Null => Some(map[])
    case _ => None
  }

  datatype Filter = Filter(tree: Tree, c: Context)

  /** A missing filter matches everything; a present one fails closed on what is not JSON. */
  predicate Wants(f: Option<Filter>, p: Payload)
  {
    f.None? || (p.Some? && Meaning(f.value.tree, f.value.c, p.value))
  }

  /** Without a filter everything is wanted, and with one what its predicate says of the fields,
      but nothing that has none. */
  lemma WantsExact(f: Filter, p: Payload)
    ensures Wants(None, p) && !Wants(Some(f), None)
    ensures p.Some? ==> (Wants(Some(f), p) <==> Meaning(f.tree, f.c, p.value))
  {
  }

  /** A payload that is no object is documented never to match. This holds for a predicate if
      and only if it rejects a sample without fields, because of `null`. */
  lemma NonObjectsExact(f: Filter)
    ensures (forall j: Json :: !j.Object? ==> !Wants(Some(f), Decoded(j))) <==> !Meaning(f.tree, f.c, map[])
  {
    assert Decoded(Null) == Some(map[]);
    if !Meaning(f.tree, f.c, map[]) {
      forall j: Json | !j.Object? ensures !Wants(Some(f), Decoded(j)) {
        assert j.Malformed? || j.Null? || j.OtherValue?;
      }
    }
  }

  datatype ReaderInfo = ReaderInfo(topic: string, partitions: seq<string>, filter: Option<Filter>)

  /** Partition sets match when they intersect; no partition means the default one. */
  predicate PartitionsMatch(a: seq<string>, b: seq<string>)
  {
    exists x :: x in Named(a) && x in Named(b)
  }

  function Named(partitions: seq<string>): seq<string>
  {
    if partitions == [] then [""] else partitions
  }

  /** No partition is the unnamed one, and otherwise a common name is needed. */
  lemma PartitionsExact(a: seq<string>, b: seq<string>)
    ensures PartitionsMatch([], []) && (PartitionsMatch([], b) <==> b == [] || "" in b)
    ensures PartitionsMatch(a, b) <==> PartitionsMatch(b, a)
    ensures a != [] && b != [] ==> (PartitionsMatch(a, b) <==> exists x :: x in a && x in b)
  {
    assert "" in Named([]);
  }

  method CheckPartitions(a: seq<string>, b: seq<string>) returns (ok: bool)
    ensures ok == PartitionsMatch(a, b)
  {
    var an, bn := Named(a), Named(b);
    for i := 0 to |an|
      invariant forall x <- an[..i] :: x !in bn
    {
      for j := 0 to |bn|
        invariant an[i] !in bn[..j]
      {
        if an[i] == bn[j] {
          assert an[i] in an && an[i] in bn;
          return true;
        }
      }
    }
    ok := false;
  }

  /** The remote readers a writer on this topic and these partitions sends to. */
  datatype Table = Table(readers: map<Guid, ReaderInfo>, locs: map<Guid, Locator>, topic: string,
      partitions: seq<string>)

  predicate Matched(t: Table, g: Guid)
  {
    && g in t.readers && t.readers[g].topic == t.topic
    && PartitionsMatch(t.partitions, t.readers[g].partitions)
    && g in t.locs && t.locs[g].kind != INVALID
  }

  /** A reader is matched exactly if it has the topic and a common partition and a locator
      that is not invalid. */
  lemma MatchedExact(t: Table, g: Guid)
    ensures Matched(t, g) <==>
      && g in t.readers && t.readers[g].topic == t.topic
      && PartitionsMatch(t.readers[g].partitions, t.partitions) && g in t.locs && t.locs[g].kind != -1
  {
    if g in t.readers { PartitionsExact(t.partitions, t.readers[g].partitions); }
  }

  /** Some matched reader at the locator wants the payload. */
  ghost predicate WantedAt(t: Table, l: Locator, p: Payload)
  {
    exists g :: Matched(t, g) && t.locs[g] == l && Wants(t.readers[g].filter, p)
  }

  datatype Entry = Entry(loc: Locator, prefix: Bytes, filters: seq<Filter>)

  /** No filters stand for "send unconditionally". */
  predicate EntryMatches(e: Entry, p: Payload)
  {
    |e.filters| == 0 || exists i :: 0 <= i < |e.filters| && Wants(Some(e.filters[i]), p)
  }

  method Matches(e: Entry, p: Payload) returns (ok: bool)
    ensures ok == EntryMatches(e, p)
  {
    if |e.filters| == 0 {
      return true;
    }
    for i := 0 to |e.filters|
      invariant forall j :: 0 <= j < i ==> !Wants(Some(e.filters[j]), p)
    {
      if Wants(Some(e.filters[i]), p) {
        return true;
      }
    }
    ok := false;
  }

  /** The entry stands for exactly the readers `done` that are matched at its locator:
      unfiltered if one of them is, and otherwise with all their filters. */
  ghost predicate Merged(t: Table, done: set<Guid>, e: Entry)
  {
    && (exists g <- done :: Matched(t, g) && t.locs[g] == e.loc)
    && (e.filters == [] <==> exists g <- done :: Matched(t, g) && t.locs[g] == e.loc && t.readers[g].filter.None?)
    && (e.filters != [] ==> forall f :: f in e.filters <==>
          exists g <- done :: Matched(t, g) && t.locs[g] == e.loc && t.readers[g].filter == Some(f))
  }

  /** Each locator occurs once, where the index says. */
  ghost predicate Indexed(out: seq<Entry>, index: map<Locator, nat>)
  {
    && (forall l <- index :: index[l] < |out| && out[index[l]].loc == l)
    && forall i :: 0 <= i < |out| ==> out[i].loc in index && index[out[i].loc] == i
  }

  ghost predicate AllMerged(t: Table, done: set<Guid>, out: seq<Entry>)
  {
    forall i :: 0 <= i < |out| ==> Merged(t, done, out[i])
  }

  ghost predicate Covers(t: Table, done: set<Guid>, out: seq<Entry>, index: map<Locator, nat>)
  {
    Indexed(out, index) && AllMerged(t, done, out) && forall g <- done :: Matched(t, g) ==> t.locs[g] in index
  }

  /** Collects the locators of the matched readers, each once, visiting the readers in
      whatever order the map yields them. */
  method MatchedReaderLocators(t: Table) returns (out: seq<Entry>, index: map<Locator, nat>)
    ensures Covers(t, t.readers.Keys, out, index)
  {
    out := [];
    var at: map<Locator, nat> := map[];
    var todo := t.readers.Keys;
    while todo != {}
      invariant todo <= t.readers.Keys
      invariant Covers(t, t.readers.Keys - todo, out, at)
      decreases |todo|
    {
      ghost var done := t.readers.Keys - todo;
      var g :| g in todo;
      todo := todo - {g};
      assert t.readers.Keys - todo == done + {g};
      out, at := AddReader(t, done, g, out, at);
    }
    assert t.readers.Keys - todo == t.readers.Keys;
    index := at;
  }

  /** Merges one reader into the list. */
  method AddReader(t: Table, ghost done: set<Guid>, g: Guid, out: seq<Entry>, at: map<Locator, nat>)
    returns (out': seq<Entry>, at': map<Locator, nat>)
    requires g in t.readers && g !in done && Covers(t, done, out, at)
    ensures Covers(t, done + {g}, out', at')
  {
    out', at' := out, at;
    var info := t.readers[g];
    var together := CheckPartitions(t.partitions, info.partitions);
    if info.topic != t.topic || !together || g !in t.locs || t.locs[g].kind == INVALID {
      CoversSkip(t, done, g, out, at);
      return;
    }
    var loc := t.locs[g];
    if loc in at {
      var i := at[loc];
      var filters := out[i].filters;
      if info.filter.None? {
        filters := [];
      } else if |filters| > 0 {
        filters := filters + [info.filter.value];
      }
      CoversJoin(t, done, g, out, at, filters);
      out' := out[i := Entry(loc, out[i].prefix, filters)];
    } else {
      CoversNew(t, done, g, out, at);
      at' := at[loc := |out|];
      out' := out + [Entry(loc, g.prefix, if info.filter.None? then [] else [info.filter.value])];
    }
  }

  lemma CoversSkip(t: Table, done: set<Guid>, g: Guid, out: seq<Entry>, at: map<Locator, nat>)
    requires !Matched(t, g) && Covers(t, done, out, at)
    ensures Covers(t, done + {g}, out, at)
  {
    forall i | 0 <= i < |out| ensures Merged(t, done + {g}, out[i]) { MergedIgnores(t, done, g, out[i]); }
  }

  lemma CoversJoin(t: Table, done: set<Guid>, g: Guid, out: seq<Entry>, at: map<Locator, nat>, filters: seq<Filter>)
    requires Matched(t, g) && Covers(t, done, out, at) && t.locs[g] in at
    requires filters == Joined(out[at[t.locs[g]]].filters, t.readers[g].filter)
    ensures var i := at[t.locs[g]]; Covers(t, done + {g}, out[i := Entry(t.locs[g], out[i].prefix, filters)], at)
  {
    var k := at[t.locs[g]];
    var out' := out[k := Entry(t.locs[g], out[k].prefix, filters)];
    IndexedUpdate(out, at, k, out'[k]);
    AllMergedJoins(t, done, g, out, k, out'[k]);
  }

  function Joined(filters: seq<Filter>, filter: Option<Filter>): seq<Filter>
  {
    if filter.None? || |filters| == 0 then [] else filters + [filter.value]
  }

  lemma IndexedUpdate(out: seq<Entry>, at: map<Locator, nat>, k: nat, e: Entry)
    requires Indexed(out, at) && k < |out| && e.loc == out[k].loc
    ensures Indexed(out[k := e], at)
  {
  }

  lemma AllMergedJoins(t: Table, done: set<Guid>, g: Guid, out: seq<Entry>, k: nat, e: Entry)
    requires AllMerged(t, done, out) && k < |out| && Matched(t, g) && t.locs[g] == out[k].loc
    requires e == out[k].(filters := Joined(out[k].filters, t.readers[g].filter))
    requires forall i :: 0 <= i < |out| && i != k ==> out[i].loc != out[k].loc
    ensures AllMerged(t, done + {g}, out[k := e])
  {
    var out' := out[k := e];
    forall i | 0 <= i < |out'| ensures Merged(t, done + {g}, out'[i]) {
      if i == k { MergedJoins(t, done, g, out[k]); } else { MergedIgnores(t, done, g, out[i]); }
    }
  }

  lemma CoversNew(t: Table, done: set<Guid>, g: Guid, out: seq<Entry>, at: map<Locator, nat>)
    requires Matched(t, g) && Covers(t, done, out, at) && t.locs[g] !in at
    ensures var loc, info := t.locs[g], t.readers[g];
      Covers(t, done + {g}, out + [Entry(loc, g.prefix, if info.filter.None? then [] else [info.filter.value])],
          at[loc := |out|])
  {
    var loc, info := t.locs[g], t.readers[g];
    var e := Entry(loc, g.prefix, if info.filter.None? then [] else [info.filter.value]);
    IndexedAppend(out, at, e);
    MergedAlone(t, done, g, e);
    AllMergedAppend(t, done, g, out, e);
  }

  lemma IndexedAppend(out: seq<Entry>, at: map<Locator, nat>, e: Entry)
    requires Indexed(out, at) && e.loc !in at
    ensures Indexed(out + [e], at[e.loc := |out|])
  {
  }

  lemma AllMergedAppend(t: Table, done: set<Guid>, g: Guid, out: seq<Entry>, e: Entry)
    requires AllMerged(t, done, out) && Merged(t, done + {g}, e) && Matched(t, g) && t.locs[g] == e.loc
    requires forall i :: 0 <= i < |out| ==> out[i].loc != e.loc
    ensures AllMerged(t, done + {g}, out + [e])
  {
    forall i | 0 <= i < |out| ensures Merged(t, done + {g}, (out + [e])[i]) { MergedIgnores(t, done, g, out[i]); }
  }

  lemma MergedAlone(t: Table, done: set<Guid>, g: Guid, e: Entry)
    requires Matched(t, g) && t.locs[g] == e.loc && (forall h <- done :: Matched(t, h) ==> t.locs[h] != e.loc)
    requires e.filters == if t.readers[g].filter.None? then [] else [t.readers[g].filter.value]
    ensures Merged(t, done + {g}, e)
  {
    assert g in done + {g};
  }

  lemma MergedIgnores(t: Table, done: set<Guid>, g: Guid, e: Entry)
    requires Merged(t, done, e) && !(Matched(t, g) && t.locs[g] == e.loc)
    ensures Merged(t, done + {g}, e)
  {
    forall f ensures (exists h <- done :: Matched(t, h) && t.locs[h] == e.loc && t.readers[h].filter == Some(f))
      <==> (exists h <- done + {g} :: Matched(t, h) && t.locs[h] == e.loc && t.readers[h].filter == Some(f)) { }
  }

  lemma MergedJoins(t: Table, done: set<Guid>, g: Guid, e: Entry)
    requires Merged(t, done, e) && Matched(t, g) && t.locs[g] == e.loc
    ensures Merged(t, done + {g}, e.(filters := Joined(e.filters, t.readers[g].filter)))
  {
  }

  /** The merged list decides like the readers together: an entry matches a payload exactly
      when some reader at its locator wants it. */
  lemma EntryDecides(t: Table, out: seq<Entry>, index: map<Locator, nat>, i: nat, p: Payload)
    requires Covers(t, t.readers.Keys, out, index) && i < |out|
    ensures EntryMatches(out[i], p) <==> WantedAt(t, out[i].loc, p)
  {
    var e := out[i];
    if EntryMatches(e, p) {
      if e.filters == [] {
        var g :| g in t.readers.Keys && Matched(t, g) && t.locs[g] == e.loc && t.readers[g].filter.None?;
      } else {
        var i :| 0 <= i < |e.filters| && Wants(Some(e.filters[i]), p);
        var f := e.filters[i];
        assert f in e.filters;
        var g :| g in t.readers.Keys && Matched(t, g) && t.locs[g] == e.loc && t.readers[g].filter == Some(f);
      }
    }
    if WantedAt(t, e.loc, p) && e.filters != [] {
      var g :| Matched(t, g) && t.locs[g] == e.loc && Wants(t.readers[g].filter, p);
      assert g in t.readers.Keys && t.readers[g].filter.Some?;
      assert t.readers[g].filter.value in e.filters;
    }
  }

  // ------------------------------------------------------------------ the send choice

  /** What the writer knows of its transports: whether it can multicast, and the prefixes
      it reaches only through a relay. */
  datatype Transport = Transport(multicast: bool, relayed: set<Bytes>)

  /** Multicast is chosen when every matched reader can be reached that way and none
      filters. */
  method ChooseMulticast(out: seq<Entry>, tr: Transport) returns (multicast: bool)
    ensures multicast <==> out != [] && tr.multicast && forall i :: 0 <= i < |out| ==>
      out[i].prefix !in tr.relayed && |out[i].filters| == 0
  {
    multicast := |out| > 0 && tr.multicast;
    if multicast {
      for i := 0 to |out|
        invariant forall j :: 0 <= j < i ==> out[j].prefix !in tr.relayed && |out[j].filters| == 0
      {
        if out[i].prefix in tr.relayed || |out[i].filters| > 0 {
          return false;
        }
      }
    }
  }

  method Targets(out: seq<Entry>, p: Payload) returns (to: set<Locator>)
    ensures forall l :: l in to <==> Targeted(out, p, l)
  {
    to := {};
    for i := 0 to |out|
      invariant forall l :: l in to <==> Targeted(out[..i], p, l)
    {
      var ok := Matches(out[i], p);
      forall l: Locator
        ensures Targeted(out[..i + 1], p, l) <==> Targeted(out[..i], p, l) || (l == out[i].loc && Reachable(l) && ok)
      {
        TargetedSnoc(out, i, p, l);
      }
      if ok && Reachable(out[i].loc) {
        to := to + {out[i].loc};
      }
    }
    assert out[..|out|] == out;
  }

  ghost predicate Targeted(out: seq<Entry>, p: Payload, l: Locator)
  {
    Reachable(l) && exists i :: 0 <= i < |out| && out[i].loc == l && EntryMatches(out[i], p)
  }

  lemma TargetedSnoc(out: seq<Entry>, i: nat, p: Payload, l: Locator)
    requires i < |out|
    ensures Targeted(out[..i + 1], p, l) <==>
      Targeted(out[..i], p, l) || (l == out[i].loc && Reachable(l) && EntryMatches(out[i], p))
  {
    if Targeted(out[..i], p, l) {
      var j :| 0 <= j < i && out[..i][j].loc == l && EntryMatches(out[..i][j], p);
      assert out[..i + 1][j] == out[..i][j];
    }
    if l == out[i].loc && Reachable(l) && EntryMatches(out[i], p) { assert out[..i + 1][i] == out[i]; }
    if Targeted(out[..i + 1], p, l) {
      var j :| 0 <= j < i + 1 && out[..i + 1][j].loc == l && EntryMatches(out[..i + 1][j], p);
      if j < i { assert out[..i][j] == out[..i + 1][j]; }
    }
  }

  /** A sample of the writer gets to the locator. */
  ghost predicate Reaches(t: Table, multicast: bool, to: set<Locator>, l: Locator)
  {
    (multicast && exists g :: Matched(t, g) && t.locs[g] == l) || l in to
  }

  /** Sends one sample: it gets to exactly the locators at which some matched reader wants
      it, by multicast or by unicast. */
  method Send(t: Table, tr: Transport, p: Payload) returns (multicast: bool, to: set<Locator>)
    ensures IsSending(t, p, Sending(multicast, to))
  {
    var out, index := MatchedReaderLocators(t);
    multicast := ChooseMulticast(out, tr);
    to := {};
    if !multicast {
      to := Targets(out, p);
    }
    forall l: Locator | Reachable(l) ensures Reaches(t, multicast, to, l) <==> WantedAt(t, l, p) {
      SendExact(t, out, index, multicast, to, p, l);
    }
  }

  lemma SendExact(t: Table, out: seq<Entry>, index: map<Locator, nat>, multicast: bool, to: set<Locator>, p: Payload,
      l: Locator)
    requires Covers(t, t.readers.Keys, out, index) && Reachable(l)
    requires if multicast then to == {} && forall i :: 0 <= i < |out| ==> |out[i].filters| == 0
             else l in to <==> Targeted(out, p, l)
    ensures Reaches(t, multicast, to, l) <==> WantedAt(t, l, p)
  {
    forall j | 0 <= j < |out| ensures exists g :: Matched(t, g) && t.locs[g] == out[j].loc {
      assert Merged(t, t.readers.Keys, out[j]);
    }
    if exists g :: Matched(t, g) && t.locs[g] == l {
      var g :| Matched(t, g) && t.locs[g] == l;
      assert g in t.readers.Keys;
      var i := index[l];
      EntryDecides(t, out, index, i, p);
      if Targeted(out, p, l) {
        var j :| 0 <= j < |out| && out[j].loc == l && EntryMatches(out[j], p);
        assert i == j;
      }
      if EntryMatches(out[i], p) { assert Targeted(out, p, l); }
    }
  }

  // ------------------------------------------------------------- what readers receive

  /** The time-based filter of a reader: per writer, the time of the last sample let
      through. */
  class TimeBasedFilter {
    const minSeparation: int
    var lastDelivered: map<Guid, int>

    constructor (minSeparation: int)
      ensures this.minSeparation == minSeparation && lastDelivered == map[]
    {
      this.minSeparation, lastDelivered := minSeparation, map[];
    }

    ghost function Last(g: Guid): Option<int>
      reads this
    {
      if g in lastDelivered then Some(lastDelivered[g]) else None
    }

    method Passes(source: Guid, now: int) returns (ok: bool)
      modifies this
      ensures ok == LetThrough(old(Last(source)), minSeparation, now)
      ensures Last(source) == LastAfter(old(Last(source)), minSeparation, now)
      ensures forall g: Guid :: g != source ==> Last(g) == old(Last(g))
    {
      if minSeparation <= 0 {
        return true;
      }
      if source in lastDelivered && now - lastDelivered[source] < minSeparation {
        return false;
      }
      lastDelivered := lastDelivered[source := now];
      ok := true;
    }
  }

  predicate LetThrough(last: Option<int>, minSeparation: int, now: int)
  {
    minSeparation <= 0 || last.None? || now - last.value >= minSeparation
  }

  function LastAfter(last: Option<int>, minSeparation: int, now: int): Option<int>
  {
    if minSeparation > 0 && LetThrough(last, minSeparation, now) then Some(now) else last
  }

  /** Which of the samples that arrive at the given times pass. */
  function Passing(times: seq<int>, last: Option<int>, minSeparation: int): (r: seq<bool>)
    ensures |r| == |times|
    decreases |times|
  {
    if times == [] then []
    else
      var next := LastAfter(last, minSeparation, times[0]);
      [LetThrough(last, minSeparation, times[0])] + Passing(times[1..], next, minSeparation)
  }

  /** The j-th is the last one before the i-th that passes. */
  predicate LastPassing(pass: seq<bool>, j: nat, i: nat)
    requires i < |pass|
  {
    j < i && pass[j] && forall k :: j < k < i ==> !pass[k]
  }

  predicate NonePassing(pass: seq<bool>, i: nat)
    requires i < |pass|
  {
    forall k :: 0 <= k < i ==> !pass[k]
  }

  /** Without a separation all pass. With one a sample passes exactly if it comes at least that
      long after the last that passed, or none has. */
  lemma {:induction false} PassingExact(times: seq<int>, last: Option<int>, minSeparation: int, i: nat)
    requires i < |times|
    ensures var pass := Passing(times, last, minSeparation);
      && (minSeparation <= 0 ==> pass[i])
      && (minSeparation > 0 && NonePassing(pass, i) ==> (pass[i] <==> LetThrough(last, minSeparation, times[i])))
      && (minSeparation > 0 ==> forall j: nat :: LastPassing(pass, j, i) ==>
            (pass[i] <==> times[i] - times[j] >= minSeparation))
    decreases |times|
  {
    var pass, next := Passing(times, last, minSeparation), LastAfter(last, minSeparation, times[0]);
    if i > 0 {
      PassingExact(times[1..], next, minSeparation, i - 1);
      var rest := Passing(times[1..], next, minSeparation);
      assert pass == [LetThrough(last, minSeparation, times[0])] + rest;
      forall j: nat | LastPassing(pass, j, i) && minSeparation > 0
        ensures pass[i] <==> times[i] - times[j] >= minSeparation
      {
        LastPassingBehind(pass, rest, j, i);
      }
      if NonePassing(pass, i) { NonePassingBehind(pass, rest, i); }
    }
  }

  lemma LastPassingBehind(pass: seq<bool>, rest: seq<bool>, j: nat, i: nat)
    requires 0 < i < |pass| && rest == pass[1..] && LastPassing(pass, j, i)
    ensures if j > 0 then LastPassing(rest, j - 1, i - 1) else NonePassing(rest, i - 1)
  {
    assert forall k :: 0 <= k < |rest| ==> rest[k] == pass[k + 1];
  }

  lemma NonePassingBehind(pass: seq<bool>, rest: seq<bool>, i: nat)
    requires 0 < i < |pass| && rest == pass[1..] && NonePassing(pass, i)
    ensures NonePassing(rest, i - 1) && !pass[0]
  {
    assert forall k :: 0 <= k < |rest| ==> rest[k] == pass[k + 1];
  }

  /** The first sample of a writer always passes. */
  lemma FirstPasses(minSeparation: int, now: int)
    ensures LetThrough(None, minSeparation, now)
  {
  }

  datatype Sample = Sample(time: int, payload: Payload)

  /** What the reader's queue gets of the samples that arrive: the time-based filter comes
      first, and counts samples that the content filter then rejects. */
  function Delivered(samples: seq<Sample>, last: Option<int>, minSeparation: int, f: Option<Filter>): seq<Sample>
    decreases |samples|
  {
    if samples == [] then []
    else
      var s := samples[0];
      (if LetThrough(last, minSeparation, s.time) && Wants(f, s.payload) then [s] else [])
      + Delivered(samples[1..], LastAfter(last, minSeparation, s.time), minSeparation, f)
  }

  function Times(samples: seq<Sample>): (times: seq<int>)
    ensures |times| == |samples| && forall i :: 0 <= i < |samples| ==> times[i] == samples[i].time
  {
    if samples == [] then [] else [samples[0].time] + Times(samples[1..])
  }

  /** The samples that are picked, in their order. */
  function Picked(samples: seq<Sample>, pick: seq<bool>): seq<Sample>
    requires |pick| == |samples|
  {
    if samples == [] then [] else (if pick[0] then [samples[0]] else []) + Picked(samples[1..], pick[1..])
  }

  /** The queue gets exactly the samples that pass the time-based filter and are wanted. */
  lemma {:induction false} DeliveredExact(samples: seq<Sample>, last: Option<int>, minSeparation: int,
      f: Option<Filter>, pick: seq<bool>)
    requires |pick| == |samples|
    requires var pass := Passing(Times(samples), last, minSeparation);
      forall i :: 0 <= i < |samples| ==> (pick[i] <==> pass[i] && Wants(f, samples[i].payload))
    ensures Delivered(samples, last, minSeparation, f) == Picked(samples, pick)
    decreases |samples|
  {
    if samples != [] {
      var pass, s := Passing(Times(samples), last, minSeparation), samples[0];
      var next := LastAfter(last, minSeparation, s.time);
      assert Times(samples)[1..] == Times(samples[1..]);
      var rest := Passing(Times(samples[1..]), next, minSeparation);
      assert forall i :: 0 <= i < |samples| - 1 ==> pass[i + 1] == rest[i];
      forall i | 0 <= i < |samples[1..]| ensures pick[1..][i] <==> rest[i] && Wants(f, samples[1..][i].payload) {
        assert pick[i + 1] <==> pass[i + 1] && Wants(f, samples[i + 1].payload);
      }
      DeliveredExact(samples[1..], next, minSeparation, f, pick[1..]);
    }
  }

  /** What arrives when the writer withholds what `sent` rejects. */
  function Kept(samples: seq<Sample>, sent: Payload -> bool): seq<Sample>
  {
    if samples == [] then [] else (if sent(samples[0].payload) then [samples[0]] else []) + Kept(samples[1..], sent)
  }

  ghost predicate Transparent(minSeparation: int, f: Option<Filter>, sent: Payload -> bool)
  {
    forall samples: seq<Sample> :: Delivered(Kept(samples, sent), None, minSeparation, f) ==
      Delivered(samples, None, minSeparation, f)
  }

  lemma {:induction false} NoSeparation(samples: seq<Sample>, minSeparation: int, f: Option<Filter>,
      sent: Payload -> bool)
    requires minSeparation <= 0 && forall p :: Wants(f, p) ==> sent(p)
    ensures Delivered(Kept(samples, sent), None, minSeparation, f) == Delivered(samples, None, minSeparation, f)
    decreases |samples|
  {
    if samples != [] {
      NoSeparation(samples[1..], minSeparation, f, sent);
      var s, rest := samples[0], Kept(samples[1..], sent);
      if sent(s.payload) {
        assert ([s] + rest)[1..] == rest;
      } else {
        assert [] + rest == rest;
      }
    }
  }

  lemma {:induction false} KeptAll(samples: seq<Sample>, sent: Payload -> bool)
    requires forall p :: sent(p)
    ensures Kept(samples, sent) == samples
  {
    if samples != [] { KeptAll(samples[1..], sent); }
  }

  lemma {:induction false} NoneDelivered(samples: seq<Sample>, last: Option<int>, minSeparation: int, f: Option<Filter>)
    requires forall p :: !Wants(f, p)
    ensures Delivered(samples, last, minSeparation, f) == []
    decreases |samples|
  {
    if samples != [] { NoneDelivered(samples[1..], LastAfter(last, minSeparation, samples[0].time), minSeparation, f); }
  }

  /** Withholding samples at the writer changes nothing of what a reader receives, over any
      stream of samples, exactly when the reader has no minimum separation, or nothing is
      ever withheld from it, or nothing ever matches. */
  lemma PushdownExact(minSeparation: int, f: Option<Filter>, sent: Payload -> bool)
    requires forall p :: Wants(f, p) ==> sent(p)
    ensures Transparent(minSeparation, f, sent) <==>
      minSeparation <= 0 || (forall p :: sent(p)) || (forall p :: !Wants(f, p))
  {
    if minSeparation <= 0 || (forall p :: sent(p)) || (forall p :: !Wants(f, p)) {
      forall samples: seq<Sample>
        ensures Delivered(Kept(samples, sent), None, minSeparation, f) == Delivered(samples, None, minSeparation, f)
      {
        if minSeparation <= 0 {
          NoSeparation(samples, minSeparation, f, sent);
        } else if forall p :: sent(p) {
          KeptAll(samples, sent);
        } else {
          NoneDelivered(samples, None, minSeparation, f);
          NoneDelivered(Kept(samples, sent), None, minSeparation, f);
        }
      }
    } else {
      var withheld :| !sent(withheld);
      var wanted :| Wants(f, wanted);
      TooSoon(minSeparation, f, sent, withheld, wanted);
    }
  }

  lemma TooSoon(minSeparation: int, f: Option<Filter>, sent: Payload -> bool, withheld: Payload, wanted: Payload)
    requires minSeparation > 0 && !sent(withheld) && sent(wanted) && !Wants(f, withheld) && Wants(f, wanted)
    ensures var samples := [Sample(0, withheld), Sample(0, wanted)];
      Delivered(Kept(samples, sent), None, minSeparation, f) != Delivered(samples, None, minSeparation, f)
  {
    var a, b := Sample(0, withheld), Sample(0, wanted);
    assert [a, b][1..] == [b] && [b][1..] == [];
    assert Kept([b], sent) == [b];
    assert Kept([a, b], sent) == [b];
    assert Delivered([b], None, minSeparation, f) == [b];
    assert Delivered([b], Some(0), minSeparation, f) == [];
  }

  // ------------------------------------------------------------------- end to end

  /** The payloads that get to a matched reader's locator. */
  ghost function SentTo(t: Table, g: Guid): Payload -> bool
    requires Matched(t, g)
  {
    p => WantedAt(t, t.locs[g], p)
  }

  lemma MatchedReaderGets(t: Table, g: Guid, p: Payload)
    requires Matched(t, g) && Wants(t.readers[g].filter, p)
    ensures SentTo(t, g)(p)
  {
  }

  /** Where one sample was sent: by multicast, or to a set of locators. */
  datatype Sending = Sending(multicast: bool, to: set<Locator>)

  /** What `Send` promises of a payload. */
  ghost predicate IsSending(t: Table, p: Payload, s: Sending)
  {
    forall l: Locator | Reachable(l) :: Reaches(t, s.multicast, s.to, l) <==> WantedAt(t, l, p)
  }

  /** The samples that arrive at a reader's locator, given where each of them was sent. */
  ghost function Arrived(t: Table, g: Guid, samples: seq<Sample>, sendings: seq<Sending>): seq<Sample>
    requires Matched(t, g) && |sendings| == |samples|
    decreases |samples|
  {
    if samples == [] then []
    else
      (if Reaches(t, sendings[0].multicast, sendings[0].to, t.locs[g]) then [samples[0]] else [])
      + Arrived(t, g, samples[1..], sendings[1..])
  }

  ghost predicate AllSent(t: Table, samples: seq<Sample>, sendings: seq<Sending>)
  {
    |sendings| == |samples| && forall i :: 0 <= i < |samples| ==> IsSending(t, samples[i].payload, sendings[i])
  }

  lemma {:induction false} ArrivedIsKept(t: Table, g: Guid, samples: seq<Sample>, sendings: seq<Sending>)
    requires Matched(t, g) && Reachable(t.locs[g]) && AllSent(t, samples, sendings)
    ensures Arrived(t, g, samples, sendings) == Kept(samples, SentTo(t, g))
    decreases |samples|
  {
    if samples != [] {
      assert IsSending(t, samples[0].payload, sendings[0]);
      ArrivedIsKept(t, g, samples[1..], sendings[1..]);
    }
  }

  /** Over all streams and all outcomes of sending them, the reader receives what it would
      have received of everything. */
  ghost predicate Unnoticed(t: Table, g: Guid, minSeparation: int)
    requires Matched(t, g)
  {
    forall samples: seq<Sample>, sendings: seq<Sending> :: AllSent(t, samples, sendings) ==>
      Delivered(Arrived(t, g, samples, sendings), None, minSeparation, t.readers[g].filter)
      == Delivered(samples, None, minSeparation, t.readers[g].filter)
  }

  lemma UnnoticedIsTransparent(t: Table, g: Guid, minSeparation: int)
    requires Matched(t, g) && Reachable(t.locs[g])
    ensures Unnoticed(t, g, minSeparation) <==> Transparent(minSeparation, t.readers[g].filter, SentTo(t, g))
  {
    var f, sent := t.readers[g].filter, SentTo(t, g);
    if Transparent(minSeparation, f, sent) {
      forall samples: seq<Sample>, sendings: seq<Sending> | AllSent(t, samples, sendings)
        ensures Delivered(Arrived(t, g, samples, sendings), None, minSeparation, f) ==
          Delivered(samples, None, minSeparation, f)
      {
        ArrivedIsKept(t, g, samples, sendings);
      }
    }
    if Unnoticed(t, g, minSeparation) {
      forall samples: seq<Sample>
        ensures Delivered(Kept(samples, sent), None, minSeparation, f) == Delivered(samples, None, minSeparation, f)
      {
        var sendings := SomeSendings(t, samples);
        ArrivedIsKept(t, g, samples, sendings);
      }
    }
  }

  /** From the writer's sends to the reader's queue: for a matched reader the push-down goes
      unnoticed exactly when the reader has no minimum separation, or everything is wanted at
      its locator, or it wants nothing. */
  lemma PushdownEndToEnd(t: Table, g: Guid, minSeparation: int)
    requires Matched(t, g) && Reachable(t.locs[g])
    ensures Unnoticed(t, g, minSeparation) <==>
      minSeparation <= 0 || (forall p :: WantedAt(t, t.locs[g], p)) || (forall p :: !Wants(t.readers[g].filter, p))
  {
    UnnoticedIsTransparent(t, g, minSeparation);
    forall p | Wants(t.readers[g].filter, p) ensures SentTo(t, g)(p) { MatchedReaderGets(t, g, p); }
    PushdownExact(minSeparation, t.readers[g].filter, SentTo(t, g));
    forall p ensures SentTo(t, g)(p) <==> WantedAt(t, t.locs[g], p) { }
  }

  /** Every stream has such outcomes. */
  lemma {:induction false} SomeSendings(t: Table, samples: seq<Sample>) returns (sendings: seq<Sending>)
    ensures AllSent(t, samples, sendings)
    decreases |samples|
  {
    sendings := [];
    if samples != [] {
      var rest := SomeSendings(t, samples[1..]);
      var to := WantingLocators(t, samples[0].payload);
      sendings := [Sending(false, to)] + rest;
    }
  }

  lemma WantingLocators(t: Table, p: Payload) returns (to: set<Locator>)
    ensures forall l :: l in to <==> WantedAt(t, l, p)
  {
    to := set g | g in t.readers && Matched(t, g) && Wants(t.readers[g].filter, p) :: t.locs[g];
  }
}
