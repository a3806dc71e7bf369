/** Exclusive ownership: which of the writers competing for a topic is the active one. */
module Ownership {
  import opened Wire
  import opened Identity

  /** `bytes.Compare(a, b) < 0`. */
  predicate BytesLess(a: Bytes, b: Bytes)
    decreases |a|
  {
    b != [] && (a == [] || a[0] < b[0] || (a[0] == b[0] && BytesLess(a[1..], b[1..])))
  }

  predicate GuidLess(a: Guid, b: Guid)
  {
    if a.prefix != b.prefix then BytesLess(a.prefix, b.prefix) else BytesLess(a.entity, b.entity)
  }

  lemma {:induction false} BytesOrder(a: Bytes, b: Bytes, c: Bytes)
    ensures !BytesLess(a, a)
    ensures BytesLess(a, b) || BytesLess(b, a) || a == b
    ensures BytesLess(a, b) ==> !BytesLess(b, a)
    ensures BytesLess(a, b) && BytesLess(b, c) ==> BytesLess(a, c)
    decreases |a|
  {
    if a != [] {
      BytesOrder(a[1..], if b != [] then b[1..] else [], if c != [] then c[1..] else []);
      if b != [] && a[0] == b[0] && a[1..] == b[1..] {
        assert a == [a[0]] + a[1..] && b == [b[0]] + b[1..];
      }
    }
  }

  /** The tie-break is a strict total order, so all participants resolve ties alike. */
  lemma GuidOrder(a: Guid, b: Guid, c: Guid)
    ensures !GuidLess(a, a)
    ensures GuidLess(a, b) || GuidLess(b, a) || a == b
    ensures GuidLess(a, b) ==> !GuidLess(b, a)
    ensures GuidLess(a, b) && GuidLess(b, c) ==> GuidLess(a, c)
  {
    BytesOrder(a.prefix, b.prefix, c.prefix);
    BytesOrder(b.prefix, a.prefix, c.prefix);
    BytesOrder(a.entity, b.entity, c.entity);
    BytesOrder(b.entity, a.entity, c.entity);
  }

  /** `g` with strength `s` takes precedence over `h` with strength `t`. */
  predicate Beats(g: Guid, s: int, h: Guid, t: int)
  {
    s > t || (s == t && GuidLess(g, h))
  }

  lemma BeatsOrder(g: Guid, s: int, h: Guid, t: int, k: Guid, u: int)
    ensures Beats(g, s, h, t) || Beats(h, t, g, s) || (g == h && s == t)
    ensures Beats(g, s, h, t) ==> !Beats(h, t, g, s)
    ensures Beats(g, s, h, t) && Beats(h, t, k, u) ==> Beats(g, s, k, u)
  {
    GuidOrder(g, h, k);
  }

  type Claims = map<Guid, int>

  /** `g` is the owner among the claims: no other claim takes precedence over it. */
  ghost predicate Owner(claims: Claims, g: Guid)
  {
    g in claims && forall h <- claims :: h == g || Beats(g, claims[g], h, claims[h])
  }

  lemma OwnerUnique(claims: Claims, g: Guid, h: Guid)
    requires Owner(claims, g) && Owner(claims, h)
    ensures g == h
  {
    if g != h { BeatsOrder(g, claims[g], h, claims[h], g, claims[g]); }
  }

  /** The byte strings agree up to `k`, where `a` ends or has the smaller byte. */
  predicate SmallerAt(a: Bytes, b: Bytes, k: nat)
  {
    k <= |a| && k < |b| && a[..k] == b[..k] && (k == |a| || a[k] < b[k])
  }

  lemma {:induction false} BytesLessIs(a: Bytes, b: Bytes)
    ensures BytesLess(a, b) <==> exists k: nat :: SmallerAt(a, b, k)
    decreases |a|
  {
    if a == [] || b == [] || a[0] != b[0] {
      if BytesLess(a, b) { assert SmallerAt(a, b, 0); }
      if k: nat :| SmallerAt(a, b, k) {
        if k > 0 { FirstBytes(a, b, k); }
      }
    } else {
      BytesLessIs(a[1..], b[1..]);
      if k: nat :| SmallerAt(a[1..], b[1..], k) {
        assert a[..k + 1] == [a[0]] + a[1..][..k] && b[..k + 1] == [b[0]] + b[1..][..k];
        assert SmallerAt(a, b, k + 1);
      }
      if k: nat :| SmallerAt(a, b, k) {
        assert k > 0;
        assert a[1..][..k - 1] == a[..k][1..] && b[1..][..k - 1] == b[..k][1..];
        assert SmallerAt(a[1..], b[1..], k - 1);
      }
    }
  }

  lemma FirstBytes(a: Bytes, b: Bytes, k: nat)
    requires 0 < k <= |a| && k <= |b| && a[..k] == b[..k]
    ensures a[0] == b[0]
  {
    assert a[..k][0] == b[..k][0];
  }

  /** GUIDs are compared byte by byte, the prefix before the entity. */
  lemma GuidLessIs(a: Guid, b: Guid)
    ensures GuidLess(a, b) <==> exists k: nat :: k < 16 && SmallerAt(a.prefix + a.entity, b.prefix + b.entity, k)
  {
    var x, y := a.prefix + a.entity, b.prefix + b.entity;
    BytesLessIs(a.prefix, b.prefix);
    BytesLessIs(a.entity, b.entity);
    assert x[..12] == a.prefix && y[..12] == b.prefix && x[12..] == a.entity && y[12..] == b.entity;
    if GuidLess(a, b) {
      if a.prefix != b.prefix {
        var k: nat :| SmallerAt(a.prefix, b.prefix, k);
        assert x[..k] == a.prefix[..k] && y[..k] == b.prefix[..k];
        assert SmallerAt(x, y, k);
      } else {
        var k: nat :| SmallerAt(a.entity, b.entity, k);
        assert x[..12 + k] == a.prefix + a.entity[..k] && y[..12 + k] == b.prefix + b.entity[..k];
        assert SmallerAt(x, y, 12 + k);
      }
    }
    if k: nat :| k < 16 && SmallerAt(x, y, k) {
      if k < 12 {
        assert a.prefix[..k] == x[..k] && b.prefix[..k] == y[..k] && a.prefix[k] == x[k] && b.prefix[k] == y[k];
        assert SmallerAt(a.prefix, b.prefix, k);
      } else {
        assert x[..k][..12] == a.prefix && y[..k][..12] == b.prefix;
        assert x[..k][12..] == a.entity[..k - 12] && y[..k][12..] == b.entity[..k - 12];
        assert SmallerAt(a.entity, b.entity, k - 12);
      }
    }
  }

  /** The owner has the greatest strength, and of those with that strength the smallest GUID. */
  lemma OwnerExact(claims: Claims, g: Guid)
    ensures Owner(claims, g) <==> g in claims && forall h <- claims :: h != g ==>
      claims[h] < claims[g] || (claims[h] == claims[g]
        && exists k: nat :: k < 16 && SmallerAt(g.prefix + g.entity, h.prefix + h.entity, k))
  {
    forall h <- claims { GuidLessIs(g, h); }
  }

  class OwnershipState {
    var strengths: Claims
    var active: Guid

    ghost predicate Valid()
      reads this
    {
      if strengths == map[] then active == ZERO_GUID else Owner(strengths, active)
    }

    constructor ()
      ensures Valid() && strengths == map[]
    {
      strengths, active := map[], ZERO_GUID;
    }

    method Register(g: Guid, strength: int)
      modifies this
      ensures Valid() && strengths == old(strengths)[g := strength]
    {
      strengths := strengths[g := strength];
      Recompute();
    }

    method Unregister(g: Guid)
      modifies this
      ensures Valid() && strengths == old(strengths) - {g}
    {
      strengths := strengths - {g};
      Recompute();
    }

    /** Visits the claims in whatever order the map yields them. */
    method Recompute()
      modifies this`active
      ensures Valid()
    {
      var best: Guid := ZERO_GUID;
      var bestStrength, have := 0, false;
      var todo := strengths.Keys;
      while todo != {}
        invariant todo <= strengths.Keys
        invariant have == (todo != strengths.Keys)
        invariant have ==> best in strengths && bestStrength == strengths[best] && best !in todo
        invariant have ==> forall h <- strengths.Keys - todo :: h == best || Beats(best, bestStrength, h, strengths[h])
        decreases |todo|
      {
        var g :| g in todo;
        todo := todo - {g};
        var s := strengths[g];
        forall h <- strengths.Keys { BeatsOrder(g, s, best, bestStrength, h, strengths[h]); }
        if !have || s > bestStrength || (s == bestStrength && GuidLess(g, best)) {
          best, bestStrength, have := g, s, true;
        }
      }
      active := if have then best else ZERO_GUID;
      assert strengths == map[] <==> strengths.Keys == {};
    }

    /** Samples of a writer are let through when nobody claims the topic, and otherwise
        exactly when the writer is the owner. */
    method Allows(g: Guid) returns (ok: bool)
      requires Valid()
      ensures ok <==> strengths == map[] || Owner(strengths, g)
    {
      if |strengths| == 0 {
        return true;
      }
      ok := g == active;
      if Owner(strengths, g) { OwnerUnique(strengths, g, active); }
    }
  }

  // -------------------------------------------------------------------- histories

  datatype Event = Claim(g: Guid, strength: int) | Withdraw(g: Guid)

  function ClaimsAfter(es: seq<Event>): Claims
  {
    if es == [] then map[]
    else
      var before, e := ClaimsAfter(es[..|es| - 1]), es[|es| - 1];
      match e
      case Claim(g, s) => before[g := s]
      case Withdraw(g) => before - {g}
  }

  /** Replays a history on a fresh state. */
  method Replay(es: seq<Event>) returns (o: OwnershipState)
    ensures fresh(o) && o.Valid() && o.strengths == ClaimsAfter(es)
  {
    o := new OwnershipState();
    for i := 0 to |es|
      invariant fresh(o) && o.Valid() && o.strengths == ClaimsAfter(es[..i])
    {
      assert es[..i + 1][..i] == es[..i];
      match es[i]
      case Claim(g, s) => o.Register(g, s);
      case Withdraw(g) => o.Unregister(g);
    }
    assert es[..|es|] == es;
  }

  /** Two participants that saw different histories but the same final claims admit the
      same writer and no other, whatever the order in which they visited the claims. */
  method Agreement(es: seq<Event>, fs: seq<Event>, g: Guid) returns (here: bool, there: bool)
    requires ClaimsAfter(es) == ClaimsAfter(fs)
    ensures here == there
    ensures here <==> ClaimsAfter(es) == map[] || Owner(ClaimsAfter(es), g)
  {
    var o := Replay(es);
    var p := Replay(fs);
    here := o.Allows(g);
    there := p.Allows(g);
  }
}
