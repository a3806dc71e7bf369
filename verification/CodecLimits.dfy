/** The converse of the round trip: a type that is not safe has a value that its emitted
    decoder produces from no input at all, because a place with two different indices on
    its path is never assigned. */
module CodecLimits {
  import opened Wire
  import opened Cdr
  import opened EmittedCode
  import opened CodecRoundTrip

  /** A step to a field or to an element of known index. */
  datatype Step = Fld(k: nat) | Elt(k: nat)

  function ChildAt(v: Val, s: Step): Option<Val>
  {
    match s
    case Fld(k) => Child(v, Dot(k), 0)
    case Elt(k) => Child(v, Idx, k)
  }

  function ValueAt(v: Val, loc: seq<Step>): Option<Val>
  {
    if loc == [] then Some(v)
    else if ChildAt(v, loc[0]).None? then None
    else ValueAt(ChildAt(v, loc[0]).value, loc[1..])
  }

  /** Two different indices occur on the way. */
  ghost predicate Mixed(loc: seq<Step>)
  {
    exists a, b :: Elt(a) in loc && Elt(b) in loc && a != b
  }

  predicate AllZero(v: Val)
  {
    match v
    case Number(n) => n == 0
    case Text(s) => s == []
    case Blob(bs) => bs == []
    case Slice(vs) => vs == []
    case Fixed(vs) => forall i :: 0 <= i < |vs| ==> AllZero(vs[i])
    case Struct(vs) => forall i :: 0 <= i < |vs| ==> AllZero(vs[i])
  }

  /** The place does not exist or has never been given anything but a zero value. */
  predicate Stale(v: Val, loc: seq<Step>)
  {
    ValueAt(v, loc).None? || AllZero(ValueAt(v, loc).value)
  }

  lemma {:induction false} AllZeroIsStale(v: Val, loc: seq<Step>)
    requires AllZero(v)
    ensures Stale(v, loc)
    decreases |loc|
  {
    if loc != [] && ChildAt(v, loc[0]).Some? {
      AllZeroIsStale(ChildAt(v, loc[0]).value, loc[1..]);
    }
  }

  lemma {:induction false} ZeroIsAllZero(t: RType)
    ensures AllZero(Zero(t)) && HasType(Zero(t), t)
  {
    match t
    case Basic(p) => Pow256Values();
    case ArrOf(_, e) => ZeroIsAllZero(e);
    case Record(ts) =>
      forall i | 0 <= i < |ts| ensures AllZero(Zero(ts[i])) && HasType(Zero(ts[i]), ts[i]) { ZeroIsAllZero(ts[i]); }
    case _ =>
  }

  // ------------------------------------------------------------ stale places stay stale

  function Concrete(s: Sel, i: nat): Step
  {
    match s
    case Dot(k) => Fld(k)
    case Idx => Elt(i)
  }

  /** The path, with `_i` being `i`, runs along `loc` without reaching its end. */
  predicate Leads(path: seq<Sel>, i: nat, loc: seq<Step>)
  {
    |path| < |loc| && forall j :: 0 <= j < |path| ==> Concrete(path[j], i) == loc[j]
  }

  /** Storing cannot change a mixed place itself, only a container of it. */
  lemma {:induction false} StoreKeepsStale(v: Val, path: seq<Sel>, i: nat, x: Val, loc: seq<Step>)
    requires Stale(v, loc) && Store(v, path, i, x).Some?
    requires exists j :: 0 <= j < |loc| && (j < |path| ==> Concrete(path[j], i) != loc[j])
    requires Leads(path, i, loc) ==> Stale(x, loc[|path|..])
    ensures Stale(Store(v, path, i, x).value, loc)
    decreases |path|
  {
    if path == [] {
      assert loc[0..] == loc;
    } else {
      var c := Child(v, path[0], i).value;
      if Concrete(path[0], i) == loc[0] {
        var j :| 0 <= j < |loc| && (j < |path| ==> Concrete(path[j], i) != loc[j]);
        assert j > 0 && (j - 1 < |path[1..]| ==> Concrete(path[1..][j - 1], i) != loc[1..][j - 1]);
        if Leads(path[1..], i, loc[1..]) {
          assert forall k :: 0 <= k < |path| ==> k == 0 || path[k] == path[1..][k - 1];
          assert Leads(path, i, loc);
          assert loc[1..][|path[1..]|..] == loc[|path|..];
        }
        StoreKeepsStale(c, path[1..], i, x, loc[1..]);
      }
    }
  }

  lemma {:induction false} MixedIsMissed(path: seq<Sel>, i: nat, loc: seq<Step>)
    requires Mixed(loc)
    ensures exists j :: 0 <= j < |loc| && (j < |path| ==> Concrete(path[j], i) != loc[j])
  {
    var a, b :| Elt(a) in loc && Elt(b) in loc && a != b;
    var c := if a == i then b else a;
    var j :| 0 <= j < |loc| && loc[j] == Elt(c);
  }

  /** Assignments of leaves and of freshly made slices. */
  lemma AssignKeepsStale(s: State, dest: seq<Sel>, i: nat, x: Val, pos: nat, loc: seq<Step>)
    requires Mixed(loc) && Stale(s.v, loc) && Assign(s, dest, i, x, pos).Some?
    requires x.Number? || x.Text? || x.Blob? || (x.Slice? && forall k :: 0 <= k < |x.elems| ==> AllZero(x.elems[k]))
    ensures Stale(Assign(s, dest, i, x, pos).value.v, loc)
  {
    MixedIsMissed(dest, i, loc);
    if Leads(dest, i, loc) {
      var rest := loc[|dest|..];
      if ChildAt(x, rest[0]).Some? { AllZeroIsStale(ChildAt(x, rest[0]).value, rest[1..]); }
    }
    StoreKeepsStale(s.v, dest, i, x, loc);
  }

  lemma {:induction false} DecodeKeepsStale(d: DecStmt, s: State, i: nat, bs: Bytes, loc: seq<Step>)
    requires Mixed(loc) && Stale(s.v, loc) && Decode(d, s, i, bs).Some?
    ensures Stale(Decode(d, s, i, bs).value.v, loc)
    decreases d, 0
  {
    match d
    case ReadPrim(p, dest) =>
      var r := GetPrim(p, bs, s.pos).value;
      AssignKeepsStale(s, dest, i, Number(r.0), r.1, loc);
    case ReadText(dest) =>
      var r := GetString(bs, s.pos).value;
      AssignKeepsStale(s, dest, i, Text(r.0), r.1, loc);
    case ReadBlob(dest) =>
      var r := GetCounted(bs, s.pos).value;
      AssignKeepsStale(s, dest, i, Blob(r.0), r.1, loc);
    case ReadSlice(dest, e, body) =>
      var r := GetPrim(Uint32, bs, s.pos).value;
      var made := Slice(Repeat(Zero(e), r.0));
      ZeroIsAllZero(e);
      AssignKeepsStale(s, dest, i, made, r.1, loc);
      LoopKeepsStale(body, Assign(s, dest, i, made, r.1).value, 0, r.0, bs, loc);
    case DecLoop(n, _, body) => LoopKeepsStale(body, s, 0, n, bs, loc);
    case DecBlock(ds) => BlockKeepsStale(ds, s, i, bs, loc);
  }

  lemma {:induction false} LoopKeepsStale(body: DecStmt, s: State, k: nat, n: nat, bs: Bytes, loc: seq<Step>)
    requires Mixed(loc) && Stale(s.v, loc) && DecodeFrom(body, s, k, n, bs).Some?
    ensures Stale(DecodeFrom(body, s, k, n, bs).value.v, loc)
    decreases body, 1, n - k
  {
    if k < n {
      DecodeKeepsStale(body, s, k, bs, loc);
      LoopKeepsStale(body, Decode(body, s, k, bs).value, k + 1, n, bs, loc);
    }
  }

  lemma {:induction false} BlockKeepsStale(ds: seq<DecStmt>, s: State, i: nat, bs: Bytes, loc: seq<Step>)
    requires Mixed(loc) && Stale(s.v, loc) && DecodeAll(ds, s, i, bs).Some?
    ensures Stale(DecodeAll(ds, s, i, bs).value.v, loc)
    decreases ds, 0
  {
    if ds != [] {
      DecodeKeepsStale(ds[0], s, i, bs, loc);
      BlockKeepsStale(ds[1..], Decode(ds[0], s, i, bs).value, i, bs, loc);
    }
  }

  // ------------------------------------------------------------- values out of reach

  /** A value of a solid type that is not all zero. */
  lemma {:induction false} NonZero(t: RType) returns (v: Val)
    requires Solid(t)
    ensures HasType(v, t) && !AllZero(v)
    decreases t
  {
    ZeroIsAllZero(t);
    match t
    case Basic(p) => Pow256Values(); v := Number(1);
    case Str => v := Text([1]);
    case Octets => v := Blob([1]);
    case SeqOf(e) => ZeroIsAllZero(e); v := Slice([Zero(e)]);
    case ArrOf(n, e) =>
      var x := NonZero(e);
      v := Fixed(Zero(t).elems[0 := x]);
      assert v.elems[0] == x;
    case Record(ts) =>
      var i :| 0 <= i < |ts| && Solid(ts[i]);
      var x := NonZero(ts[i]);
      v := Struct(Zero(t).fields[i := x]);
      assert v.fields[i] == x;
  }

  /** Inside an index loop, an unsafe type has a value that is not zero at a place whose
      path has an index that differs from that of the loop: 1 against 0 inside one-element
      arrays, 0 against 1 inside other collections. */
  lemma {:induction false} InnerWitness(t: RType, ctx: Ctx) returns (v: Val, loc: seq<Step>)
    requires !ctx.Flat? && !Safe(t, ctx)
    ensures HasType(v, t) && !Stale(v, loc) && Elt(if ctx.Single? then 1 else 0) in loc
    decreases t
  {
    ZeroIsAllZero(t);
    match t
    case SeqOf(e) =>
      ZeroIsAllZero(e);
      var x := NonZero(e);
      if ctx.Single? {
        v, loc := Slice([Zero(e), x]), [Elt(1)];
      } else {
        v, loc := Slice([x]), [Elt(0)];
      }
      ElementAt(v, loc[0].k, []);
      assert loc == [Elt(loc[0].k)] + [];
    case ArrOf(n, e) =>
      if ctx.Single? && n == 1 {
        var x, rest := InnerWitness(e, Single);
        v, loc := Fixed([x]), [Elt(0)] + rest;
        ElementAt(v, 0, rest);
      } else {
        var k := if ctx.Single? then 1 else 0;
        var x := NonZero(e);
        v, loc := Fixed(Zero(t).elems[k := x]), [Elt(k)];
        ElementAt(v, k, []);
        assert loc == [Elt(k)] + [];
      }
    case Record(ts) =>
      var i :| 0 <= i < |ts| && !Safe(ts[i], ctx);
      var x, rest := InnerWitness(ts[i], ctx);
      v, loc := Struct(Zero(t).fields[i := x]), [Fld(i)] + rest;
      FieldAt(v, i, rest);
  }

  lemma ElementAt(v: Val, k: nat, rest: seq<Step>)
    requires (v.Slice? || v.Fixed?) && k < |v.elems|
    ensures ValueAt(v, [Elt(k)] + rest) == ValueAt(v.elems[k], rest)
  {
    assert ([Elt(k)] + rest)[1..] == rest;
  }

  lemma FieldAt(v: Val, k: nat, rest: seq<Step>)
    requires v.Struct? && k < |v.fields|
    ensures ValueAt(v, [Fld(k)] + rest) == ValueAt(v.fields[k], rest)
  {
    assert ([Fld(k)] + rest)[1..] == rest;
  }

  lemma {:induction false} Witness(t: RType) returns (v: Val, loc: seq<Step>)
    requires !Safe(t, Flat)
    ensures HasType(v, t) && !Stale(v, loc) && Mixed(loc)
    decreases t
  {
    ZeroIsAllZero(t);
    match t
    case SeqOf(e) =>
      ZeroIsAllZero(e);
      var x, rest := InnerWitness(e, Nested);
      v, loc := Slice([Zero(e), x]), [Elt(1)] + rest;
      ElementAt(v, 1, rest);
      assert Elt(1) in loc && Elt(0) in loc;
    case ArrOf(n, e) =>
      var k := if n == 1 then 0 else 1;
      var x, rest := InnerWitness(e, if n == 1 then Single else Nested);
      v, loc := Fixed(Zero(t).elems[k := x]), [Elt(k)] + rest;
      ElementAt(v, k, rest);
      assert Elt(1) in loc && Elt(0) in loc;
    case Record(ts) =>
      var i :| 0 <= i < |ts| && !Safe(ts[i], Flat);
      var x, rest := Witness(ts[i]);
      v, loc := Struct(Zero(t).fields[i := x]), [Fld(i)] + rest;
      FieldAt(v, i, rest);
      assert forall a :: Elt(a) in rest ==> Elt(a) in loc;
  }

  // ---------------------------------------------------------------------- the theorem

  /** Every value of the type survives Marshal and Unmarshal, and every byte is read. */
  ghost predicate RoundTrips(t: RType)
  {
    forall v | HasType(v, t) ::
      Marshal(t, v).Some? && Unmarshal(t, Marshal(t, v).value) == Some((v, |Marshal(t, v).value|))
  }

  lemma SafeRoundTrips(t: RType, v: Val)
    requires Safe(t, Flat) && HasType(v, t)
    ensures Marshal(t, v) == Some(CdrOf(t, v, HEADER))
    ensures Unmarshal(t, CdrOf(t, v, HEADER)) == Some((v, |CdrOf(t, v, HEADER)|))
  {
    EncodeCorrect(t, Flat, Ref(V, []), Env(v, v, 0), v, HEADER);
    CdrExtends(t, v, HEADER);
    var bs := CdrOf(t, v, HEADER);
    assert bs[..4] == HEADER;
    assert HEADER[0] == bs[0] && HEADER[1] == bs[1];
    ZeroIsShaped(t);
    DecodeCorrect(t, Flat, [], State(Zero(t), 4), 0, v, bs);
  }

  /** What an unsafe type loses: some value that Unmarshal returns for no input. */
  lemma UnsafeLosesAValue(t: RType) returns (v: Val)
    requires !Safe(t, Flat)
    ensures HasType(v, t) && forall data :: Unmarshal(t, data).Some? ==> Unmarshal(t, data).value.0 != v
  {
    var loc;
    v, loc := Witness(t);
    forall data | Unmarshal(t, data).Some? ensures Unmarshal(t, data).value.0 != v {
      ZeroIsAllZero(t);
      AllZeroIsStale(Zero(t), loc);
      DecodeKeepsStale(DecoderFor(t, []), State(Zero(t), 4), 0, data, loc);
    }
  }

  /** The emitted codec of a type is correct exactly when the type is safe. */
  lemma CodecExact(t: RType)
    ensures RoundTrips(t) <==> Safe(t, Flat)
  {
    if Safe(t, Flat) {
      forall v | HasType(v, t) ensures Marshal(t, v).Some? &&
        Unmarshal(t, Marshal(t, v).value) == Some((v, |Marshal(t, v).value|))
      {
        SafeRoundTrips(t, v);
      }
    } else {
      var v := UnsafeLosesAValue(t);
      assert HasType(v, t);
    }
  }
}
