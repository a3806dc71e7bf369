/** When the emitted Marshal and Unmarshal undo each other: exactly for the types in which
    no collection that does any work lies inside another (up to arrays of one element). */
module CodecRoundTrip {
  import opened Wire
  import opened Cdr
  import opened EmittedCode

  // ---------------------------------------------------------- the reference encoding

  /** The CDR encoding of a value, appended to a buffer. */
  function CdrOf(t: RType, v: Val, buf: Bytes): Bytes
    requires HasType(v, t)
    decreases t, 0
  {
    match t
    case Basic(p) => PutPrim(buf, p, v.n)
    case Str => PutString(buf, v.s)
    case Octets => PutCounted(buf, v.bs)
    case SeqOf(e) => Pow256Values(); CdrOfElems(e, v.elems, PutPrim(buf, Uint32, |v.elems|))
    case ArrOf(_, e) => CdrOfElems(e, v.elems, buf)
    case Record(ts) => CdrOfFields(ts, v.fields, buf)
  }

  function CdrOfElems(e: RType, vs: seq<Val>, buf: Bytes): Bytes
    requires forall i :: 0 <= i < |vs| ==> HasType(vs[i], e)
    decreases e, 3, |vs|
  {
    if vs == [] then buf else CdrOfElems(e, vs[1..], CdrOf(e, vs[0], buf))
  }

  function CdrOfFields(ts: seq<RType>, vs: seq<Val>, buf: Bytes): Bytes
    requires |vs| == |ts| && forall i :: 0 <= i < |ts| ==> HasType(vs[i], ts[i])
    decreases ts, 0
  {
    if ts == [] then buf else CdrOfFields(ts[1..], vs[1..], CdrOf(ts[0], vs[0], buf))
  }

  /** The encoding goes through a value in order: fields and elements one after the other, a
      sequence with its 32-bit count before them. */
  lemma {:induction false} CdrInOrder(t: RType, a: seq<Val>, x: Val, buf: Bytes)
    requires HasType(Slice(a + [x]), SeqOf(t))
    ensures HasType(Slice(a), SeqOf(t)) && HasType(x, t)
    ensures CdrOfElems(t, a + [x], buf) == CdrOf(t, x, CdrOfElems(t, a, buf))
    decreases |a|
  {
    assert forall i :: 0 <= i < |a| ==> (a + [x])[i] == a[i];
    assert (a + [x])[|a|] == x;
    if a == [] {
      assert [x][1..] == [] && a + [x] == [x];
    } else {
      assert (a + [x])[1..] == a[1..] + [x];
      CdrInOrder(t, a[1..], x, CdrOf(t, a[0], buf));
    }
  }

  lemma {:induction false} CdrFieldsInOrder(ts: seq<RType>, t: RType, vs: seq<Val>, v: Val, buf: Bytes)
    requires HasType(Struct(vs), Record(ts)) && HasType(v, t)
    ensures HasType(Struct(vs + [v]), Record(ts + [t]))
    ensures CdrOfFields(ts + [t], vs + [v], buf) == CdrOf(t, v, CdrOfFields(ts, vs, buf))
    decreases |ts|
  {
    if ts == [] {
      assert ts + [t] == [t] && vs + [v] == [v] && [t][1..] == [] && [v][1..] == [];
    } else {
      assert (ts + [t])[1..] == ts[1..] + [t] && (vs + [v])[1..] == vs[1..] + [v];
      CdrFieldsInOrder(ts[1..], t, vs[1..], v, CdrOf(ts[0], vs[0], buf));
    }
  }

  lemma CdrCases(t: RType, v: Val, buf: Bytes)
    requires HasType(v, t)
    ensures t == Str ==> CdrOf(t, v, buf) == PutString(buf, v.s)
    ensures t == Octets ==> CdrOf(t, v, buf) == PutCounted(buf, v.bs)
    ensures t.SeqOf? ==> InRange(Uint32, |v.elems|)
    ensures t.SeqOf? ==> CdrOf(t, v, buf) == CdrOfElems(t.elem, v.elems, PutPrim(buf, Uint32, |v.elems|))
    ensures t.ArrOf? ==> |v.elems| == t.n && CdrOf(t, v, buf) == CdrOfElems(t.elem, v.elems, buf)
    ensures t.Record? ==> CdrOf(t, v, buf) == CdrOfFields(t.fields, v.fields, buf)
  {
    Pow256Values();
  }

  lemma {:induction false} CdrExtends(t: RType, v: Val, buf: Bytes)
    requires HasType(v, t)
    ensures buf <= CdrOf(t, v, buf)
    decreases t, 0
  {
    match t
    case Basic(_) =>
    case Str =>
    case Octets =>
    case SeqOf(e) =>
      Pow256Values();
      CdrElemsExtend(e, v.elems, PutPrim(buf, Uint32, |v.elems|));
    case ArrOf(_, e) => CdrElemsExtend(e, v.elems, buf);
    case Record(ts) => CdrFieldsExtend(ts, v.fields, buf);
  }

  lemma {:induction false} CdrElemsExtend(e: RType, vs: seq<Val>, buf: Bytes)
    requires forall i :: 0 <= i < |vs| ==> HasType(vs[i], e)
    ensures buf <= CdrOfElems(e, vs, buf)
    decreases e, 3, |vs|
  {
    if vs != [] {
      CdrExtends(e, vs[0], buf);
      CdrElemsExtend(e, vs[1..], CdrOf(e, vs[0], buf));
    }
  }

  lemma {:induction false} CdrFieldsExtend(ts: seq<RType>, vs: seq<Val>, buf: Bytes)
    requires |vs| == |ts| && forall i :: 0 <= i < |ts| ==> HasType(vs[i], ts[i])
    ensures buf <= CdrOfFields(ts, vs, buf)
    decreases ts, 0
  {
    if ts != [] {
      CdrExtends(ts[0], vs[0], buf);
      CdrFieldsExtend(ts[1..], vs[1..], CdrOf(ts[0], vs[0], buf));
    }
  }

  // ------------------------------------------------------------------- the condition

  /** Values of the type occupy bytes, so code for it reads and writes something. */
  predicate Solid(t: RType)
    decreases t
  {
    match t
    case ArrOf(n, e) => n > 0 && Solid(e)
    case Record(ts) => exists i :: 0 <= i < |ts| && Solid(ts[i])
    case _ => true
  }

  /** The index loops around a piece of type: none, only loops over one-element arrays,
      or any other. */
  datatype Ctx = Flat | Single | Nested

  predicate Safe(t: RType, ctx: Ctx)
    decreases t
  {
    match t
    case SeqOf(e) => !Solid(e) || (ctx.Flat? && Safe(e, Nested))
    case ArrOf(n, e) => n == 0 || !Solid(e)
                        || (ctx.Flat? && Safe(e, if n == 1 then Single else Nested))
                        || (ctx.Single? && n == 1 && Safe(e, Single))
    case Record(ts) => forall i :: 0 <= i < |ts| ==> Safe(ts[i], ctx)
    case _ => true
  }

  lemma {:induction false} NotSolidIsSafe(t: RType, ctx: Ctx)
    requires !Solid(t)
    ensures Safe(t, ctx)
  {
    if t.Record? {
      forall i | 0 <= i < |t.fields| ensures Safe(t.fields[i], ctx) { NotSolidIsSafe(t.fields[i], ctx); }
    }
  }

  /** `_i` has the value `i` in a context in which the path means what it should. */
  predicate Fits(ctx: Ctx, path: seq<Sel>, i: nat)
  {
    match ctx
    case Flat => Idx !in path
    case Single => i == 0
    case Nested => true
  }

  // ------------------------------------------------------------------------- paths

  lemma {:induction false} LookupSnoc(v: Val, path: seq<Sel>, s: Sel, i: nat)
    ensures Lookup(v, path + [s], i) == var c := Lookup(v, path, i); if c.None? then None else Child(c.value, s, i)
    decreases |path|
  {
    if path == [] {
      assert path + [s] == [s];
    } else {
      assert (path + [s])[1..] == path[1..] + [s];
      if Child(v, path[0], i).Some? { LookupSnoc(Child(v, path[0], i).value, path[1..], s, i); }
    }
  }

  lemma {:induction false} LookupWithoutIndex(v: Val, path: seq<Sel>, i: nat, j: nat)
    requires Idx !in path
    ensures Lookup(v, path, i) == Lookup(v, path, j)
    decreases |path|
  {
    if path != [] && Child(v, path[0], i).Some? {
      LookupWithoutIndex(Child(v, path[0], i).value, path[1..], i, j);
    }
  }

  /** Storing below a path is storing the changed container at the path. */
  lemma {:induction false} StoreSnoc(v: Val, path: seq<Sel>, s: Sel, i: nat, x: Val)
    requires Lookup(v, path, i).Some? && Child(Lookup(v, path, i).value, s, i).Some?
    ensures Store(v, path + [s], i, x) == Store(v, path, i, WithChild(Lookup(v, path, i).value, s, i, x))
    decreases |path|
  {
    if path == [] {
      assert path + [s] == [s];
      assert [s][1..] == [];
    } else {
      assert (path + [s])[1..] == path[1..] + [s];
      StoreSnoc(Child(v, path[0], i).value, path[1..], s, i, x);
    }
  }

  lemma {:induction false} StoreWithoutIndex(v: Val, path: seq<Sel>, i: nat, j: nat, x: Val)
    requires Idx !in path
    ensures Store(v, path, i, x) == Store(v, path, j, x)
    decreases |path|
  {
    if path != [] && Child(v, path[0], i).Some? {
      StoreWithoutIndex(Child(v, path[0], i).value, path[1..], i, j, x);
    }
  }

  lemma WithChildTwice(v: Val, s: Sel, i: nat, x: Val, y: Val)
    requires Child(v, s, i).Some?
    ensures var w := WithChild(v, s, i, x);
      Child(w, s, i) == Some(x) && WithChild(w, s, i, y) == WithChild(v, s, i, y)
  {
    match s
    case Dot(k) => assert v.fields[k := x][k := y] == v.fields[k := y];
    case Idx => assert v.elems[i := x][i := y] == v.elems[i := y];
  }

  lemma WithChildSame(v: Val, s: Sel, i: nat)
    requires Child(v, s, i).Some?
    ensures WithChild(v, s, i, Child(v, s, i).value) == v
  {
    match s
    case Dot(k) => assert v.fields[k := v.fields[k]] == v.fields;
    case Idx => assert v.elems[i := v.elems[i]] == v.elems;
  }

  /** What is stored is found, and storing again overwrites. */
  lemma {:induction false} StoreThenLookup(v: Val, path: seq<Sel>, i: nat, x: Val, y: Val)
    requires Lookup(v, path, i).Some?
    ensures Store(v, path, i, x).Some? && Store(v, path, i, y).Some?
    ensures var v' := Store(v, path, i, x).value;
      Lookup(v', path, i) == Some(x) && Store(v', path, i, y) == Store(v, path, i, y)
    decreases |path|
  {
    if path != [] {
      var c := Child(v, path[0], i).value;
      StoreThenLookup(c, path[1..], i, x, y);
      WithChildTwice(v, path[0], i, Store(c, path[1..], i, x).value, Store(c, path[1..], i, y).value);
    }
  }

  lemma {:induction false} StoreSame(v: Val, path: seq<Sel>, i: nat)
    requires Lookup(v, path, i).Some?
    ensures Store(v, path, i, Lookup(v, path, i).value) == Some(v)
    decreases |path|
  {
    if path != [] {
      StoreSame(Child(v, path[0], i).value, path[1..], i);
      WithChildSame(v, path[0], i);
    }
  }

  // ------------------------------------------------------------- encoders are correct

  lemma {:induction false} NotSolidEncodesNothing(t: RType, ref: Ref, env: Env, v: Val, buf: Bytes)
    requires !Solid(t)
    ensures Encode(EncoderFor(t, ref), env, buf) == Some(buf)
    ensures HasType(v, t) ==> CdrOf(t, v, buf) == buf
    decreases t, 0
  {
    match t
    case ArrOf(n, e) =>
      if n > 0 {
        NotSolidLoop(e, Ref(ref.root, ref.path + [Idx]), env, 0, n, buf);
        if HasType(v, t) { NotSolidElems(e, v.elems, ref, env, buf); }
      }
    case Record(ts) => NotSolidFields(ts, ref, 0, env, if v.Struct? then v.fields else [], buf);
  }

  lemma {:induction false} NotSolidLoop(e: RType, ref: Ref, env: Env, k: nat, n: nat, buf: Bytes)
    requires !Solid(e)
    ensures EncodeFrom(EncoderFor(e, ref), env, k, n, buf) == Some(buf)
    decreases e, 3, n - k
  {
    if k < n {
      NotSolidEncodesNothing(e, ref, env.(i := k), env.v, buf);
      NotSolidLoop(e, ref, env, k + 1, n, buf);
    }
  }

  lemma {:induction false} NotSolidElems(e: RType, vs: seq<Val>, ref: Ref, env: Env, buf: Bytes)
    requires !Solid(e) && forall i :: 0 <= i < |vs| ==> HasType(vs[i], e)
    ensures CdrOfElems(e, vs, buf) == buf
    decreases e, 3, |vs|
  {
    if vs != [] {
      NotSolidEncodesNothing(e, ref, env, vs[0], buf);
      NotSolidElems(e, vs[1..], ref, env, buf);
    }
  }

  lemma {:induction false} NotSolidFields(ts: seq<RType>, ref: Ref, k: nat, env: Env, vs: seq<Val>, buf: Bytes)
    requires forall i :: 0 <= i < |ts| ==> !Solid(ts[i])
    ensures EncodeAll(EncodersFor(ts, ref, k), env, buf) == Some(buf)
    ensures |vs| == |ts| && (forall i :: 0 <= i < |ts| ==> HasType(vs[i], ts[i])) ==> CdrOfFields(ts, vs, buf) == buf
    decreases ts, 0
  {
    if ts != [] {
      NotSolidEncodesNothing(ts[0], Ref(ref.root, ref.path + [Dot(k)]), env, if |vs| > 0 then vs[0] else env.v, buf);
      NotSolidFields(ts[1..], ref, k + 1, env, if |vs| > 0 then vs[1..] else [], buf);
    }
  }

  /** The emitted encoder computes the reference encoding, at any offset. */
  lemma {:induction false} EncodeCorrect(t: RType, ctx: Ctx, ref: Ref, env: Env, v: Val, buf: Bytes)
    requires HasType(v, t) && Safe(t, ctx) && Eval(ref, env) == Some(v) && Fits(ctx, ref.path, env.i)
    ensures Encode(EncoderFor(t, ref), env, buf) == Some(CdrOf(t, v, buf))
    decreases t, 2
  {
    match t
    case SeqOf(_) => EncodeSliceCorrect(t, ctx, ref, env, v, buf);
    case ArrOf(_, _) => EncodeArrayCorrect(t, ctx, ref, env, v, buf);
    case Record(_) => EncodeRecordCorrect(t, ctx, ref, env, v, buf);
    case _ => EncodeLeafCorrect(t, ref, env, v, buf);
  }

  lemma EncodeLeafCorrect(t: RType, ref: Ref, env: Env, v: Val, buf: Bytes)
    requires (t.Basic? || t.Str? || t.Octets?) && HasType(v, t) && Eval(ref, env) == Some(v)
    ensures Encode(EncoderFor(t, ref), env, buf) == Some(CdrOf(t, v, buf))
  {
  }

  lemma {:induction false} EncodeRecordCorrect(t: RType, ctx: Ctx, ref: Ref, env: Env, v: Val, buf: Bytes)
    requires t.Record? && HasType(v, t) && Safe(t, ctx) && Eval(ref, env) == Some(v) && Fits(ctx, ref.path, env.i)
    ensures Encode(EncoderFor(t, ref), env, buf) == Some(CdrOf(t, v, buf))
    decreases t, 1
  {
    EncodeFieldsCorrect(t.fields, ctx, ref, env, v.fields, 0, buf);
    assert v.fields[0..] == v.fields;
  }

  lemma {:induction false} EncodeSliceCorrect(t: RType, ctx: Ctx, ref: Ref, env: Env, v: Val, buf: Bytes)
    requires t.SeqOf? && HasType(v, t) && Safe(t, ctx) && Eval(ref, env) == Some(v)
    ensures Encode(EncoderFor(t, ref), env, buf) == Some(CdrOf(t, v, buf))
    decreases t, 1
  {
    if !Solid(t.elem) { NotSolidIsSafe(t.elem, Nested); }
    SliceEncodes(ref, EncoderFor(t.elem, Ref(Elem, [])), env, v, buf);
    EncodeElemsCorrect(t.elem, env, v.elems, PutPrim(buf, Uint32, |v.elems|));
  }

  lemma SliceEncodes(ref: Ref, body: EncStmt, env: Env, v: Val, buf: Bytes)
    requires Eval(ref, env) == Some(v) && v.Slice? && |v.elems| < MAX_COUNT
    ensures InRange(Uint32, |v.elems|)
    ensures Encode(WriteSlice(ref, body), env, buf) == EncodeElems(body, env, v.elems, PutPrim(buf, Uint32, |v.elems|))
  {
    Pow256Values();
  }

  lemma {:induction false} EncodeArrayCorrect(t: RType, ctx: Ctx, ref: Ref, env: Env, v: Val, buf: Bytes)
    requires t.ArrOf? && HasType(v, t) && Safe(t, ctx) && Eval(ref, env) == Some(v) && Fits(ctx, ref.path, env.i)
    ensures Encode(EncoderFor(t, ref), env, buf) == Some(CdrOf(t, v, buf))
    decreases t, 1
  {
    if t.n > 0 {
      if !Solid(t.elem) {
        NotSolidLoop(t.elem, Ref(ref.root, ref.path + [Idx]), env, 0, t.n, buf);
        NotSolidElems(t.elem, v.elems, ref, env, buf);
      } else {
        EncodeLoopCorrect(t.elem, ctx, ref, env, v.elems, 0, buf);
        assert v.elems[0..] == v.elems;
      }
    }
  }

  lemma {:induction false} EncodeElemsCorrect(e: RType, env: Env, vs: seq<Val>, buf: Bytes)
    requires Safe(e, Nested) && forall i :: 0 <= i < |vs| ==> HasType(vs[i], e)
    ensures EncodeElems(EncoderFor(e, Ref(Elem, [])), env, vs, buf) == Some(CdrOfElems(e, vs, buf))
    decreases e, 3, |vs|
  {
    if vs != [] {
      EncodeCorrect(e, Nested, Ref(Elem, []), env.(elem := vs[0]), vs[0], buf);
      EncodeElemsCorrect(e, env, vs[1..], CdrOf(e, vs[0], buf));
    }
  }

  lemma {:induction false} EncodeLoopCorrect(e: RType, ctx: Ctx, ref: Ref, env: Env, vs: seq<Val>, k: nat, buf: Bytes)
    requires k <= |vs| && forall i :: 0 <= i < |vs| ==> HasType(vs[i], e)
    requires Eval(ref, env) == Some(Fixed(vs)) && Fits(ctx, ref.path, env.i)
    requires (ctx.Flat? && Safe(e, if |vs| == 1 then Single else Nested))
      || (ctx.Single? && |vs| == 1 && Safe(e, Single))
    ensures EncodeFrom(EncoderFor(e, Ref(ref.root, ref.path + [Idx])), env, k, |vs|, buf) ==
      Some(CdrOfElems(e, vs[k..], buf))
    decreases e, 3, |vs| - k
  {
    if k < |vs| {
      var env', ref' := env.(i := k), Ref(ref.root, ref.path + [Idx]);
      var root := if ref.root.V? then env.v else env.elem;
      LookupSnoc(root, ref.path, Idx, k);
      if ctx.Flat? { LookupWithoutIndex(root, ref.path, env.i, k); }
      EncodeCorrect(e, if |vs| == 1 then Single else Nested, ref', env', vs[k], buf);
      EncodeLoopCorrect(e, ctx, ref, env, vs, k + 1, CdrOf(e, vs[k], buf));
      assert vs[k..][1..] == vs[k + 1..];
    }
  }

  lemma {:induction false} EncodeFieldsCorrect(ts: seq<RType>, ctx: Ctx, ref: Ref, env: Env, vs: seq<Val>, k: nat,
      buf: Bytes)
    requires k + |ts| == |vs| && forall i :: 0 <= i < |ts| ==> HasType(vs[k + i], ts[i]) && Safe(ts[i], ctx)
    requires Eval(ref, env) == Some(Struct(vs)) && Fits(ctx, ref.path, env.i)
    ensures HasTypes(vs[k..], ts)
    ensures EncodeAll(EncodersFor(ts, ref, k), env, buf) == Some(CdrOfFields(ts, vs[k..], buf))
    decreases ts, 0
  {
    if ts != [] {
      LookupSnoc(if ref.root.V? then env.v else env.elem, ref.path, Dot(k), env.i);
      EncodeCorrect(ts[0], ctx, Ref(ref.root, ref.path + [Dot(k)]), env, vs[k], buf);
      EncodeFieldsCorrect(ts[1..], ctx, ref, env, vs, k + 1, CdrOf(ts[0], vs[k], buf));
      assert vs[k..][1..] == vs[k + 1..];
    }
  }

  predicate HasTypes(vs: seq<Val>, ts: seq<RType>)
  {
    |vs| == |ts| && forall i :: 0 <= i < |ts| ==> HasType(vs[i], ts[i])
  }

  // ------------------------------------------------------------- decoders are correct

  /** Fixed-size parts are in place, as in the zero value of the type. */
  predicate Shaped(v: Val, t: RType)
    decreases t
  {
    match t
    case ArrOf(n, e) => v.Fixed? && |v.elems| == n && forall i :: 0 <= i < n ==> Shaped(v.elems[i], e)
    case Record(ts) => v.Struct? && |v.fields| == |ts| && forall i :: 0 <= i < |ts| ==> Shaped(v.fields[i], ts[i])
    case _ => true
  }

  lemma {:induction false} ZeroIsShaped(t: RType)
    ensures Shaped(Zero(t), t)
  {
    match t
    case ArrOf(_, e) => ZeroIsShaped(e);
    case Record(ts) =>
      forall i | 0 <= i < |ts| ensures Shaped(Zero(ts[i]), ts[i]) { ZeroIsShaped(ts[i]); }
    case _ =>
  }

  /** A type that occupies no bytes has a single value. */
  lemma {:induction false} NotSolidUnique(t: RType, v: Val, w: Val)
    requires !Solid(t) && HasType(v, t) && Shaped(w, t)
    ensures v == w
    decreases t
  {
    match t
    case ArrOf(n, e) =>
      forall i | 0 <= i < n ensures v.elems[i] == w.elems[i] { NotSolidUnique(e, v.elems[i], w.elems[i]); }
    case Record(ts) =>
      forall i | 0 <= i < |ts| ensures v.fields[i] == w.fields[i] { NotSolidUnique(ts[i], v.fields[i], w.fields[i]); }
  }

  lemma {:induction false} NotSolidDecodesNothing(t: RType, dest: seq<Sel>, s: State, i: nat, bs: Bytes)
    requires !Solid(t)
    ensures Decode(DecoderFor(t, dest), s, i, bs) == Some(s)
    decreases t, 0
  {
    match t
    case ArrOf(n, e) => if n > 0 { NotSolidDecodeLoop(e, dest + [Idx], s, 0, n, bs); }
    case Record(ts) => NotSolidDecodeFields(ts, dest, 0, s, i, bs);
  }

  lemma {:induction false} NotSolidDecodeLoop(e: RType, dest: seq<Sel>, s: State, k: nat, n: nat, bs: Bytes)
    requires !Solid(e)
    ensures DecodeFrom(DecoderFor(e, dest), s, k, n, bs) == Some(s)
    decreases e, 3, n - k
  {
    if k < n {
      NotSolidDecodesNothing(e, dest, s, k, bs);
      NotSolidDecodeLoop(e, dest, s, k + 1, n, bs);
    }
  }

  lemma {:induction false} NotSolidDecodeFields(ts: seq<RType>, dest: seq<Sel>, k: nat, s: State, i: nat, bs: Bytes)
    requires forall j :: 0 <= j < |ts| ==> !Solid(ts[j])
    ensures DecodeAll(DecodersFor(ts, dest, k), s, i, bs) == Some(s)
    decreases ts, 0
  {
    if ts != [] {
      NotSolidDecodesNothing(ts[0], dest + [Dot(k)], s, i, bs);
      NotSolidDecodeFields(ts[1..], dest, k + 1, s, i, bs);
    }
  }

  /** The destination exists and the bytes from the current position on begin with the
      encoding of the value. */
  ghost predicate Ready(t: RType, dest: seq<Sel>, s: State, i: nat, v: Val, bs: Bytes)
  {
    && HasType(v, t)
    && Lookup(s.v, dest, i).Some? && Shaped(Lookup(s.v, dest, i).value, t)
    && s.pos <= |bs| && CdrOf(t, v, bs[..s.pos]) <= bs
  }

  /** The emitted decoder stores the encoded value at its destination, changes nothing
      else, and stops where the encoding ends. */
  lemma {:induction false} DecodeCorrect(t: RType, ctx: Ctx, dest: seq<Sel>, s: State, i: nat, v: Val, bs: Bytes)
    requires Safe(t, ctx) && Fits(ctx, dest, i) && Ready(t, dest, s, i, v, bs)
    ensures Decode(DecoderFor(t, dest), s, i, bs) == Assign(s, dest, i, v, |CdrOf(t, v, bs[..s.pos])|)
    decreases t, 2
  {
    match t
    case Basic(p) => PrimRoundTrip(bs[..s.pos], p, v.n, bs);
    case Str => StringRoundTrip(bs[..s.pos], v.s, bs);
    case Octets => CountedRoundTrip(bs[..s.pos], v.bs, bs);
    case SeqOf(_) => DecodeSliceCorrect(t, ctx, dest, s, i, v, bs);
    case ArrOf(_, _) => DecodeArrayCorrect(t, ctx, dest, s, i, v, bs);
    case Record(ts) =>
      assert v.fields[0..] == v.fields;
      DecodeFieldsCorrect(ts, ctx, dest, s, i, v.fields, 0, bs);
  }

  lemma {:induction false} DecodeArrayCorrect(t: RType, ctx: Ctx, dest: seq<Sel>, s: State, i: nat, v: Val, bs: Bytes)
    requires t.ArrOf? && Safe(t, ctx) && Fits(ctx, dest, i) && Ready(t, dest, s, i, v, bs)
    ensures Decode(DecoderFor(t, dest), s, i, bs) == Assign(s, dest, i, v, |CdrOf(t, v, bs[..s.pos])|)
    decreases t, 1
  {
    var cur := Lookup(s.v, dest, i).value;
    if !Solid(t) {
      NotSolidDecodesNothing(t, dest, s, i, bs);
      NotSolidEncodesNothing(t, Ref(V, []), Env(v, v, 0), v, bs[..s.pos]);
      NotSolidUnique(t, v, cur);
      StoreSame(s.v, dest, i);
    } else {
      assert v.elems[0..] == v.elems;
      assert cur == List(false, cur.elems) && LoopSafe(t.elem, ctx, false, t.n);
      assert ElemsPending(t.elem, cur.elems, v.elems, 0);
      DecodeLoopCorrect(t.elem, ctx, dest, s, i, false, cur.elems, v.elems, 0, bs);
    }
  }

  lemma {:induction false} DecodeSliceCorrect(t: RType, ctx: Ctx, dest: seq<Sel>, s: State, i: nat, v: Val, bs: Bytes)
    requires t.SeqOf? && Safe(t, ctx) && Fits(ctx, dest, i) && Ready(t, dest, s, i, v, bs)
    ensures Decode(DecoderFor(t, dest), s, i, bs) == Assign(s, dest, i, v, |CdrOf(t, v, bs[..s.pos])|)
    decreases t, 1
  {
    var e, n, buf := t.elem, |v.elems|, bs[..s.pos];
    Pow256Values();
    CdrElemsExtend(e, v.elems, PutPrim(buf, Uint32, n));
    PrimRoundTrip(buf, Uint32, n, bs);
    var made := Slice(Repeat(Zero(e), n));
    var s' := AssignAgain(s, dest, i, made, |PutPrim(buf, Uint32, n)|, v, |CdrOf(t, v, buf)|);
    assert bs[..s'.pos] == PutPrim(buf, Uint32, n);
    ZeroIsShaped(e);
    if !Solid(e) {
      NotSolidDecodeLoop(e, dest + [Idx], s', 0, n, bs);
      NotSolidElems(e, v.elems, Ref(V, []), Env(v, v, 0), bs[..s'.pos]);
      forall j | 0 <= j < n ensures v.elems[j] == made.elems[j] { NotSolidUnique(e, v.elems[j], Zero(e)); }
      assert v == made;
    } else {
      assert v.elems[0..] == v.elems;
      DecodeLoopCorrect(e, ctx, dest, s', i, true, made.elems, v.elems, 0, bs);
    }
  }

  /** A later assignment to the same destination makes an earlier one irrelevant. */
  lemma AssignAgain(s: State, dest: seq<Sel>, i: nat, x: Val, pos: nat, y: Val, end: nat) returns (s': State)
    requires Lookup(s.v, dest, i).Some?
    ensures Assign(s, dest, i, x, pos) == Some(s') && s'.pos == pos && Lookup(s'.v, dest, i) == Some(x)
    ensures Assign(s', dest, i, y, end) == Assign(s, dest, i, y, end)
  {
    StoreThenLookup(s.v, dest, i, x, y);
    s' := State(Store(s.v, dest, i, x).value, pos);
  }

  function List(slice: bool, vs: seq<Val>): Val
  {
    if slice then Slice(vs) else Fixed(vs)
  }

  /** The context of a loop's body. */
  function Inner(slice: bool, n: nat): Ctx
  {
    if !slice && n == 1 then Single else Nested
  }

  predicate LoopSafe(e: RType, ctx: Ctx, slice: bool, n: nat)
  {
    Safe(e, Inner(slice, n)) && (ctx.Flat? || (ctx.Single? && !slice && n == 1))
  }

  /** One iteration stores one element of the list at the destination. */
  lemma {:induction false} DecodeLoopStep(e: RType, ctx: Ctx, dest: seq<Sel>, s: State, i: nat, slice: bool,
                                          cur: seq<Val>, x: Val, k: nat, bs: Bytes)
    requires k < |cur| && HasType(x, e) && Shaped(cur[k], e)
    requires Lookup(s.v, dest, i) == Some(List(slice, cur)) && Fits(ctx, dest, i) && LoopSafe(e, ctx, slice, |cur|)
    requires s.pos <= |bs| && CdrOf(e, x, bs[..s.pos]) <= bs
    ensures Decode(DecoderFor(e, dest + [Idx]), s, k, bs)
         == Assign(s, dest, i, List(slice, cur[k := x]), |CdrOf(e, x, bs[..s.pos])|)
    decreases e, 3
  {
    LookupSnoc(s.v, dest, Idx, k);
    if ctx.Flat? { LookupWithoutIndex(s.v, dest, i, k); }
    DecodeCorrect(e, Inner(slice, |cur|), dest + [Idx], s, k, x, bs);
    StoreSnoc(s.v, dest, Idx, k, x);
    if ctx.Flat? { StoreWithoutIndex(s.v, dest, i, k, List(slice, cur[k := x])); }
  }

  lemma {:induction false} DecodeLoopCorrect(e: RType, ctx: Ctx, dest: seq<Sel>, s: State, i: nat, slice: bool,
                                             cur: seq<Val>, vs: seq<Val>, k: nat, bs: Bytes)
    requires k <= |vs| == |cur| && (forall j :: 0 <= j < |vs| ==> HasType(vs[j], e))
    requires ElemsPending(e, cur, vs, k)
    requires Lookup(s.v, dest, i) == Some(List(slice, cur)) && Fits(ctx, dest, i) && LoopSafe(e, ctx, slice, |vs|)
    requires s.pos <= |bs| && CdrOfElems(e, vs[k..], bs[..s.pos]) <= bs
    ensures DecodeFrom(DecoderFor(e, dest + [Idx]), s, k, |vs|, bs)
         == Assign(s, dest, i, List(slice, vs), |CdrOfElems(e, vs[k..], bs[..s.pos])|)
    decreases e, 4, |vs| - k
  {
    if k == |vs| {
      assert cur == vs;
      StoreSame(s.v, dest, i);
    } else {
      var buf, end := bs[..s.pos], |CdrOfElems(e, vs[k..], bs[..s.pos])|;
      ElemsTurn(e, vs, k, buf);
      DecodeLoopStep(e, ctx, dest, s, i, slice, cur, vs[k], k, bs);
      var s' := AssignAgain(s, dest, i, List(slice, cur[k := vs[k]]), |CdrOf(e, vs[k], buf)|, List(slice, vs), end);
      DecodeFromTurn(DecoderFor(e, dest + [Idx]), s, s', k, |vs|, bs);
      PrefixIs(CdrOf(e, vs[k], buf), bs);
      ElemsPendingTurn(e, cur, vs, k);
      DecodeLoopCorrect(e, ctx, dest, s', i, slice, cur[k := vs[k]], vs, k + 1, bs);
    }
  }

  /** The first `k` elements are decoded, and those after them are still in shape. */
  ghost predicate ElemsPending(e: RType, cur: seq<Val>, vs: seq<Val>, k: nat)
  {
    k <= |vs| == |cur| && cur[..k] == vs[..k] && forall j :: k <= j < |cur| ==> Shaped(cur[j], e)
  }

  lemma ElemsPendingTurn(e: RType, cur: seq<Val>, vs: seq<Val>, k: nat)
    requires ElemsPending(e, cur, vs, k) && k < |vs|
    ensures ElemsPending(e, cur[k := vs[k]], vs, k + 1)
  {
    assert cur[k := vs[k]][..k + 1] == vs[..k + 1];
  }

  /** The encoding of the elements from `k` is that of the k-th and then of the rest. */
  lemma ElemsTurn(e: RType, vs: seq<Val>, k: nat, buf: Bytes)
    requires k < |vs| && forall j :: 0 <= j < |vs| ==> HasType(vs[j], e)
    ensures CdrOfElems(e, vs[k..], buf) == CdrOfElems(e, vs[k + 1..], CdrOf(e, vs[k], buf))
    ensures CdrOf(e, vs[k], buf) <= CdrOfElems(e, vs[k..], buf)
  {
    assert vs[k..][1..] == vs[k + 1..];
    CdrElemsExtend(e, vs[k + 1..], CdrOf(e, vs[k], buf));
  }

  lemma DecodeFromTurn(body: DecStmt, s: State, s': State, k: nat, n: nat, bs: Bytes)
    requires k < n && Decode(body, s, k, bs) == Some(s')
    ensures DecodeFrom(body, s, k, n, bs) == DecodeFrom(body, s', k + 1, n, bs)
  {
  }

  lemma {:induction false} DecodeFieldsCorrect(ts: seq<RType>, ctx: Ctx, dest: seq<Sel>, s: State, i: nat,
                                               vs: seq<Val>, k: nat, bs: Bytes)
    requires k + |ts| == |vs| && AllSafe(ts, ctx)
    requires HasTypes(vs[k..], ts) && Fits(ctx, dest, i)
    requires Lookup(s.v, dest, i).Some? && FieldsPending(Lookup(s.v, dest, i).value, ts, vs, k)
    requires s.pos <= |bs| && CdrOfFields(ts, vs[k..], bs[..s.pos]) <= bs
    ensures DecodeAll(DecodersFor(ts, dest, k), s, i, bs)
         == Assign(s, dest, i, Struct(vs), |CdrOfFields(ts, vs[k..], bs[..s.pos])|)
    decreases ts, 0
  {
    var cur := Lookup(s.v, dest, i).value;
    if ts == [] {
      assert cur.fields == vs;
      StoreSame(s.v, dest, i);
    } else {
      var buf, end := bs[..s.pos], |CdrOfFields(ts, vs[k..], bs[..s.pos])|;
      FieldsTurn(ts, vs, k, buf);
      DecodeFieldStep(ts[0], ctx, dest, s, i, cur.fields, vs[k], k, bs);
      var s' := AssignAgain(s, dest, i, Struct(cur.fields[k := vs[k]]), |CdrOf(ts[0], vs[k], buf)|, Struct(vs), end);
      DecodeAllTurn(DecoderFor(ts[0], dest + [Dot(k)]), DecodersFor(ts[1..], dest, k + 1), s, s', i, bs);
      PendingTurn(cur, ts, vs, k);
      SafeTurn(ts, ctx);
      PrefixIs(CdrOf(ts[0], vs[k], buf), bs);
      DecodeFieldsCorrect(ts[1..], ctx, dest, s', i, vs, k + 1, bs);
    }
  }

  lemma PendingTurn(cur: Val, ts: seq<RType>, vs: seq<Val>, k: nat)
    requires ts != [] && k + |ts| == |vs| && FieldsPending(cur, ts, vs, k)
    ensures FieldsPending(Struct(cur.fields[k := vs[k]]), ts[1..], vs, k + 1)
  {
    assert cur.fields[k := vs[k]][..k + 1] == vs[..k + 1];
  }

  predicate AllSafe(ts: seq<RType>, ctx: Ctx)
  {
    forall j :: 0 <= j < |ts| ==> Safe(ts[j], ctx)
  }

  lemma SafeTurn(ts: seq<RType>, ctx: Ctx)
    requires ts != [] && AllSafe(ts, ctx)
    ensures Safe(ts[0], ctx) && AllSafe(ts[1..], ctx)
  {
  }

  lemma PrefixIs(a: Bytes, bs: Bytes)
    requires a <= bs
    ensures bs[..|a|] == a
  {
  }

  /** One statement stores one field of the struct at the destination. */
  lemma {:induction false} DecodeFieldStep(t: RType, ctx: Ctx, dest: seq<Sel>, s: State, i: nat, cur: seq<Val>,
      x: Val, k: nat, bs: Bytes)
    requires k < |cur| && HasType(x, t) && Shaped(cur[k], t) && Safe(t, ctx) && Fits(ctx, dest, i)
    requires Lookup(s.v, dest, i) == Some(Struct(cur)) && s.pos <= |bs| && CdrOf(t, x, bs[..s.pos]) <= bs
    ensures Decode(DecoderFor(t, dest + [Dot(k)]), s, i, bs)
         == Assign(s, dest, i, Struct(cur[k := x]), |CdrOf(t, x, bs[..s.pos])|)
    decreases t, 3
  {
    LookupSnoc(s.v, dest, Dot(k), i);
    assert Idx !in dest ==> Idx !in dest + [Dot(k)];
    DecodeCorrect(t, ctx, dest + [Dot(k)], s, i, x, bs);
    StoreSnoc(s.v, dest, Dot(k), i, x);
  }

  lemma FieldsTurn(ts: seq<RType>, vs: seq<Val>, k: nat, buf: Bytes)
    requires ts != [] && k + |ts| == |vs| && HasTypes(vs[k..], ts)
    ensures vs[k..][1..] == vs[k + 1..] && HasType(vs[k], ts[0]) && HasTypes(vs[k + 1..], ts[1..])
    ensures CdrOfFields(ts, vs[k..], buf) == CdrOfFields(ts[1..], vs[k + 1..], CdrOf(ts[0], vs[k], buf))
    ensures CdrOf(ts[0], vs[k], buf) <= CdrOfFields(ts, vs[k..], buf)
  {
    assert vs[k..][1..] == vs[k + 1..] && vs[k..][0] == vs[k];
    CdrFieldsExtend(ts[1..], vs[k + 1..], CdrOf(ts[0], vs[k], buf));
  }

  lemma DecodeAllTurn(first: DecStmt, rest: seq<DecStmt>, s: State, s': State, i: nat, bs: Bytes)
    requires Decode(first, s, i, bs) == Some(s')
    ensures DecodeAll([first] + rest, s, i, bs) == DecodeAll(rest, s', i, bs)
  {
    assert ([first] + rest)[1..] == rest;
  }

  /** The first `k` fields are decoded, and those after them are still in shape. */
  ghost predicate FieldsPending(cur: Val, ts: seq<RType>, vs: seq<Val>, k: nat)
    requires k + |ts| == |vs|
  {
    && cur.Struct? && |cur.fields| == |vs| && cur.fields[..k] == vs[..k]
    && forall j :: k <= j < |vs| ==> Shaped(cur.fields[j], ts[j - k])
  }
}
