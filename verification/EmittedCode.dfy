/** The codec statements that the IDL compiler emits, and what running them does.

    The emitted Go code names every loop index `_i` and every range element `_elem`, and
    inner loops shadow outer ones. References are therefore kept as they are written, as a
    root and a list of selectors in which every index is the same variable, and are resolved
    against the values that `v`, `_elem` and `_i` have where the statement runs. */
module EmittedCode {
  import opened Wire
  import opened Cdr

  /** A type with its references expanded. Enumerations are 32-bit integers. */
  datatype RType =
    | Basic(p: Prim)
    | Str
    | Octets
    | SeqOf(elem: RType)
    | ArrOf(n: nat, elem: RType)
    | Record(fields: seq<RType>)

  datatype Val =
    | Number(n: int)
    | Text(s: Bytes)
    | Blob(bs: Bytes)
    | Slice(elems: seq<Val>)
    | Fixed(elems: seq<Val>)
    | Struct(fields: seq<Val>)

  const MAX_COUNT: nat := 0x1_0000_0000

  predicate HasType(v: Val, t: RType)
    decreases t
  {
    match t
    case Basic(p) => v.Number? && InRange(p, v.n)
    case Str => v.Text? && |v.s| + 1 < MAX_COUNT
    case Octets => v.Blob? && |v.bs| < MAX_COUNT
    case SeqOf(e) => v.Slice? && |v.elems| < MAX_COUNT && forall i :: 0 <= i < |v.elems| ==> HasType(v.elems[i], e)
    case ArrOf(n, e) => v.Fixed? && |v.elems| == n && forall i :: 0 <= i < n ==> HasType(v.elems[i], e)
    case Record(ts) => v.Struct? && |v.fields| == |ts| && forall i :: 0 <= i < |ts| ==> HasType(v.fields[i], ts[i])
  }

  /** The Go zero value of a type. */
  function Zero(t: RType): (v: Val)
    decreases t
  {
    match t
    case Basic(_) => Number(0)
    case Str => Text([])
    case Octets => Blob([])
    case SeqOf(_) => Slice([])
    case ArrOf(n, e) => Fixed(Repeat(Zero(e), n))
    case Record(ts) => Struct(Zeros(ts))
  }

  function Zeros(ts: seq<RType>): (vs: seq<Val>)
    ensures |vs| == |ts| && forall i :: 0 <= i < |ts| ==> vs[i] == Zero(ts[i])
    decreases ts, 0
  {
    if ts == [] then [] else [Zero(ts[0])] + Zeros(ts[1..])
  }

  function Repeat(v: Val, n: nat): (vs: seq<Val>)
    ensures |vs| == n && forall i :: 0 <= i < n ==> vs[i] == v
  {
    if n == 0 then [] else Repeat(v, n - 1) + [v]
  }

  // ------------------------------------------------------------------- references

  /** `.Field` or `[_i]`. */
  datatype Sel = Dot(k: nat) | Idx

  function Child(v: Val, s: Sel, i: nat): Option<Val>
  {
    match s
    case Dot(k) => if v.Struct? && k < |v.fields| then Some(v.fields[k]) else None
    case Idx => if (v.Slice? || v.Fixed?) && i < |v.elems| then Some(v.elems[i]) else None
  }

  function WithChild(v: Val, s: Sel, i: nat, x: Val): Val
    requires Child(v, s, i).Some?
  {
    match s
    case Dot(k) => v.(fields := v.fields[k := x])
    case Idx => v.(elems := v.elems[i := x])
  }

  /** The value at a path when `_i` is `i`; an index out of range is a run-time panic. */
  function Lookup(v: Val, path: seq<Sel>, i: nat): Option<Val>
    decreases |path|
  {
    if path == [] then Some(v)
    else if Child(v, path[0], i).None? then None
    else Lookup(Child(v, path[0], i).value, path[1..], i)
  }

  function Store(v: Val, path: seq<Sel>, i: nat, x: Val): Option<Val>
    decreases |path|
  {
    if path == [] then Some(x)
    else if Child(v, path[0], i).None? then None
    else
      var c := Store(Child(v, path[0], i).value, path[1..], i, x);
      if c.None? then None else Some(WithChild(v, path[0], i, c.value))
  }

  // -------------------------------------------------------------- emitted encoders

  datatype Root = V | Elem

  datatype Ref = Ref(root: Root, path: seq<Sel>)

  datatype EncStmt =
    | WritePrim(p: Prim, ref: Ref)
    | WriteText(ref: Ref)
    | WriteBlob(ref: Ref)
    | WriteSlice(ref: Ref, body: EncStmt)     // length, then `for _, _elem := range ref { body }`
    | EncLoop(n: nat, ref: Ref, body: EncStmt) // `for _i := range ref { body }`, ref being an array
    | EncBlock(stmts: seq<EncStmt>)

  datatype Env = Env(v: Val, elem: Val, i: nat)

  function Eval(ref: Ref, env: Env): Option<Val>
  {
    Lookup(if ref.root.V? then env.v else env.elem, ref.path, env.i)
  }

  /** Runs an encoder statement on the buffer; nothing results from a panic. */
  function Encode(s: EncStmt, env: Env, buf: Bytes): Option<Bytes>
    decreases s, 0
  {
    match s
    case WritePrim(p, ref) =>
      var x := Eval(ref, env);
      if x.Some? && x.value.Number? && InRange(p, x.value.n) then Some(PutPrim(buf, p, x.value.n)) else None
    case WriteText(ref) =>
      var x := Eval(ref, env);
      if x.Some? && x.value.Text? then Some(PutString(buf, x.value.s)) else None
    case WriteBlob(ref) =>
      var x := Eval(ref, env);
      if x.Some? && x.value.Blob? then Some(PutCounted(buf, x.value.bs)) else None
    case WriteSlice(ref, body) =>
      var x := Eval(ref, env);
      if x.Some? && x.value.Slice? then
        Pow256Values();
        EncodeElems(body, env, x.value.elems, PutPrim(buf, Uint32, Count32(|x.value.elems|)))
      else None
    case EncLoop(n, _, body) => EncodeFrom(body, env, 0, n, buf)
    case EncBlock(stmts) => EncodeAll(stmts, env, buf)
  }

  /** A length as a 32-bit count. */
  function Count32(n: nat): (c: nat)
    ensures c < MAX_COUNT
  {
    if n < MAX_COUNT then n else n % MAX_COUNT
  }

  function EncodeElems(body: EncStmt, env: Env, elems: seq<Val>, buf: Bytes): Option<Bytes>
    decreases body, 1, |elems|
  {
    if elems == [] then Some(buf)
    else
      var r := Encode(body, env.(elem := elems[0]), buf);
      if r.None? then None else EncodeElems(body, env, elems[1..], r.value)
  }

  function EncodeFrom(body: EncStmt, env: Env, k: nat, n: nat, buf: Bytes): Option<Bytes>
    decreases body, 1, n - k
  {
    if k >= n then Some(buf)
    else
      var r := Encode(body, env.(i := k), buf);
      if r.None? then None else EncodeFrom(body, env, k + 1, n, r.value)
  }

  function EncodeAll(stmts: seq<EncStmt>, env: Env, buf: Bytes): Option<Bytes>
    decreases stmts, 0
  {
    if stmts == [] then Some(buf)
    else
      var r := Encode(stmts[0], env, buf);
      if r.None? then None else EncodeAll(stmts[1..], env, r.value)
  }

  // -------------------------------------------------------------- emitted decoders

  datatype DecStmt =
    | ReadPrim(p: Prim, dest: seq<Sel>)
    | ReadText(dest: seq<Sel>)
    | ReadBlob(dest: seq<Sel>)
    | ReadSlice(dest: seq<Sel>, elem: RType, body: DecStmt) // length, allocation, `for _i := range dest { body }`
    | DecLoop(n: nat, dest: seq<Sel>, body: DecStmt)
    | DecBlock(stmts: seq<DecStmt>)

  /** The value being filled and the position in the buffer. */
  datatype State = State(v: Val, pos: nat)

  function Assign(s: State, dest: seq<Sel>, i: nat, x: Val, pos: nat): Option<State>
  {
    var v := Store(s.v, dest, i, x);
    if v.None? then None else Some(State(v.value, pos))
  }

  /** Runs a decoder statement; nothing results from a returned error or a panic. */
  function Decode(d: DecStmt, s: State, i: nat, bs: Bytes): Option<State>
    decreases d, 0
  {
    match d
    case ReadPrim(p, dest) =>
      var r := GetPrim(p, bs, s.pos);
      if r.None? then None else Assign(s, dest, i, Number(r.value.0), r.value.1)
    case ReadText(dest) =>
      var r := GetString(bs, s.pos);
      if r.None? then None else Assign(s, dest, i, Text(r.value.0), r.value.1)
    case ReadBlob(dest) =>
      var r := GetCounted(bs, s.pos);
      if r.None? then None else Assign(s, dest, i, Blob(r.value.0), r.value.1)
    case ReadSlice(dest, e, body) =>
      var r := GetPrim(Uint32, bs, s.pos);
      if r.None? then None
      else
        var made := Assign(s, dest, i, Slice(Repeat(Zero(e), r.value.0)), r.value.1);
        if made.None? then None else DecodeFrom(body, made.value, 0, r.value.0, bs)
    case DecLoop(n, _, body) => DecodeFrom(body, s, 0, n, bs)
    case DecBlock(stmts) => DecodeAll(stmts, s, i, bs)
  }

  function DecodeFrom(body: DecStmt, s: State, k: nat, n: nat, bs: Bytes): Option<State>
    decreases body, 1, n - k
  {
    if k >= n then Some(s)
    else
      var r := Decode(body, s, k, bs);
      if r.None? then None else DecodeFrom(body, r.value, k + 1, n, bs)
  }

  function DecodeAll(stmts: seq<DecStmt>, s: State, i: nat, bs: Bytes): Option<State>
    decreases stmts, 0
  {
    if stmts == [] then Some(s)
    else
      var r := Decode(stmts[0], s, i, bs);
      if r.None? then None else DecodeAll(stmts[1..], r.value, i, bs)
  }

  // ------------------------------------------------------------------- the compiler

  function EncoderFor(t: RType, ref: Ref): EncStmt
    decreases t, 0
  {
    match t
    case Basic(p) => WritePrim(p, ref)
    case Str => WriteText(ref)
    case Octets => WriteBlob(ref)
    case SeqOf(e) => WriteSlice(ref, EncoderFor(e, Ref(Elem, [])))
    case ArrOf(n, e) => EncLoop(n, ref, EncoderFor(e, Ref(ref.root, ref.path + [Idx])))
    case Record(ts) => EncBlock(EncodersFor(ts, ref, 0))
  }

  /** The encoders of the fields numbered from `k`. */
  function EncodersFor(ts: seq<RType>, ref: Ref, k: nat): seq<EncStmt>
    decreases ts, 0
  {
    if ts == [] then []
    else [EncoderFor(ts[0], Ref(ref.root, ref.path + [Dot(k)]))] + EncodersFor(ts[1..], ref, k + 1)
  }

  function DecoderFor(t: RType, dest: seq<Sel>): DecStmt
    decreases t, 0
  {
    match t
    case Basic(p) => ReadPrim(p, dest)
    case Str => ReadText(dest)
    case Octets => ReadBlob(dest)
    case SeqOf(e) => ReadSlice(dest, e, DecoderFor(e, dest + [Idx]))
    case ArrOf(n, e) => DecLoop(n, dest, DecoderFor(e, dest + [Idx]))
    case Record(ts) => DecBlock(DecodersFor(ts, dest, 0))
  }

  function DecodersFor(ts: seq<RType>, dest: seq<Sel>, k: nat): seq<DecStmt>
    decreases ts, 0
  {
    if ts == [] then []
    else [DecoderFor(ts[0], dest + [Dot(k)])] + DecodersFor(ts[1..], dest, k + 1)
  }

  /** The emitted `Marshal`. */
  function Marshal(t: RType, v: Val): Option<Bytes>
  {
    Encode(EncoderFor(t, Ref(V, [])), Env(v, v, 0), HEADER)
  }

  /** The emitted `Unmarshal`; the second component is the number of bytes consumed. */
  function Unmarshal(t: RType, data: Bytes): Option<(Val, nat)>
  {
    if !AcceptsHeader(data) then None
    else
      var r := Decode(DecoderFor(t, []), State(Zero(t), 4), 0, data);
      if r.None? then None else Some((r.value.v, r.value.pos))
  }
}
