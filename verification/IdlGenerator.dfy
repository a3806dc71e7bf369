/** The IDL compiler's expansion of types into codec statements: name lookup, typedef
    resolution and the guard against cyclic structs. */
module IdlGenerator {
  import opened Wire
  import opened Cdr
  import opened EmittedCode
  import CodecRoundTrip
  import CodecLimits

  /** A possibly qualified name, split at `::`. */
  type Name = n: seq<string> | n != [] witness [""]

  function Bare(n: Name): Name
  {
    [n[|n| - 1]]
  }

  datatype TypeSpec =
    | Primitive(p: Prim)
    | StringType
    | Sequence(elem: TypeSpec)
    | Array(n: nat, elemOrNil: Option<TypeSpec>)
    | Named(name: Name)                      // a struct, an enum or a typedef
    | EnumType(name: Name)
    | Unhandled

  datatype StructDecl = StructDecl(name: string, fields: seq<TypeSpec>)
  datatype Typedef = Typedef(name: string, type_: TypeSpec)
  datatype Module = Module(name: string, typedefs: seq<Typedef>, enums: seq<string>, structs: seq<StructDecl>,
      modules: seq<Module>)

  // --------------------------------------------------------------------- lookups

  function FirstStruct(ss: seq<StructDecl>, name: string): Option<StructDecl>
  {
    if ss == [] then None else if ss[0].name == name then Some(ss[0]) else FirstStruct(ss[1..], name)
  }

  function FirstTypedef(ts: seq<Typedef>, name: string): Option<Typedef>
  {
    if ts == [] then None else if ts[0].name == name then Some(ts[0]) else FirstTypedef(ts[1..], name)
  }

  /** A qualified name descends into the first submodule so called; a simple one is sought
      here and then, depth first, below. */
  function SearchStruct(m: Module, n: Name): Option<StructDecl>
    decreases m, 1
  {
    if |n| > 1 then StructIn(m.modules, n)
    else if FirstStruct(m.structs, n[0]).Some? then FirstStruct(m.structs, n[0])
    else StructIn(m.modules, n)
  }

  function StructIn(ms: seq<Module>, n: Name): Option<StructDecl>
    decreases ms, 0
  {
    if ms == [] then None
    else if |n| > 1 then
      if ms[0].name == n[0] then SearchStruct(ms[0], n[1..]) else StructIn(ms[1..], n)
    else if SearchStruct(ms[0], n).Some? then SearchStruct(ms[0], n)
    else StructIn(ms[1..], n)
  }

  function SearchTypedef(m: Module, n: Name): Option<Typedef>
    decreases m, 1
  {
    if |n| > 1 then TypedefIn(m.modules, n)
    else if FirstTypedef(m.typedefs, n[0]).Some? then FirstTypedef(m.typedefs, n[0])
    else TypedefIn(m.modules, n)
  }

  function TypedefIn(ms: seq<Module>, n: Name): Option<Typedef>
    decreases ms, 0
  {
    if ms == [] then None
    else if |n| > 1 then
      if ms[0].name == n[0] then SearchTypedef(ms[0], n[1..]) else TypedefIn(ms[1..], n)
    else if SearchTypedef(ms[0], n).Some? then SearchTypedef(ms[0], n)
    else TypedefIn(ms[1..], n)
  }

  predicate IsEnum(m: Module, n: Name)
    decreases m, 1
  {
    if |n| > 1 then EnumIn(m.modules, n) else n[0] in m.enums || EnumIn(m.modules, n)
  }

  predicate EnumIn(ms: seq<Module>, n: Name)
    decreases ms, 0
  {
    if ms == [] then false
    else if |n| > 1 then
      if ms[0].name == n[0] then IsEnum(ms[0], n[1..]) else EnumIn(ms[1..], n)
    else IsEnum(ms[0], n) || EnumIn(ms[1..], n)
  }

  /** One level of typedef, found by the bare name. */
  function ResolveTypedef(m: Module, ts: TypeSpec): TypeSpec
  {
    if !ts.Named? then ts
    else
      var td := SearchTypedef(m, Bare(ts.name));
      if td.None? then ts else td.value.type_
  }

  // -------------------------------------------------------- what a type stands for

  /** `rt` is the finite tree a type unfolds to. */
  ghost predicate Expands(m: Module, ts: TypeSpec, rt: RType)
    decreases rt, 1
  {
    match ResolveTypedef(m, ts)
    case Primitive(p) => rt == Basic(p)
    case StringType => rt == Str
    case Sequence(e) => if e == Primitive(Uint8) then rt == Octets else rt.SeqOf? && Expands(m, e, rt.elem)
    case Array(n, e) => e.Some? && rt.ArrOf? && rt.n == n && Expands(m, e.value, rt.elem)
    case Named(name) => if IsEnum(m, name) then rt == Basic(Int32) else ExpandsStruct(m, name, rt)
    case EnumType(_) => rt == Basic(Int32)
    case Unhandled => false
  }

  ghost predicate ExpandsStruct(m: Module, name: Name, rt: RType)
    decreases rt, 0
  {
    var s := SearchStruct(m, name);
    && s.Some? && rt.Record? && |rt.fields| == |s.value.fields|
    && forall i :: 0 <= i < |rt.fields| ==> Expands(m, s.value.fields[i], rt.fields[i])
  }

  /** The same, while the structs in `open` are being expanded and must not be met again. */
  ghost predicate ExpandsUnder(m: Module, ts: TypeSpec, rt: RType, open: set<Name>)
    decreases rt
  {
    match ResolveTypedef(m, ts)
    case Primitive(p) => rt == Basic(p)
    case StringType => rt == Str
    case Sequence(e) => if e == Primitive(Uint8) then rt == Octets else rt.SeqOf? && ExpandsUnder(m, e, rt.elem, open)
    case Array(n, e) => e.Some? && rt.ArrOf? && rt.n == n && ExpandsUnder(m, e.value, rt.elem, open)
    case Named(name) =>
      if IsEnum(m, name) then rt == Basic(Int32)
      else
        var s := SearchStruct(m, name);
        && s.Some? && name !in open && rt.Record? && |rt.fields| == |s.value.fields|
        && forall i :: 0 <= i < |rt.fields| ==> ExpandsUnder(m, s.value.fields[i], rt.fields[i], open + {name})
    case EnumType(_) => rt == Basic(Int32)
    case Unhandled => false
  }

  lemma {:induction false} ExpansionUnique(m: Module, ts: TypeSpec, a: RType, b: RType)
    requires Expands(m, ts, a) && Expands(m, ts, b)
    ensures a == b
    decreases a
  {
    match ResolveTypedef(m, ts)
    case Sequence(e) => if e != Primitive(Uint8) { ExpansionUnique(m, e, a.elem, b.elem); }
    case Array(_, e) => ExpansionUnique(m, e.value, a.elem, b.elem);
    case Named(name) =>
      if !IsEnum(m, name) {
        var s := SearchStruct(m, name).value;
        forall i | 0 <= i < |a.fields| ensures a.fields[i] == b.fields[i] {
          ExpansionUnique(m, s.fields[i], a.fields[i], b.fields[i]);
        }
      }
    case _ =>
  }

  function TreeSize(t: RType): (n: nat)
    ensures n > 0
  {
    match t
    case SeqOf(e) => 1 + TreeSize(e)
    case ArrOf(_, e) => 1 + TreeSize(e)
    case Record(ts) => 1 + TreeSizes(ts)
    case _ => 1
  }

  function TreeSizes(ts: seq<RType>): (n: nat)
    ensures forall i :: 0 <= i < |ts| ==> TreeSize(ts[i]) <= n
  {
    if ts == [] then 0 else TreeSize(ts[0]) + TreeSizes(ts[1..])
  }

  /** Every open struct unfolds to something larger than `n`. */
  ghost predicate Enclosing(m: Module, open: set<Name>, n: nat)
  {
    forall name, big :: name in open && ExpandsStruct(m, name, big) ==> TreeSize(big) > n
  }

  /** A finite tree never meets an open struct: the guard refuses only infinite types. */
  lemma {:induction false} GuardIsExact(m: Module, ts: TypeSpec, rt: RType, open: set<Name>)
    requires Expands(m, ts, rt) && Enclosing(m, open, TreeSize(rt))
    ensures ExpandsUnder(m, ts, rt, open)
    decreases rt
  {
    match ResolveTypedef(m, ts)
    case Sequence(e) => if e != Primitive(Uint8) { GuardIsExact(m, e, rt.elem, open); }
    case Array(_, e) => GuardIsExact(m, e.value, rt.elem, open);
    case Named(name) =>
      if !IsEnum(m, name) {
        var s := SearchStruct(m, name).value;
        forall big | ExpandsStruct(m, name, big) ensures big == rt { StructUnique(m, name, big, rt); }
        forall i | 0 <= i < |rt.fields|
          ensures ExpandsUnder(m, s.fields[i], rt.fields[i], open + {name})
        {
          assert TreeSize(rt.fields[i]) < TreeSize(rt);
          GuardIsExact(m, s.fields[i], rt.fields[i], open + {name});
        }
      }
    case _ =>
  }

  lemma StructUnique(m: Module, name: Name, a: RType, b: RType)
    requires ExpandsStruct(m, name, a) && ExpandsStruct(m, name, b)
    ensures a == b
  {
    var s := SearchStruct(m, name).value;
    forall i | 0 <= i < |a.fields| ensures a.fields[i] == b.fields[i] {
      ExpansionUnique(m, s.fields[i], a.fields[i], b.fields[i]);
    }
  }

  lemma {:induction false} UnderImpliesExpands(m: Module, ts: TypeSpec, rt: RType, open: set<Name>)
    requires ExpandsUnder(m, ts, rt, open)
    ensures Expands(m, ts, rt)
    decreases rt
  {
    match ResolveTypedef(m, ts)
    case Sequence(e) => if e != Primitive(Uint8) { UnderImpliesExpands(m, e, rt.elem, open); }
    case Array(_, e) => UnderImpliesExpands(m, e.value, rt.elem, open);
    case Named(name) =>
      if !IsEnum(m, name) {
        var s := SearchStruct(m, name).value;
        forall i | 0 <= i < |rt.fields| ensures Expands(m, s.fields[i], rt.fields[i]) {
          UnderImpliesExpands(m, s.fields[i], rt.fields[i], open + {name});
        }
      }
    case _ =>
  }

  /** With nothing open, the guarded expansion is the plain one. */
  lemma NothingOpen(m: Module, ts: TypeSpec, rt: RType)
    ensures Expands(m, ts, rt) <==> ExpandsUnder(m, ts, rt, {})
  {
    if Expands(m, ts, rt) { GuardIsExact(m, ts, rt, {}); }
    if ExpandsUnder(m, ts, rt, {}) { UnderImpliesExpands(m, ts, rt, {}); }
  }

  // ---------------------------------------------------------------- termination

  function Names(ts: TypeSpec): set<Name>
  {
    match ts
    case Sequence(e) => Names(e)
    case Array(_, Some(e)) => Names(e)
    case Named(n) => {n}
    case _ => {}
  }

  function NamesOf(tss: seq<TypeSpec>): (names: set<Name>)
    ensures forall i :: 0 <= i < |tss| ==> Names(tss[i]) <= names
  {
    if tss == [] then {} else Names(tss[0]) + NamesOf(tss[1..])
  }

  /** Every name that lookups can lead to is in the finite set `all`. */
  ghost predicate Closed(m: Module, all: set<Name>)
  {
    && (forall n :: SearchStruct(m, n).Some? ==> NamesOf(SearchStruct(m, n).value.fields) <= all)
    && forall n :: SearchTypedef(m, n).Some? ==> Names(SearchTypedef(m, n).value.type_) <= all
  }

  function StructNames(ss: seq<StructDecl>): (names: set<Name>)
    ensures forall i :: 0 <= i < |ss| ==> NamesOf(ss[i].fields) <= names
  {
    if ss == [] then {} else NamesOf(ss[0].fields) + StructNames(ss[1..])
  }

  function TypedefNames(ts: seq<Typedef>): (names: set<Name>)
    ensures forall i :: 0 <= i < |ts| ==> Names(ts[i].type_) <= names
  {
    if ts == [] then {} else Names(ts[0].type_) + TypedefNames(ts[1..])
  }

  function ModuleNames(m: Module): set<Name>
    decreases m, 1
  {
    StructNames(m.structs) + TypedefNames(m.typedefs) + SubmoduleNames(m.modules)
  }

  function SubmoduleNames(ms: seq<Module>): set<Name>
    decreases ms, 0
  {
    if ms == [] then {} else ModuleNames(ms[0]) + SubmoduleNames(ms[1..])
  }

  lemma {:induction false} FoundNames(m: Module, n: Name)
    ensures SearchStruct(m, n).Some? ==> NamesOf(SearchStruct(m, n).value.fields) <= ModuleNames(m)
    ensures SearchTypedef(m, n).Some? ==> Names(SearchTypedef(m, n).value.type_) <= ModuleNames(m)
    decreases m, 1
  {
    FirstIsMember(m.structs, m.typedefs, n[0]);
    FoundInNames(m.modules, n);
  }

  lemma {:induction false} FoundInNames(ms: seq<Module>, n: Name)
    ensures StructIn(ms, n).Some? ==> NamesOf(StructIn(ms, n).value.fields) <= SubmoduleNames(ms)
    ensures TypedefIn(ms, n).Some? ==> Names(TypedefIn(ms, n).value.type_) <= SubmoduleNames(ms)
    decreases ms, 0
  {
    if ms != [] {
      FoundNames(ms[0], n);
      if |n| > 1 { FoundNames(ms[0], n[1..]); }
      FoundInNames(ms[1..], n);
    }
  }

  lemma {:induction false} FirstIsMember(ss: seq<StructDecl>, ts: seq<Typedef>, name: string)
    ensures FirstStruct(ss, name).Some? ==> NamesOf(FirstStruct(ss, name).value.fields) <= StructNames(ss)
    ensures FirstTypedef(ts, name).Some? ==> Names(FirstTypedef(ts, name).value.type_) <= TypedefNames(ts)
    decreases |ss| + |ts|
  {
    if ss != [] { FirstIsMember(ss[1..], ts, name); }
    if ts != [] { FirstIsMember(ss, ts[1..], name); }
  }

  /** Every module has such a set, so the requirement excludes none. */
  lemma ModuleClosed(m: Module, more: set<Name>)
    ensures Closed(m, ModuleNames(m) + more)
  {
    forall n: Name ensures SearchStruct(m, n).Some? ==>
      NamesOf(SearchStruct(m, n).value.fields) <= ModuleNames(m) + more
    {
      FoundNames(m, n);
    }
    forall n: Name ensures SearchTypedef(m, n).Some? ==>
      Names(SearchTypedef(m, n).value.type_) <= ModuleNames(m) + more
    {
      FoundNames(m, n);
    }
  }

  ghost function Rank(ts: TypeSpec, rank: string -> nat): nat
  {
    match ts
    case Sequence(e) => Rank(e, rank)
    case Array(_, Some(e)) => Rank(e, rank)
    case Named(n) => rank(n[|n| - 1]) + 1
    case _ => 0
  }

  /** No typedef is reached again through the element type of the collection it names. */
  ghost predicate TypedefsRanked(m: Module, rank: string -> nat)
  {
    forall x :: SearchTypedef(m, [x]).Some? ==>
      match SearchTypedef(m, [x]).value.type_
      case Sequence(e) => Rank(e, rank) <= rank(x)
      case Array(_, Some(e)) => Rank(e, rank) <= rank(x)
      case _ => true
  }

  lemma OpenOne(all: set<Name>, open: set<Name>, n: Name)
    requires n in all && n !in open
    ensures |all - (open + {n})| < |all - open|
  {
    assert all - open == (all - (open + {n})) + {n};
  }

  /** The element type of a collection found by resolving `ts` is smaller than `ts`. */
  lemma ElementDescends(m: Module, rank: string -> nat, ts: TypeSpec, e: TypeSpec)
    requires TypedefsRanked(m, rank)
    requires var r := ResolveTypedef(m, ts); r == Sequence(e) || (r.Array? && r.elemOrNil == Some(e))
    ensures Rank(e, rank) < Rank(ts, rank) || (Rank(e, rank) == Rank(ts, rank) && e < ts)
  {
    if ts.Named? && SearchTypedef(m, Bare(ts.name)).Some? {
      var x := ts.name[|ts.name| - 1];
      assert Bare(ts.name) == [x];
    }
  }

  // ------------------------------------------------------------------ the generator

  class Generator {
    const root: Module
    ghost const all: set<Name>
    ghost const rank: string -> nat
    var visited: set<Name>
    var err: bool

    ghost predicate Valid()
    {
      Closed(root, all) && TypedefsRanked(root, rank)
    }

    constructor (root: Module, ghost all: set<Name>, ghost rank: string -> nat)
      requires Closed(root, all) && TypedefsRanked(root, rank)
      ensures Valid() && this.root == root && this.all == all && visited == {} && !err
    {
      this.root, this.all, this.rank := root, all, rank;
      visited, err := {}, false;
    }

    /** Emits the encoder of a type, or records an error exactly when the type has no
        finite expansion that avoids the open structs; `visited` is left as it was. */
    method EncodeExpr(ts: TypeSpec, ref: Ref) returns (code: EncStmt, ghost rt: RType)
      requires Valid() && Names(ts) <= all
      modifies this
      ensures visited == old(visited) && (old(err) ==> err)
      ensures !err ==> ExpandsUnder(root, ts, rt, old(visited)) && code == EncoderFor(rt, ref)
      ensures err && !old(err) ==> forall t :: !ExpandsUnder(root, ts, t, old(visited))
      decreases |all - visited|, Rank(ts, rank), ts, 2
    {
      code, rt := EncBlock([]), Str;
      match ResolveTypedef(root, ts)
      case Primitive(p) => code, rt := WritePrim(p, ref), Basic(p);
      case StringType => code := WriteText(ref);
      case Sequence(e) =>
        if e == Primitive(Uint8) {
          code, rt := WriteBlob(ref), Octets;
        } else {
          ElementDescends(root, rank, ts, e);
          ElementNames(root, ts, e, all);
          var body;
          body, rt := EncodeExpr(e, Ref(Elem, []));
          code, rt := WriteSlice(ref, body), SeqOf(rt);
        }
      case Array(n, e) =>
        if e.None? {
          err := true;
        } else {
          ElementDescends(root, rank, ts, e.value);
          ElementNames(root, ts, e.value, all);
          var body;
          body, rt := EncodeExpr(e.value, Ref(ref.root, ref.path + [Idx]));
          code, rt := EncLoop(n, ref, body), ArrOf(n, rt);
        }
      case Named(name) =>
        if IsEnum(root, name) {
          code, rt := WritePrim(Int32, ref), Basic(Int32);
        } else {
          NamedNames(root, ts, name, all);
          code, rt := EncodeStruct(name, ref);
          UnderIsStruct(root, ts, name, old(visited));
        }
      case EnumType(_) => code, rt := WritePrim(Int32, ref), Basic(Int32);
      case Unhandled => err := true;
    }

    method EncodeStruct(name: Name, ref: Ref) returns (code: EncStmt, ghost rt: RType)
      requires Valid() && name in all
      modifies this
      ensures visited == old(visited) && (old(err) ==> err)
      ensures !err ==> StructExpands(root, name, rt, old(visited)) && code == EncoderFor(rt, ref)
      ensures err && !old(err) ==> forall t :: !StructExpands(root, name, t, old(visited))
      decreases |all - visited|, 0, Unhandled, 1
    {
      code, rt := EncBlock([]), Str;
      var s := SearchStruct(root, name);
      if s.None? || name in visited {
        err := true;
        return;
      }
      OpenOne(all, visited, name);
      visited := visited + {name};
      var parts;
      ghost var rts;
      parts, rts := EncodeFields(s.value.fields, ref);
      visited := visited - {name};
      assert visited == old(visited);
      code, rt := EncBlock(parts), Record(rts);
    }

    method EncodeFields(fields: seq<TypeSpec>, ref: Ref) returns (parts: seq<EncStmt>, ghost rts: seq<RType>)
      requires Valid() && NamesOf(fields) <= all
      modifies this
      ensures visited == old(visited) && (old(err) ==> err)
      ensures !err ==> FieldsExpand(root, fields, rts, old(visited)) && parts == EncodersFor(rts, ref, 0)
      ensures err && !old(err) ==> forall us :: !FieldsExpand(root, fields, us, old(visited))
      decreases |all - visited| + 1, 0, Unhandled, 0
    {
      parts, rts := [], [];
      for k := 0 to |fields|
        invariant visited == old(visited) && (old(err) ==> err)
        invariant !err ==> FieldsExpand(root, fields[..k], rts, visited) && parts == EncodersFor(rts, ref, 0)
        invariant err && !old(err) ==> forall us :: !FieldsExpand(root, fields, us, visited)
      {
        var part;
        ghost var rt;
        part, rt := EncodeExpr(fields[k], Ref(ref.root, ref.path + [Dot(k)]));
        if !err {
          EncodersSnoc(rts, rt, ref, 0);
        }
        parts, rts := parts + [part], rts + [rt];
      }
      assert fields[..|fields|] == fields;
    }

    /** The decoder, with the same error behaviour; `rt` is the destination's Go type. */
    method DecodeExpr(ts: TypeSpec, dest: seq<Sel>) returns (code: DecStmt, rt: RType)
      requires Valid() && Names(ts) <= all
      modifies this
      ensures visited == old(visited) && (old(err) ==> err)
      ensures !err ==> ExpandsUnder(root, ts, rt, old(visited)) && code == DecoderFor(rt, dest)
      ensures err && !old(err) ==> forall t :: !ExpandsUnder(root, ts, t, old(visited))
      decreases |all - visited|, Rank(ts, rank), ts, 2
    {
      code, rt := DecBlock([]), Str;
      match ResolveTypedef(root, ts)
      case Primitive(p) => code, rt := ReadPrim(p, dest), Basic(p);
      case StringType => code := ReadText(dest);
      case Sequence(e) =>
        if e == Primitive(Uint8) {
          code, rt := ReadBlob(dest), Octets;
        } else {
          ElementDescends(root, rank, ts, e);
          ElementNames(root, ts, e, all);
          var body;
          body, rt := DecodeExpr(e, dest + [Idx]);
          code, rt := ReadSlice(dest, rt, body), SeqOf(rt);
        }
      case Array(n, e) =>
        if e.None? {
          err := true;
        } else {
          ElementDescends(root, rank, ts, e.value);
          ElementNames(root, ts, e.value, all);
          var body;
          body, rt := DecodeExpr(e.value, dest + [Idx]);
          code, rt := DecLoop(n, dest, body), ArrOf(n, rt);
        }
      case Named(name) =>
        if IsEnum(root, name) {
          code, rt := ReadPrim(Int32, dest), Basic(Int32);
        } else {
          NamedNames(root, ts, name, all);
          code, rt := DecodeStruct(name, dest);
          UnderIsStruct(root, ts, name, old(visited));
        }
      case EnumType(_) => code, rt := ReadPrim(Int32, dest), Basic(Int32);
      case Unhandled => err := true;
    }

    method DecodeStruct(name: Name, dest: seq<Sel>) returns (code: DecStmt, rt: RType)
      requires Valid() && name in all
      modifies this
      ensures visited == old(visited) && (old(err) ==> err)
      ensures !err ==> StructExpands(root, name, rt, old(visited)) && code == DecoderFor(rt, dest)
      ensures err && !old(err) ==> forall t :: !StructExpands(root, name, t, old(visited))
      decreases |all - visited|, 0, Unhandled, 1
    {
      code, rt := DecBlock([]), Str;
      var s := SearchStruct(root, name);
      if s.None? || name in visited {
        err := true;
        return;
      }
      OpenOne(all, visited, name);
      visited := visited + {name};
      var parts;
      var rts;
      parts, rts := DecodeFields(s.value.fields, dest);
      visited := visited - {name};
      assert visited == old(visited);
      code, rt := DecBlock(parts), Record(rts);
    }

    method DecodeFields(fields: seq<TypeSpec>, dest: seq<Sel>) returns (parts: seq<DecStmt>, rts: seq<RType>)
      requires Valid() && NamesOf(fields) <= all
      modifies this
      ensures visited == old(visited) && (old(err) ==> err)
      ensures !err ==> FieldsExpand(root, fields, rts, old(visited)) && parts == DecodersFor(rts, dest, 0)
      ensures err && !old(err) ==> forall us :: !FieldsExpand(root, fields, us, old(visited))
      decreases |all - visited| + 1, 0, Unhandled, 0
    {
      parts, rts := [], [];
      for k := 0 to |fields|
        invariant visited == old(visited) && (old(err) ==> err)
        invariant !err ==> FieldsExpand(root, fields[..k], rts, visited) && parts == DecodersFor(rts, dest, 0)
        invariant err && !old(err) ==> forall us :: !FieldsExpand(root, fields, us, visited)
      {
        var part;
        var rt;
        part, rt := DecodeExpr(fields[k], dest + [Dot(k)]);
        if !err {
          DecodersSnoc(rts, rt, dest, 0);
        }
        parts, rts := parts + [part], rts + [rt];
      }
      assert fields[..|fields|] == fields;
    }
  }

  ghost predicate StructExpands(m: Module, name: Name, rt: RType, open: set<Name>)
  {
    var s := SearchStruct(m, name);
    s.Some? && name !in open && rt.Record? && FieldsExpand(m, s.value.fields, rt.fields, open + {name})
  }

  ghost predicate FieldsExpand(m: Module, fields: seq<TypeSpec>, rts: seq<RType>, open: set<Name>)
  {
    |rts| == |fields| && forall i :: 0 <= i < |rts| ==> ExpandsUnder(m, fields[i], rts[i], open)
  }

  lemma UnderIsStruct(m: Module, ts: TypeSpec, name: Name, open: set<Name>)
    requires ResolveTypedef(m, ts) == Named(name) && !IsEnum(m, name)
    ensures forall t :: ExpandsUnder(m, ts, t, open) <==> StructExpands(m, name, t, open)
  {
  }

  lemma {:induction false} EncodersSnoc(ts: seq<RType>, t: RType, ref: Ref, k: nat)
    ensures EncodersFor(ts + [t], ref, k) ==
      EncodersFor(ts, ref, k) + [EncoderFor(t, Ref(ref.root, ref.path + [Dot(k + |ts|)]))]
    decreases |ts|
  {
    if ts != [] {
      assert (ts + [t])[1..] == ts[1..] + [t];
      EncodersSnoc(ts[1..], t, ref, k + 1);
    }
  }

  lemma {:induction false} DecodersSnoc(ts: seq<RType>, t: RType, dest: seq<Sel>, k: nat)
    ensures DecodersFor(ts + [t], dest, k) == DecodersFor(ts, dest, k) + [DecoderFor(t, dest + [Dot(k + |ts|)])]
    decreases |ts|
  {
    if ts != [] {
      assert (ts + [t])[1..] == ts[1..] + [t];
      DecodersSnoc(ts[1..], t, dest, k + 1);
    }
  }

  lemma ElementNames(m: Module, ts: TypeSpec, e: TypeSpec, all: set<Name>)
    requires Closed(m, all) && Names(ts) <= all
    requires var r := ResolveTypedef(m, ts); r == Sequence(e) || (r.Array? && r.elemOrNil == Some(e))
    ensures Names(e) <= all
  {
  }

  lemma NamedNames(m: Module, ts: TypeSpec, name: Name, all: set<Name>)
    requires Closed(m, all) && Names(ts) <= all && ResolveTypedef(m, ts) == Named(name)
    ensures name in all
  {
  }

  // ------------------------------------------------------------- a whole codec

  /** The struct unfolds to `rt`. */
  ghost predicate DeclExpands(m: Module, s: StructDecl, rt: RType)
  {
    rt.Record? && |rt.fields| == |s.fields| && forall i :: 0 <= i < |s.fields| ==> Expands(m, s.fields[i], rt.fields[i])
  }

  lemma DeclExpandsIs(m: Module, s: StructDecl, rts: seq<RType>)
    ensures DeclExpands(m, s, Record(rts)) <==> FieldsExpand(m, s.fields, rts, {})
  {
    if |rts| == |s.fields| {
      forall i | 0 <= i < |rts| ensures Expands(m, s.fields[i], rts[i]) <==> ExpandsUnder(m, s.fields[i], rts[i], {}) {
        NothingOpen(m, s.fields[i], rts[i]);
      }
    }
  }

  /** Emits Marshal and Unmarshal for a struct. An error is recorded exactly when the
      struct does not unfold to a finite tree; otherwise the two undo each other exactly
      when that tree is safe. */
  method EmitCodec(g: Generator, s: StructDecl) returns (enc: EncStmt, dec: DecStmt, rt: RType)
    requires g.Valid() && g.visited == {} && NamesOf(s.fields) <= g.all && !g.err
    modifies g
    ensures g.visited == {}
    ensures g.err <==> forall t :: !DeclExpands(g.root, s, t)
    ensures !g.err ==> DeclExpands(g.root, s, rt) && enc == EncoderFor(rt, Ref(V, [])) && dec == DecoderFor(rt, [])
    ensures !g.err ==> (CodecLimits.RoundTrips(rt) <==> CodecRoundTrip.Safe(rt, CodecRoundTrip.Flat))
  {
    var es, ds, ts;
    ghost var us;
    es, us := g.EncodeFields(s.fields, Ref(V, []));
    forall t: RType ensures DeclExpands(g.root, s, t) <==> t.Record? && FieldsExpand(g.root, s.fields, t.fields, {}) {
      if t.Record? { DeclExpandsIs(g.root, s, t.fields); assert t == Record(t.fields); }
    }
    ds, ts := g.DecodeFields(s.fields, []);
    enc, dec, rt := EncBlock(es), DecBlock(ds), Record(ts);
    if !g.err {
      DeclExpandsIs(g.root, s, us);
      DeclExpandsIs(g.root, s, ts);
      forall i | 0 <= i < |ts| ensures us[i] == ts[i] { ExpansionUnique(g.root, s.fields[i], us[i], ts[i]); }
      assert us == ts;
    }
    CodecLimits.CodecExact(rt);
  }
}
