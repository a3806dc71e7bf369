/** What the names of an IDL module denote, said without the search that finds it: the
    declarations of a module in the order in which they are considered, and the submodule
    that a qualified name leads to. */
module IdlNames {
  import opened Wire
  import opened Cdr
  import opened EmittedCode
  import opened IdlGenerator

  // ------------------------------------------------- declarations, depth first

  /** The structs of a module, its own before those of its submodules. */
  function AllStructs(m: Module): seq<StructDecl>
    decreases m, 1
  {
    m.structs + StructsOf(m.modules)
  }

  function StructsOf(ms: seq<Module>): seq<StructDecl>
    decreases ms, 0
  {
    if ms == [] then [] else AllStructs(ms[0]) + StructsOf(ms[1..])
  }

  function AllTypedefs(m: Module): seq<Typedef>
    decreases m, 1
  {
    m.typedefs + TypedefsOf(m.modules)
  }

  function TypedefsOf(ms: seq<Module>): seq<Typedef>
    decreases ms, 0
  {
    if ms == [] then [] else AllTypedefs(ms[0]) + TypedefsOf(ms[1..])
  }

  function AllEnums(m: Module): seq<string>
    decreases m, 1
  {
    m.enums + EnumsOf(m.modules)
  }

  function EnumsOf(ms: seq<Module>): seq<string>
    decreases ms, 0
  {
    if ms == [] then [] else AllEnums(ms[0]) + EnumsOf(ms[1..])
  }

  // ------------------------------------------------------------ the first so named

  /** The i-th struct of the list is the first that is called `x`. */
  predicate StructAt(list: seq<StructDecl>, i: nat, x: string)
  {
    i < |list| && list[i].name == x && forall j :: 0 <= j < i ==> list[j].name != x
  }

  predicate TypedefAt(list: seq<Typedef>, i: nat, x: string)
  {
    i < |list| && list[i].name == x && forall j :: 0 <= j < i ==> list[j].name != x
  }

  /** `found` is the first struct of the list that is called `x`, or there is none. */
  ghost predicate FirstStructIs(list: seq<StructDecl>, x: string, found: Option<StructDecl>)
  {
    match found
    case None => forall i :: 0 <= i < |list| ==> list[i].name != x
    case Some(s) => exists i: nat :: StructAt(list, i, x) && list[i] == s
  }

  ghost predicate FirstTypedefIs(list: seq<Typedef>, x: string, found: Option<Typedef>)
  {
    match found
    case None => forall i :: 0 <= i < |list| ==> list[i].name != x
    case Some(s) => exists i: nat :: TypedefAt(list, i, x) && list[i] == s
  }

  lemma StructInFront(a: seq<StructDecl>, b: seq<StructDecl>, x: string, r: Option<StructDecl>, q: Option<StructDecl>)
    requires FirstStructIs(a, x, r) && FirstStructIs(b, x, q)
    ensures FirstStructIs(a + b, x, if r.Some? then r else q)
  {
    if r.Some? {
      var i: nat :| StructAt(a, i, x) && a[i] == r.value;
      assert StructAt(a + b, i, x);
    } else if q.Some? {
      var i: nat :| StructAt(b, i, x) && b[i] == q.value;
      assert StructAt(a + b, |a| + i, x);
    }
  }

  lemma TypedefInFront(a: seq<Typedef>, b: seq<Typedef>, x: string, r: Option<Typedef>, q: Option<Typedef>)
    requires FirstTypedefIs(a, x, r) && FirstTypedefIs(b, x, q)
    ensures FirstTypedefIs(a + b, x, if r.Some? then r else q)
  {
    if r.Some? {
      var i: nat :| TypedefAt(a, i, x) && a[i] == r.value;
      assert TypedefAt(a + b, i, x);
    } else if q.Some? {
      var i: nat :| TypedefAt(b, i, x) && b[i] == q.value;
      assert TypedefAt(a + b, |a| + i, x);
    }
  }

  lemma {:induction false} FirstStructFound(ss: seq<StructDecl>, x: string)
    ensures FirstStructIs(ss, x, FirstStruct(ss, x))
  {
    if ss != [] {
      FirstStructFound(ss[1..], x);
      assert FirstStructIs([ss[0]], x, if ss[0].name == x then Some(ss[0]) else None) by {
        assert ss[0].name == x ==> StructAt([ss[0]], 0, x);
      }
      StructInFront([ss[0]], ss[1..], x, if ss[0].name == x then Some(ss[0]) else None, FirstStruct(ss[1..], x));
      assert [ss[0]] + ss[1..] == ss;
    }
  }

  lemma {:induction false} FirstTypedefFound(ts: seq<Typedef>, x: string)
    ensures FirstTypedefIs(ts, x, FirstTypedef(ts, x))
  {
    if ts != [] {
      FirstTypedefFound(ts[1..], x);
      assert FirstTypedefIs([ts[0]], x, if ts[0].name == x then Some(ts[0]) else None) by {
        assert ts[0].name == x ==> TypedefAt([ts[0]], 0, x);
      }
      TypedefInFront([ts[0]], ts[1..], x, if ts[0].name == x then Some(ts[0]) else None, FirstTypedef(ts[1..], x));
      assert [ts[0]] + ts[1..] == ts;
    }
  }

  // ---------------------------------------------------------------- simple names

  lemma {:induction false} SimpleStruct(m: Module, x: string)
    ensures FirstStructIs(AllStructs(m), x, SearchStruct(m, [x]))
    decreases m, 1
  {
    FirstStructFound(m.structs, x);
    SimpleStructIn(m.modules, x);
    StructInFront(m.structs, StructsOf(m.modules), x, FirstStruct(m.structs, x), StructIn(m.modules, [x]));
  }

  lemma {:induction false} SimpleStructIn(ms: seq<Module>, x: string)
    ensures FirstStructIs(StructsOf(ms), x, StructIn(ms, [x]))
    decreases ms, 0
  {
    if ms != [] {
      SimpleStruct(ms[0], x);
      SimpleStructIn(ms[1..], x);
      StructInFront(AllStructs(ms[0]), StructsOf(ms[1..]), x, SearchStruct(ms[0], [x]), StructIn(ms[1..], [x]));
    }
  }

  lemma {:induction false} SimpleTypedef(m: Module, x: string)
    ensures FirstTypedefIs(AllTypedefs(m), x, SearchTypedef(m, [x]))
    decreases m, 1
  {
    FirstTypedefFound(m.typedefs, x);
    SimpleTypedefIn(m.modules, x);
    TypedefInFront(m.typedefs, TypedefsOf(m.modules), x, FirstTypedef(m.typedefs, x), TypedefIn(m.modules, [x]));
  }

  lemma {:induction false} SimpleTypedefIn(ms: seq<Module>, x: string)
    ensures FirstTypedefIs(TypedefsOf(ms), x, TypedefIn(ms, [x]))
    decreases ms, 0
  {
    if ms != [] {
      SimpleTypedef(ms[0], x);
      SimpleTypedefIn(ms[1..], x);
      TypedefInFront(AllTypedefs(ms[0]), TypedefsOf(ms[1..]), x, SearchTypedef(ms[0], [x]), TypedefIn(ms[1..], [x]));
    }
  }

  lemma {:induction false} SimpleEnum(m: Module, x: string)
    ensures IsEnum(m, [x]) <==> x in AllEnums(m)
    decreases m, 1
  {
    SimpleEnumIn(m.modules, x);
  }

  lemma {:induction false} SimpleEnumIn(ms: seq<Module>, x: string)
    ensures EnumIn(ms, [x]) <==> x in EnumsOf(ms)
    decreases ms, 0
  {
    if ms != [] {
      SimpleEnum(ms[0], x);
      SimpleEnumIn(ms[1..], x);
    }
  }

  // -------------------------------------------------------------- qualified names

  /** The submodule is the first of its name. */
  predicate FirstCalled(ms: seq<Module>, i: nat, x: string)
  {
    i < |ms| && ms[i].name == x && forall j :: 0 <= j < i ==> ms[j].name != x
  }

  /** The qualifiers lead from `m` to `sub`, each to the first submodule of its name. */
  ghost predicate Leads(m: Module, quals: seq<string>, sub: Module)
    decreases |quals|
  {
    if quals == [] then sub == m
    else exists i: nat :: FirstCalled(m.modules, i, quals[0]) && Leads(m.modules[i], quals[1..], sub)
  }

  lemma CalledBehind(ms: seq<Module>, i: nat, x: string)
    requires 0 < i && FirstCalled(ms, i, x)
    ensures ms[0].name != x && FirstCalled(ms[1..], i - 1, x) && ms[1..][i - 1] == ms[i]
  {
    assert forall j :: 0 <= j < |ms| - 1 ==> ms[1..][j] == ms[j + 1];
  }

  /** What the three searches do with a qualified name. */
  lemma {:induction false} Descends(ms: seq<Module>, n: Name)
    requires |n| > 1
    ensures forall i: nat :: FirstCalled(ms, i, n[0]) ==>
      && StructIn(ms, n) == SearchStruct(ms[i], n[1..]) && TypedefIn(ms, n) == SearchTypedef(ms[i], n[1..])
      && EnumIn(ms, n) == IsEnum(ms[i], n[1..])
    ensures (forall i :: 0 <= i < |ms| ==> ms[i].name != n[0]) ==>
      StructIn(ms, n) == None && TypedefIn(ms, n) == None && !EnumIn(ms, n)
    decreases |ms|
  {
    if ms != [] {
      Descends(ms[1..], n);
      forall i: nat | FirstCalled(ms, i, n[0])
        ensures StructIn(ms, n) == SearchStruct(ms[i], n[1..]) && TypedefIn(ms, n) == SearchTypedef(ms[i], n[1..])
        ensures EnumIn(ms, n) == IsEnum(ms[i], n[1..])
      {
        if i > 0 { CalledBehind(ms, i, n[0]); }
      }
      if forall i :: 0 <= i < |ms| ==> ms[i].name != n[0] {
        assert forall j :: 0 <= j < |ms| - 1 ==> ms[1..][j] == ms[j + 1];
      }
    }
  }

  function Last(n: Name): string
  {
    n[|n| - 1]
  }

  function Qualifiers(n: Name): seq<string>
  {
    n[..|n| - 1]
  }

  lemma QualifiedParts(n: Name)
    requires |n| > 1
    ensures Qualifiers(n)[0] == n[0] && Qualifiers(n)[1..] == Qualifiers(n[1..]) && Last(n[1..]) == Last(n)
  {
  }

  /** Where the qualifiers lead, a name denotes the first declaration so called, depth first,
      of the module they lead to. */
  lemma {:induction false} NameFound(m: Module, n: Name, sub: Module)
    requires Leads(m, Qualifiers(n), sub)
    ensures FirstStructIs(AllStructs(sub), Last(n), SearchStruct(m, n))
    ensures FirstTypedefIs(AllTypedefs(sub), Last(n), SearchTypedef(m, n))
    ensures IsEnum(m, n) <==> Last(n) in AllEnums(sub)
    decreases |n|
  {
    if |n| == 1 {
      assert n == [n[0]] && Qualifiers(n) == [];
      SimpleStruct(m, n[0]);
      SimpleTypedef(m, n[0]);
      SimpleEnum(m, n[0]);
    } else {
      QualifiedParts(n);
      var i: nat :| FirstCalled(m.modules, i, n[0]) && Leads(m.modules[i], Qualifiers(n[1..]), sub);
      Descends(m.modules, n);
      NameFound(m.modules[i], n[1..], sub);
    }
  }

  /** Where they lead nowhere it denotes nothing. */
  lemma {:induction false} NameLost(m: Module, n: Name)
    requires forall sub :: !Leads(m, Qualifiers(n), sub)
    ensures SearchStruct(m, n) == None && SearchTypedef(m, n) == None && !IsEnum(m, n)
    decreases |n|
  {
    if |n| == 1 {
      assert Leads(m, Qualifiers(n), m);
    } else {
      QualifiedParts(n);
      Descends(m.modules, n);
      if i :| 0 <= i < |m.modules| && m.modules[i].name == n[0] {
        var k := FirstOf(m.modules, n[0], i);
        forall sub ensures !Leads(m.modules[k], Qualifiers(n[1..]), sub) {
          if Leads(m.modules[k], Qualifiers(n[1..]), sub) { assert Leads(m, Qualifiers(n), sub); }
        }
        NameLost(m.modules[k], n[1..]);
      }
    }
  }

  lemma {:induction false} FirstOf(ms: seq<Module>, x: string, i: nat) returns (k: nat)
    requires i < |ms| && ms[i].name == x
    ensures FirstCalled(ms, k, x)
    decreases i
  {
    if j :| 0 <= j < i && ms[j].name == x { k := FirstOf(ms, x, j); } else { k := i; }
  }

  // ----------------------------------------------------------------------- typedefs

  /** A reference is replaced by the type of the first typedef, anywhere in the module, that
      is called like the last part of its name; other types are left alone. */
  lemma ResolveMeans(m: Module, ts: TypeSpec, td: Option<Typedef>)
    requires ts.Named? ==> FirstTypedefIs(AllTypedefs(m), Last(ts.name), td)
    ensures ResolveTypedef(m, ts) == if ts.Named? && td.Some? then td.value.type_ else ts
  {
    if ts.Named? {
      var x := Last(ts.name);
      assert Bare(ts.name) == [x];
      SimpleTypedef(m, x);
      FirstTypedefUnique(AllTypedefs(m), x, td, SearchTypedef(m, [x]));
    }
  }

  lemma FirstTypedefUnique(list: seq<Typedef>, x: string, r: Option<Typedef>, q: Option<Typedef>)
    requires FirstTypedefIs(list, x, r) && FirstTypedefIs(list, x, q)
    ensures r == q
  {
    if r.Some? && q.Some? {
      var i: nat :| TypedefAt(list, i, x) && list[i] == r.value;
      var k: nat :| TypedefAt(list, k, x) && list[k] == q.value;
      assert i == k;
    }
  }


  // ---------------------------------------------------------- what a type stands for

  /** Types without a declaration of their own: primitives and strings are themselves, octet
      sequences are blobs, other collections are those of their elements, enumerations are
      32-bit integers, and an array without an element type stands for nothing. */
  lemma ExpandsPlain(m: Module, ts: TypeSpec, rt: RType)
    requires !ts.Named?
    ensures Expands(m, ts, rt) <==>
      || (ts.Primitive? && rt == Basic(ts.p))
      || (ts.StringType? && rt == Str)
      || (ts == Sequence(Primitive(Uint8)) && rt == Octets)
      || (ts.Sequence? && ts.elem != Primitive(Uint8) && rt.SeqOf? && Expands(m, ts.elem, rt.elem))
      || (ts.Array? && rt.ArrOf? && rt.n == ts.n && ts.elemOrNil.Some? && Expands(m, ts.elemOrNil.value, rt.elem))
      || (ts.EnumType? && rt == Basic(Int32))
  {
  }

  ghost predicate StandsFor(m: Module, s: Option<StructDecl>, rt: RType)
  {
    && s.Some? && rt.Record? && |rt.fields| == |s.value.fields|
    && forall i :: 0 <= i < |rt.fields| ==> Expands(m, s.value.fields[i], rt.fields[i])
  }

  /** A name that no typedef has taken: an enumeration where one is declared so, and otherwise
      the record of the fields of the struct declared so, in their order. */
  lemma ExpandsNamed(m: Module, name: Name, rt: RType, sub: Module, s: Option<StructDecl>)
    requires FirstTypedefIs(AllTypedefs(m), Last(name), None) && Leads(m, Qualifiers(name), sub)
    requires FirstStructIs(AllStructs(sub), Last(name), s)
    ensures Expands(m, Named(name), rt) <==>
      if Last(name) in AllEnums(sub) then rt == Basic(Int32)
      else StandsFor(m, s, rt)
  {
    ResolveMeans(m, Named(name), None);
    NameFound(m, name, sub);
    FirstStructUnique(AllStructs(sub), Last(name), s, SearchStruct(m, name));
  }

  lemma FirstStructUnique(list: seq<StructDecl>, x: string, r: Option<StructDecl>, q: Option<StructDecl>)
    requires FirstStructIs(list, x, r) && FirstStructIs(list, x, q)
    ensures r == q
  {
    if r.Some? && q.Some? {
      var i: nat :| StructAt(list, i, x) && list[i] == r.value;
      var k: nat :| StructAt(list, k, x) && list[k] == q.value;
      assert i == k;
    }
  }
}
