/** The content-filter language: its grammar, what a predicate means, and the recursive-
    descent parser that compiles one. */
module FilterLanguage {
  import opened Wire

  datatype Token =
    | Ident(text: string)
    | Number(text: string)
    | Quoted(text: string)
    | Param(text: string)
    | Op(text: string)
    | And(text: string)
    | Or(text: string)
    | Not(text: string)
    | LParen
    | RParen

  // ------------------------------------------------------------------------ values

  /** Floating-point numbers, up to rounding. */
  datatype Float = NaN | NegInf | Finite(r: real) | PosInf

  predicate FloatLess(a: Float, b: Float)
  {
    !a.NaN? && !b.NaN? &&
    match (a, b)
    case (Finite(x), Finite(y)) => x < y
    case (NegInf, _) => !b.NegInf?
    case (_, PosInf) => !a.PosInf?
    case _ => false
  }

  predicate FloatEq(a: Float, b: Float)
  {
    !a.NaN? && a == b
  }

  /** Byte-wise lexicographic order. */
  predicate TextLess(a: string, b: string)
    decreases |a|
  {
    b != [] && (a == [] || a[0] < b[0] || (a[0] == b[0] && TextLess(a[1..], b[1..])))
  }

  datatype Value = Num(f: Float) | Text(s: string) | Bound(s: string) | Incomparable

  type Fields = map<string, Value>

  /** The parameters of the expression and the number parser. */
  datatype Context = Context(params: seq<string>, parseFloat: string -> Option<Float>)

  /** A parameter compares as a number when its text is one, and as text otherwise. */
  function Normalize(v: Value, c: Context): Value
  {
    if !v.Bound? then v
    else if c.parseFloat(v.s).Some? then Num(c.parseFloat(v.s).value)
    else Text(v.s)
  }

  predicate Ordered(less: bool, eq: bool, greater: bool, op: string)
  {
    match op
    case "=" => eq
    case "<>" => !eq
    case "!=" => !eq
    case ">" => greater
    case ">=" => greater || eq
    case "<" => less
    case "<=" => less || eq
    case _ => false
  }

  predicate Compare(l: Value, r: Value, op: string, c: Context)
  {
    match (Normalize(l, c), Normalize(r, c))
    case (Num(a), Num(b)) => Ordered(FloatLess(a, b), FloatEq(a, b), FloatLess(b, a), op)
    case (Text(a), Text(b)) => Ordered(TextLess(a, b), a == b, TextLess(b, a), op)
    case _ => false
  }

  const MAX_INT: nat := 0x7FFF_FFFF_FFFF_FFFF

  predicate IsDigit(ch: char)
  {
    '0' <= ch <= '9'
  }

  function DigitsValue(s: string): Option<nat>
  {
    if s == [] then Some(0)
    else
      var front := DigitsValue(s[..|s| - 1]);
      if front.None? || !IsDigit(s[|s| - 1]) then None
      else Some(10 * front.value + (s[|s| - 1] as int - '0' as int))
  }

  function Atoi(s: string): Option<nat>
  {
    var v := DigitsValue(s);
    if s == [] || v.None? || v.value > MAX_INT then None else v
  }

  /** The token denotes a value: a field, a literal, or a parameter that is bound. */
  predicate OperandOk(t: Token, c: Context)
  {
    match t
    case Ident(_) => true
    case Number(s) => c.parseFloat(s).Some?
    case Quoted(_) => true
    case Param(s) => Atoi(s).Some? && Atoi(s).value < |c.params|
    case _ => false
  }

  /** What the token denotes for the given fields; a field may be absent. */
  function Operand(t: Token, c: Context, f: Fields): Option<Value>
    requires OperandOk(t, c)
  {
    match t
    case Ident(s) => if s in f then Some(f[s]) else None
    case Number(s) => Some(Num(c.parseFloat(s).value))
    case Quoted(s) => Some(Text(s))
    case Param(s) => Some(Bound(c.params[Atoi(s).value]))
  }

  // ----------------------------------------------------------------------- grammar

  /** Parse trees, which keep every token of their sentence. */
  datatype Tree =
    | Cmp(left: Token, op: Token, right: Token)
    | Negation(sign: Token, body: Tree)
    | Group(body: Tree)
    | Conj(l: Tree, sign: Token, r: Tree)
    | Disj(l: Tree, sign: Token, r: Tree)

  /** disjunction = conjunction { OR conjunction }, grouping to the left. */
  predicate IsDisj(t: Tree, c: Context)
    decreases t, 2
  {
    if t.Disj? then t.sign.Or? && IsDisj(t.l, c) && IsConj(t.r, c) else IsConj(t, c)
  }

  /** conjunction = unary { AND unary }, grouping to the left. */
  predicate IsConj(t: Tree, c: Context): (r: bool)
    ensures r ==> !t.Disj?
    decreases t, 1
  {
    if t.Conj? then t.sign.And? && IsConj(t.l, c) && IsUnary(t.r, c) else IsUnary(t, c)
  }

  /** unary = NOT unary | "(" disjunction ")" | operand op operand. */
  predicate IsUnary(t: Tree, c: Context): (r: bool)
    ensures r ==> !t.Disj? && !t.Conj?
    decreases t, 0
  {
    match t
    case Cmp(l, op, r) => OperandOk(l, c) && op.Op? && OperandOk(r, c)
    case Negation(sign, body) => sign.Not? && IsUnary(body, c)
    case Group(body) => IsDisj(body, c)
    case _ => false
  }

  function Yield(t: Tree): (s: seq<Token>)
    ensures |s| > 0
  {
    match t
    case Cmp(l, op, r) => [l, op, r]
    case Negation(sign, body) => [sign] + Yield(body)
    case Group(body) => [LParen] + Yield(body) + [RParen]
    case Conj(l, sign, r) => Yield(l) + [sign] + Yield(r)
    case Disj(l, sign, r) => Yield(l) + [sign] + Yield(r)
  }

  ghost predicate Sentence(s: seq<Token>, c: Context)
  {
    exists t :: IsDisj(t, c) && Yield(t) == s
  }

  predicate CompareTokens(l: Token, op: Token, r: Token, c: Context, f: Fields)
    requires OperandOk(l, c) && op.Op? && OperandOk(r, c)
  {
    var lv, rv := Operand(l, c, f), Operand(r, c, f);
    lv.Some? && rv.Some? && Compare(lv.value, rv.value, op.text, c)
  }

  /** What the predicate says of a sample's fields. */
  predicate Meaning(t: Tree, c: Context, f: Fields)
  {
    match t
    case Cmp(l, op, r) => OperandOk(l, c) && op.Op? && OperandOk(r, c) && CompareTokens(l, op, r, c, f)
    case Negation(_, body) => !Meaning(body, c, f)
    case Group(body) => Meaning(body, c, f)
    case Conj(l, _, r) => Meaning(l, c, f) && Meaning(r, c, f)
    case Disj(l, _, r) => Meaning(l, c, f) || Meaning(r, c, f)
  }

  // ------------------------------------------- what the parser computes, as functions

  type Parsed = Option<(Tree, nat)>

  function ParseOr(s: seq<Token>, p: nat, c: Context): (r: Parsed)
    requires p <= |s|
    ensures r.Some? ==> p < r.value.1 <= |s| && IsDisj(r.value.0, c)
    decreases |s| - p, 4
  {
    var l := ParseAnd(s, p, c);
    if l.None? then None else OrLoop(s, l.value.1, l.value.0, c)
  }

  function OrLoop(s: seq<Token>, p: nat, left: Tree, c: Context): (r: Parsed)
    requires p <= |s| && IsDisj(left, c)
    ensures r.Some? ==> p <= r.value.1 <= |s| && IsDisj(r.value.0, c)
    decreases |s| - p, 3
  {
    if p < |s| && s[p].Or? then
      var r := ParseAnd(s, p + 1, c);
      if r.None? then None else OrLoop(s, r.value.1, Disj(left, s[p], r.value.0), c)
    else Some((left, p))
  }

  function ParseAnd(s: seq<Token>, p: nat, c: Context): (r: Parsed)
    requires p <= |s|
    ensures r.Some? ==> p < r.value.1 <= |s| && IsConj(r.value.0, c)
    decreases |s| - p, 2
  {
    var l := ParseUnary(s, p, c);
    if l.None? then None else AndLoop(s, l.value.1, l.value.0, c)
  }

  function AndLoop(s: seq<Token>, p: nat, left: Tree, c: Context): (r: Parsed)
    requires p <= |s| && IsConj(left, c)
    ensures r.Some? ==> p <= r.value.1 <= |s| && IsConj(r.value.0, c)
    decreases |s| - p, 1
  {
    if p < |s| && s[p].And? then
      var r := ParseUnary(s, p + 1, c);
      if r.None? then None else AndLoop(s, r.value.1, Conj(left, s[p], r.value.0), c)
    else Some((left, p))
  }

  function ParseUnary(s: seq<Token>, p: nat, c: Context): (r: Parsed)
    requires p <= |s|
    ensures r.Some? ==> p < r.value.1 <= |s| && IsUnary(r.value.0, c)
    decreases |s| - p, 0
  {
    if p == |s| then None
    else if s[p].Not? then
      var r := ParseUnary(s, p + 1, c);
      if r.None? then None else Some((Negation(s[p], r.value.0), r.value.1))
    else if s[p].LParen? then
      var r := ParseOr(s, p + 1, c);
      if r.None? || r.value.1 == |s| || !s[r.value.1].RParen? then None else Some((Group(r.value.0), r.value.1 + 1))
    else if p + 2 < |s| && OperandOk(s[p], c) && s[p + 1].Op? && OperandOk(s[p + 2], c) then
      Some((Cmp(s[p], s[p + 1], s[p + 2]), p + 3))
    else None
  }

  // -------------------------------------------------------------- the parser is exact

  /** The tokens of a tree stand from `p` to `q`. */
  predicate Stands(t: Tree, s: seq<Token>, p: nat, q: nat)
  {
    p <= q <= |s| && s[p..q] == Yield(t)
  }

  lemma {:induction false} OrSound(s: seq<Token>, p: nat, c: Context)
    requires p <= |s| && ParseOr(s, p, c).Some?
    ensures var (t, q) := ParseOr(s, p, c).value; s[p..q] == Yield(t)
    decreases |s| - p, 4
  {
    AndSound(s, p, c);
    var (l, q) := ParseAnd(s, p, c).value;
    OrLoopSound(s, p, q, l, c);
  }

  lemma {:induction false} OrLoopSound(s: seq<Token>, start: nat, p: nat, left: Tree, c: Context)
    requires start <= p <= |s| && IsDisj(left, c) && s[start..p] == Yield(left) && OrLoop(s, p, left, c).Some?
    ensures var (t, q) := OrLoop(s, p, left, c).value; s[start..q] == Yield(t)
    decreases |s| - p, 3
  {
    if p < |s| && s[p].Or? {
      AndSound(s, p + 1, c);
      var (r, q) := ParseAnd(s, p + 1, c).value;
      assert s[start..q] == s[start..p] + [s[p]] + s[p + 1..q];
      OrLoopSound(s, start, q, Disj(left, s[p], r), c);
    }
  }

  lemma {:induction false} AndSound(s: seq<Token>, p: nat, c: Context)
    requires p <= |s| && ParseAnd(s, p, c).Some?
    ensures var (t, q) := ParseAnd(s, p, c).value; s[p..q] == Yield(t)
    decreases |s| - p, 2
  {
    UnarySound(s, p, c);
    var (l, q) := ParseUnary(s, p, c).value;
    AndLoopSound(s, p, q, l, c);
  }

  lemma {:induction false} AndLoopSound(s: seq<Token>, start: nat, p: nat, left: Tree, c: Context)
    requires start <= p <= |s| && IsConj(left, c) && s[start..p] == Yield(left) && AndLoop(s, p, left, c).Some?
    ensures var (t, q) := AndLoop(s, p, left, c).value; s[start..q] == Yield(t)
    decreases |s| - p, 1
  {
    if p < |s| && s[p].And? {
      UnarySound(s, p + 1, c);
      var (r, q) := ParseUnary(s, p + 1, c).value;
      assert s[start..q] == s[start..p] + [s[p]] + s[p + 1..q];
      AndLoopSound(s, start, q, Conj(left, s[p], r), c);
    }
  }

  lemma {:induction false} UnarySound(s: seq<Token>, p: nat, c: Context)
    requires p <= |s| && ParseUnary(s, p, c).Some?
    ensures var (t, q) := ParseUnary(s, p, c).value; s[p..q] == Yield(t)
    decreases |s| - p, 0
  {
    var (t, q) := ParseUnary(s, p, c).value;
    if s[p].Not? {
      UnarySound(s, p + 1, c);
      SliceHead(s, p, q);
    } else if s[p].LParen? {
      OrSound(s, p + 1, c);
      SliceEnds(s, p, q);
    } else {
      SliceThree(s, p);
    }
  }

  lemma SliceHead(s: seq<Token>, p: nat, q: nat)
    requires p < q <= |s|
    ensures s[p..q] == [s[p]] + s[p + 1..q]
  {
  }

  lemma SliceEnds(s: seq<Token>, p: nat, q: nat)
    requires p + 1 < q <= |s|
    ensures s[p..q] == [s[p]] + s[p + 1..q - 1] + [s[q - 1]]
  {
  }

  lemma SliceThree(s: seq<Token>, p: nat)
    requires p + 3 <= |s|
    ensures s[p..p + 3] == [s[p], s[p + 1], s[p + 2]]
  {
  }

  /** The parts of a binary tree stand around its sign. */
  lemma StandsParts(t: Tree, s: seq<Token>, p: nat, q: nat) returns (m: nat)
    requires (t.Conj? || t.Disj?) && Stands(t, s, p, q)
    ensures p <= m < q && Stands(t.l, s, p, m) && s[m] == t.sign && Stands(t.r, s, m + 1, q)
  {
    m := p + |Yield(t.l)|;
    StandsThree(s, p, q, Yield(t.l), [t.sign], Yield(t.r));
  }

  lemma StandsThree(s: seq<Token>, p: nat, q: nat, a: seq<Token>, b: seq<Token>, c: seq<Token>)
    requires p <= q <= |s| && s[p..q] == a + b + c
    ensures q == p + |a| + |b| + |c| && s[p..p + |a|] == a
    ensures s[p + |a|..p + |a| + |b|] == b && (|b| == 1 ==> s[p + |a|] == b[0])
    ensures s[p + |a| + |b|..q] == c
  {
    var w := a + b + c;
    assert |s[p..q]| == |w|;
    Subslice(s, p, |w|, 0, |a|);
    Subslice(s, p, |w|, |a|, |a| + |b|);
    Subslice(s, p, |w|, |a| + |b|, |w|);
    assert w[0..|a|] == a && w[|a|..|a| + |b|] == b && w[|a| + |b|..|w|] == c;
  }

  lemma StandsCmp(s: seq<Token>, p: nat, q: nat, l: Token, op: Token, r: Token)
    requires Stands(Cmp(l, op, r), s, p, q)
    ensures q == p + 3 && s[p] == l && s[p + 1] == op && s[p + 2] == r
  {
    assert |s[p..q]| == 3;
    SliceThree(s, p);
  }

  lemma StandsNegation(s: seq<Token>, p: nat, q: nat, sign: Token, body: Tree)
    requires Stands(Negation(sign, body), s, p, q)
    ensures p < q && s[p] == sign && Stands(body, s, p + 1, q)
  {
    assert [] + [sign] + Yield(body) == Yield(Negation(sign, body));
    StandsThree(s, p, q, [], [sign], Yield(body));
  }

  lemma StandsGroup(body: Tree, s: seq<Token>, p: nat, q: nat)
    requires Stands(Group(body), s, p, q)
    ensures p + 1 < q && s[p] == LParen && Stands(body, s, p + 1, q - 1) && s[q - 1] == RParen
  {
    StandsThree(s, p, q, [LParen], Yield(body), [RParen]);
    assert s[p..p + 1][0] == LParen && s[q - 1..q][0] == RParen;
  }

  lemma Subslice(s: seq<Token>, p: nat, n: nat, a: nat, b: nat)
    requires p + n <= |s| && a <= b <= n
    ensures s[p..p + n][a..b] == s[p + a..p + b]
  {
    var w := s[p..p + n];
    assert forall i :: 0 <= i < n ==> w[i] == s[p + i];
    assert |w[a..b]| == |s[p + a..p + b]|;
    forall i | 0 <= i < b - a ensures w[a..b][i] == s[p + a..p + b][i] { assert w[a..b][i] == w[a + i]; }
  }

  lemma {:induction false} UnaryComplete(t: Tree, s: seq<Token>, p: nat, q: nat, c: Context)
    requires IsUnary(t, c) && Stands(t, s, p, q)
    ensures ParseUnary(s, p, c) == Some((t, q))
    decreases t, 0
  {
    match t
    case Cmp(l, op, r) => StandsCmp(s, p, q, l, op, r);
    case Negation(sign, body) =>
      StandsNegation(s, p, q, sign, body);
      UnaryComplete(body, s, p + 1, q, c);
      UnaryNegates(s, p, body, q, c);
    case Group(body) =>
      StandsGroup(body, s, p, q);
      OrComplete(body, s, p + 1, q - 1, c);
      UnaryGroups(s, p, body, q - 1, c);
  }

  lemma UnaryNegates(s: seq<Token>, p: nat, body: Tree, q: nat, c: Context)
    requires p < |s| && s[p].Not? && ParseUnary(s, p + 1, c) == Some((body, q))
    ensures ParseUnary(s, p, c) == Some((Negation(s[p], body), q))
  {
  }

  lemma UnaryGroups(s: seq<Token>, p: nat, body: Tree, q: nat, c: Context)
    requires p < q < |s| && s[p].LParen? && s[q].RParen? && IsDisj(body, c)
    requires ParseOr(s, p + 1, c) == OrLoop(s, q, body, c)
    ensures ParseUnary(s, p, c) == Some((Group(body), q + 1))
  {
  }

  lemma AndStarts(s: seq<Token>, p: nat, t: Tree, q: nat, c: Context)
    requires p <= |s| && ParseUnary(s, p, c) == Some((t, q))
    ensures q <= |s| && IsUnary(t, c) && ParseAnd(s, p, c) == AndLoop(s, q, t, c)
  {
  }

  lemma OrStarts(s: seq<Token>, p: nat, t: Tree, q: nat, c: Context)
    requires p <= |s| && ParseAnd(s, p, c) == Some((t, q))
    ensures q <= |s| && IsConj(t, c) && ParseOr(s, p, c) == OrLoop(s, q, t, c)
  {
  }

  lemma AndLoopTurn(s: seq<Token>, p: nat, l: Tree, sign: Token, r: Tree, q: nat, c: Context)
    requires p < |s| && s[p] == sign && sign.And? && IsConj(l, c) && ParseUnary(s, p + 1, c) == Some((r, q))
    ensures q <= |s| && IsUnary(r, c) && AndLoop(s, p, l, c) == AndLoop(s, q, Conj(l, sign, r), c)
  {
  }

  lemma AndLoopEnds(s: seq<Token>, p: nat, l: Tree, c: Context)
    requires p <= |s| && (p < |s| ==> !s[p].And?) && IsConj(l, c)
    ensures AndLoop(s, p, l, c) == Some((l, p))
  {
  }

  lemma OrLoopTurn(s: seq<Token>, p: nat, l: Tree, sign: Token, r: Tree, q: nat, c: Context)
    requires p < |s| && s[p] == sign && sign.Or? && IsDisj(l, c) && ParseAnd(s, p + 1, c) == Some((r, q))
    ensures q <= |s| && IsConj(r, c) && OrLoop(s, p, l, c) == OrLoop(s, q, Disj(l, sign, r), c)
  {
  }

  /** Parsing a conjunction reaches its loop with the whole tree assembled. */
  lemma {:induction false} AndComplete(t: Tree, s: seq<Token>, p: nat, q: nat, c: Context)
    requires IsConj(t, c) && Stands(t, s, p, q)
    ensures ParseAnd(s, p, c) == AndLoop(s, q, t, c)
    decreases t, 1
  {
    if t.Conj? {
      var m := StandsParts(t, s, p, q);
      AndComplete(t.l, s, p, m, c);
      UnaryComplete(t.r, s, m + 1, q, c);
      AndLoopTurn(s, m, t.l, t.sign, t.r, q, c);
    } else {
      UnaryComplete(t, s, p, q, c);
      AndStarts(s, p, t, q, c);
    }
  }

  /** The same for a disjunction that is not followed by AND. */
  lemma {:induction false} OrComplete(t: Tree, s: seq<Token>, p: nat, q: nat, c: Context)
    requires IsDisj(t, c) && Stands(t, s, p, q)
    requires q < |s| ==> !s[q].And?
    ensures ParseOr(s, p, c) == OrLoop(s, q, t, c)
    decreases t, 2
  {
    if t.Disj? {
      var m := StandsParts(t, s, p, q);
      OrComplete(t.l, s, p, m, c);
      AndComplete(t.r, s, m + 1, q, c);
      AndLoopEnds(s, q, t.r, c);
      OrLoopTurn(s, m, t.l, t.sign, t.r, q, c);
    } else {
      AndComplete(t, s, p, q, c);
      AndLoopEnds(s, q, t, c);
      OrStarts(s, p, t, q, c);
    }
  }

  /** The parser accepts a whole token list exactly when it is a sentence, and then
      returns the one tree it has. */
  lemma ParserExact(s: seq<Token>, c: Context)
    ensures Sentence(s, c) <==> ParseOr(s, 0, c).Some? && ParseOr(s, 0, c).value.1 == |s|
    ensures forall t :: IsDisj(t, c) && Yield(t) == s ==> ParseOr(s, 0, c) == Some((t, |s|))
  {
    forall t | IsDisj(t, c) && Yield(t) == s ensures ParseOr(s, 0, c) == Some((t, |s|)) {
      assert s[0..|s|] == s;
      OrComplete(t, s, 0, |s|, c);
    }
    if ParseOr(s, 0, c).Some? && ParseOr(s, 0, c).value.1 == |s| {
      OrSound(s, 0, c);
      var t := ParseOr(s, 0, c).value.0;
      assert s[0..|s|] == s;
      assert IsDisj(t, c) && Yield(t) == s;
    }
  }

  // ------------------------------------------------------------------- fail-closed

  /** Every comparison that reads a field stands under an even number of NOTs. */
  predicate Positive(t: Tree, even: bool)
  {
    match t
    case Cmp(l, _, r) => even || (!l.Ident? && !r.Ident?)
    case Negation(_, body) => Positive(body, !even)
    case Group(body) => Positive(body, even)
    case Conj(l, _, r) => Positive(l, even) && Positive(r, even)
    case Disj(l, _, r) => Positive(l, even) && Positive(r, even)
  }

  ghost predicate FewerFields(f: Fields, g: Fields)
  {
    forall k <- f :: k in g && g[k] == f[k]
  }

  /** A positive predicate fails closed: removing fields from a sample never makes it
      match. */
  lemma {:induction false} FailsClosed(t: Tree, c: Context, f: Fields, g: Fields, even: bool)
    requires Positive(t, even) && FewerFields(f, g)
    ensures if even then Meaning(t, c, f) ==> Meaning(t, c, g) else Meaning(t, c, g) ==> Meaning(t, c, f)
    decreases t
  {
    match t
    case Cmp(_, _, _) =>
    case Negation(_, body) => FailsClosed(body, c, f, g, !even);
    case Group(body) => FailsClosed(body, c, f, g, even);
    case Conj(l, _, r) => FailsClosed(l, c, f, g, even); FailsClosed(r, c, f, g, even);
    case Disj(l, _, r) => FailsClosed(l, c, f, g, even); FailsClosed(r, c, f, g, even);
  }

  /** The documented reading: a comparison may fail, and a failure carries over to whatever
      contains it, except past an OR whose other side is satisfied. */
  datatype Verdict = Failed | Says(holds: bool)

  predicate Comparable(l: Value, r: Value, c: Context)
  {
    var (a, b) := (Normalize(l, c), Normalize(r, c));
    (a.Num? && b.Num?) || (a.Text? && b.Text?)
  }

  function Documented(t: Tree, c: Context, f: Fields): Verdict
  {
    match t
    case Cmp(l, op, r) =>
      if !OperandOk(l, c) || !op.Op? || !OperandOk(r, c) then Failed
      else
        var lv, rv := Operand(l, c, f), Operand(r, c, f);
        if lv.None? || rv.None? || !Comparable(lv.value, rv.value, c) then Failed
        else Says(Compare(lv.value, rv.value, op.text, c))
    case Negation(_, body) => var v := Documented(body, c, f); if v.Failed? then Failed else Says(!v.holds)
    case Group(body) => Documented(body, c, f)
    case Conj(l, _, r) =>
      var v, w := Documented(l, c, f), Documented(r, c, f);
      if v.Failed? || w.Failed? then Failed else Says(v.holds && w.holds)
    case Disj(l, _, r) =>
      var v, w := Documented(l, c, f), Documented(r, c, f);
      if v == Says(true) || w == Says(true) then Says(true)
      else if v.Failed? || w.Failed? then Failed
      else Says(false)
  }

  predicate NotFree(t: Tree)
  {
    match t
    case Cmp(_, _, _) => true
    case Negation(_, _) => false
    case Group(body) => NotFree(body)
    case Conj(l, _, r) => NotFree(l) && NotFree(r)
    case Disj(l, _, r) => NotFree(l) && NotFree(r)
  }

  /** The code follows the documented reading of the predicate on this sample. */
  predicate AsDocumented(t: Tree, c: Context, f: Fields)
  {
    Meaning(t, c, f) <==> Documented(t, c, f) == Says(true)
  }

  lemma {:induction false} NotFreeAsDocumented(t: Tree, c: Context, f: Fields)
    requires NotFree(t)
    ensures AsDocumented(t, c, f)
    decreases t
  {
    match t
    case Cmp(_, _, _) =>
    case Group(body) => NotFreeAsDocumented(body, c, f);
    case Conj(l, _, r) => NotFreeAsDocumented(l, c, f); NotFreeAsDocumented(r, c, f);
    case Disj(l, _, r) => NotFreeAsDocumented(l, c, f); NotFreeAsDocumented(r, c, f);
  }

  /** Where the documented reading gives an answer, the code gives the same one, for every
      predicate: it deviates on failing samples only, and only by matching them. */
  lemma {:induction false} AnswersAgree(t: Tree, c: Context, f: Fields)
    ensures Documented(t, c, f).Says? ==> Documented(t, c, f).holds == Meaning(t, c, f)
    ensures AsDocumented(t, c, f) <==> !(Documented(t, c, f).Failed? && Meaning(t, c, f))
    decreases t
  {
    match t
    case Cmp(_, _, _) =>
    case Negation(_, body) => AnswersAgree(body, c, f);
    case Group(body) => AnswersAgree(body, c, f);
    case Conj(l, _, r) => AnswersAgree(l, c, f); AnswersAgree(r, c, f);
    case Disj(l, _, r) => AnswersAgree(l, c, f); AnswersAgree(r, c, f);
  }

  /** A NOT follows the documented reading on exactly the samples on which its body does
      not fail, or fails and matches; a body without NOT that fails never matches. */
  lemma NegationExact(sign: Token, body: Tree, c: Context, f: Fields)
    ensures AsDocumented(Negation(sign, body), c, f) <==> !Documented(body, c, f).Failed? || Meaning(body, c, f)
    ensures NotFree(body) ==> (AsDocumented(Negation(sign, body), c, f) <==> !Documented(body, c, f).Failed?)
  {
    AnswersAgree(body, c, f);
    if NotFree(body) { NotFreeAsDocumented(body, c, f); }
  }

  /** In particular NOT of any comparison with a field matches a sample without fields. */
  lemma NegationFailsOpen(c: Context, field: string, op: Token, value: Token)
    requires op.Op? && OperandOk(value, c)
    ensures var t := Negation(Not("NOT"), Cmp(Ident(field), op, value));
      IsDisj(t, c) && Meaning(t, c, map[]) && !AsDocumented(t, c, map[])
  {
    assert IsUnary(Cmp(Ident(field), op, value), c);
    NegationExact(Not("NOT"), Cmp(Ident(field), op, value), c, map[]);
  }

  /** The same with a disjunction of which one side fails and the other is false: the sample
      has `y` but not `x`, no branch is satisfied, and the NOT matches all the same. */
  lemma HalfFailedDisjunction(c: Context)
    ensures var x, y := Cmp(Ident("x"), Op("="), Quoted("a")), Cmp(Ident("y"), Op("="), Quoted("b"));
      var body := Group(Disj(x, Or("OR"), y));
      var t, f := Negation(Not("NOT"), body), map["y" := Text("c")];
      && IsDisj(t, c) && Documented(x, c, f) == Failed && Documented(y, c, f) == Says(false)
      && Meaning(t, c, f) && !AsDocumented(t, c, f)
  {
    var x, y := Cmp(Ident("x"), Op("="), Quoted("a")), Cmp(Ident("y"), Op("="), Quoted("b"));
    var body := Group(Disj(x, Or("OR"), y));
    assert IsUnary(x, c) && IsUnary(y, c) && IsDisj(Disj(x, Or("OR"), y), c);
    NegationExact(Not("NOT"), body, c, map["y" := Text("c")]);
  }
}
