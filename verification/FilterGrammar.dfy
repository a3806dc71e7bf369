/** The grammar in the documentation of the content-filter language, which is ambiguous and
    has a field on exactly one side of a comparison, against the one that the parser
    follows. */
module FilterGrammar {
  import opened Wire
  import opened FilterLanguage

  predicate IsValue(t: Token)
  {
    t.Number? || t.Quoted? || t.Param?
  }

  const OPERATORS := ["=", "<>", "!=", ">", ">=", "<", "<="]

  /** comparison = field op value | value op field. */
  predicate DocComparison(l: Token, op: Token, r: Token)
  {
    && op.Op? && op.text in OPERATORS
    && ((l.Ident? && IsValue(r)) || (IsValue(l) && r.Ident?))
  }

  /** predicate = comparison | NOT predicate | predicate AND predicate | predicate OR predicate
      | "(" predicate ")", without precedences. `one` asks for documented comparisons, and
      otherwise any two operands may be compared. */
  predicate Derives(t: Tree, c: Context, one: bool)
  {
    match t
    case Cmp(l, op, r) => OperandOk(l, c) && op.Op? && OperandOk(r, c) && (one ==> DocComparison(l, op, r))
    case Negation(sign, body) => sign.Not? && Derives(body, c, one)
    case Group(body) => Derives(body, c, one)
    case Conj(l, sign, r) => sign.And? && Derives(l, c, one) && Derives(r, c, one)
    case Disj(l, sign, r) => sign.Or? && Derives(l, c, one) && Derives(r, c, one)
  }

  /** The list is a predicate of the documentation, with its numbers and parameters valid. */
  ghost predicate DocSentence(s: seq<Token>, c: Context)
  {
    exists t :: Derives(t, c, true) && Yield(t) == s
  }

  /** Around the token stands a documented comparison. */
  predicate Amid(s: seq<Token>, i: nat)
  {
    0 < i < |s| - 1 && DocComparison(s[i - 1], s[i], s[i + 1])
  }

  /** Around every operator of the list stands a documented comparison. */
  predicate OneFieldEach(s: seq<Token>)
  {
    forall i :: 0 <= i < |s| && s[i].Op? ==> Amid(s, i)
  }

  // ----------------------------------------------- comparisons are seen in the tokens

  predicate IsSign(t: Token)
  {
    t.And? || t.Or? || t.Not? || t.LParen? || t.RParen?
  }

  lemma AmidLeft(a: seq<Token>, sign: Token, b: seq<Token>, i: nat)
    requires IsSign(sign) && i < |a|
    ensures var s := a + [sign] + b; s[i] == a[i] && (Amid(s, i) <==> Amid(a, i))
  {
    var s := a + [sign] + b;
    assert s[i] == a[i] && (0 < i ==> s[i - 1] == a[i - 1]);
    assert s[i + 1] == if i + 1 < |a| then a[i + 1] else sign;
  }

  lemma AmidRight(a: seq<Token>, sign: Token, b: seq<Token>, i: nat)
    requires IsSign(sign) && i < |b|
    ensures var s, n := a + [sign] + b, |a| + 1; s[n + i] == b[i] && (Amid(s, n + i) <==> Amid(b, i))
  {
    var s, n := a + [sign] + b, |a| + 1;
    assert s[n + i] == b[i] && s[n + i - 1] == if 0 < i then b[i - 1] else sign;
    assert i + 1 < |b| ==> s[n + i + 1] == b[i + 1];
  }

  lemma SignSplits(a: seq<Token>, sign: Token, b: seq<Token>)
    requires IsSign(sign)
    ensures OneFieldEach(a + [sign] + b) <==> OneFieldEach(a) && OneFieldEach(b)
  {
    var s, n := a + [sign] + b, |a| + 1;
    forall i | 0 <= i < |a| ensures s[i] == a[i] && (Amid(s, i) <==> Amid(a, i)) { AmidLeft(a, sign, b, i); }
    forall i | 0 <= i < |b| ensures s[n + i] == b[i] && (Amid(s, n + i) <==> Amid(b, i)) { AmidRight(a, sign, b, i); }
    if OneFieldEach(a) && OneFieldEach(b) {
      forall i | 0 <= i < |s| && s[i].Op? ensures Amid(s, i) {
        if i > |a| { assert s[n + (i - n)] == b[i - n]; }
      }
    }
  }

  lemma SignFirst(sign: Token, b: seq<Token>)
    requires IsSign(sign)
    ensures OneFieldEach([sign] + b) <==> OneFieldEach(b)
  {
    SignSplits([], sign, b);
    assert [] + [sign] + b == [sign] + b;
  }

  lemma SignLast(a: seq<Token>, sign: Token)
    requires IsSign(sign)
    ensures OneFieldEach(a + [sign]) <==> OneFieldEach(a)
  {
    SignSplits(a, sign, []);
    assert a + [sign] + [] == a + [sign];
  }

  lemma CmpTokens(l: Token, op: Token, r: Token, c: Context)
    requires OperandOk(l, c) && op.Op? && OperandOk(r, c)
    ensures OneFieldEach([l, op, r]) <==> DocComparison(l, op, r)
  {
    var s := [l, op, r];
    assert s[0] == l && s[1] == op && s[2] == r;
    assert Amid(s, 1) <==> DocComparison(l, op, r);
  }

  /** Whatever the shape of the tree, its comparisons are the documented ones exactly when
      those around the operators of its tokens are. */
  lemma {:induction false} DerivesByTokens(t: Tree, c: Context)
    requires Derives(t, c, false)
    ensures Derives(t, c, true) <==> OneFieldEach(Yield(t))
    decreases t
  {
    match t
    case Cmp(l, op, r) => CmpTokens(l, op, r, c);
    case Negation(sign, body) =>
      DerivesByTokens(body, c);
      SignFirst(sign, Yield(body));
    case Group(body) =>
      DerivesByTokens(body, c);
      SignFirst(LParen, Yield(body));
      SignLast([LParen] + Yield(body), RParen);
    case Conj(l, sign, r) =>
      DerivesByTokens(l, c);
      DerivesByTokens(r, c);
      SignSplits(Yield(l), sign, Yield(r));
    case Disj(l, sign, r) =>
      DerivesByTokens(l, c);
      DerivesByTokens(r, c);
      SignSplits(Yield(l), sign, Yield(r));
  }

  lemma {:induction false} OneIsAny(t: Tree, c: Context)
    requires Derives(t, c, true)
    ensures Derives(t, c, false)
    decreases t
  {
    match t
    case Cmp(_, _, _) =>
    case Negation(_, body) => OneIsAny(body, c);
    case Group(body) => OneIsAny(body, c);
    case Conj(l, _, r) => OneIsAny(l, c); OneIsAny(r, c);
    case Disj(l, _, r) => OneIsAny(l, c); OneIsAny(r, c);
  }

  // ------------------------------------------ precedences take away no sentence

  lemma {:induction false} DisjDerives(t: Tree, c: Context)
    requires IsDisj(t, c)
    ensures Derives(t, c, false)
    decreases t, 2
  {
    if t.Disj? {
      DisjDerives(t.l, c);
      ConjDerives(t.r, c);
    } else {
      ConjDerives(t, c);
    }
  }

  lemma {:induction false} ConjDerives(t: Tree, c: Context)
    requires IsConj(t, c)
    ensures Derives(t, c, false)
    decreases t, 1
  {
    if t.Conj? {
      ConjDerives(t.l, c);
      UnaryDerives(t.r, c);
    } else {
      UnaryDerives(t, c);
    }
  }

  lemma {:induction false} UnaryDerives(t: Tree, c: Context)
    requires IsUnary(t, c)
    ensures Derives(t, c, false)
    decreases t, 0
  {
    match t
    case Cmp(_, _, _) =>
    case Negation(_, body) => UnaryDerives(body, c);
    case Group(body) => DisjDerives(body, c);
  }

  function JoinOr(l: Tree, sign: Token, r: Tree): Tree
  {
    if r.Disj? then Disj(JoinOr(l, sign, r.l), r.sign, r.r) else Disj(l, sign, r)
  }

  function JoinAnd(l: Tree, sign: Token, r: Tree): Tree
  {
    if r.Conj? then Conj(JoinAnd(l, sign, r.l), r.sign, r.r) else Conj(l, sign, r)
  }

  /** AND binds the last branch of the left side to the first of the right side. */
  function BindAnd(l: Tree, sign: Token, r: Tree): Tree
    decreases r
  {
    if r.Disj? then Disj(BindAnd(l, sign, r.l), r.sign, r.r)
    else if l.Disj? then Disj(l.l, l.sign, JoinAnd(l.r, sign, r))
    else JoinAnd(l, sign, r)
  }

  /** NOT binds the first operand. */
  function BindNot(sign: Token, t: Tree): Tree
  {
    match t
    case Disj(l, s, r) => Disj(BindNot(sign, l), s, r)
    case Conj(l, s, r) => Conj(BindNot(sign, l), s, r)
    case _ => Negation(sign, t)
  }

  /** The tree of the parser for the tokens of a tree of any shape. */
  function Regroup(t: Tree): Tree
  {
    match t
    case Cmp(_, _, _) => t
    case Negation(sign, body) => BindNot(sign, Regroup(body))
    case Group(body) => Group(Regroup(body))
    case Conj(l, sign, r) => BindAnd(Regroup(l), sign, Regroup(r))
    case Disj(l, sign, r) => JoinOr(Regroup(l), sign, Regroup(r))
  }

  lemma Reassociate(a: seq<Token>, b: seq<Token>, c: seq<Token>, d: seq<Token>, e: seq<Token>)
    ensures a + b + c + d + e == a + b + (c + d + e)
  {
  }

  lemma {:induction false} JoinOrIsDisj(l: Tree, sign: Token, r: Tree, c: Context)
    requires IsDisj(l, c) && sign.Or? && IsDisj(r, c)
    ensures IsDisj(JoinOr(l, sign, r), c) && Yield(JoinOr(l, sign, r)) == Yield(l) + [sign] + Yield(r)
    decreases r
  {
    if r.Disj? {
      JoinOrIsDisj(l, sign, r.l, c);
      Reassociate(Yield(l), [sign], Yield(r.l), [r.sign], Yield(r.r));
    }
  }

  lemma {:induction false} JoinAndIsConj(l: Tree, sign: Token, r: Tree, c: Context)
    requires IsConj(l, c) && sign.And? && IsConj(r, c)
    ensures IsConj(JoinAnd(l, sign, r), c) && Yield(JoinAnd(l, sign, r)) == Yield(l) + [sign] + Yield(r)
    decreases r
  {
    if r.Conj? {
      JoinAndIsConj(l, sign, r.l, c);
      Reassociate(Yield(l), [sign], Yield(r.l), [r.sign], Yield(r.r));
    }
  }

  lemma {:induction false} BindAndIsDisj(l: Tree, sign: Token, r: Tree, c: Context)
    requires IsDisj(l, c) && sign.And? && IsDisj(r, c)
    ensures IsDisj(BindAnd(l, sign, r), c) && Yield(BindAnd(l, sign, r)) == Yield(l) + [sign] + Yield(r)
    decreases r
  {
    if r.Disj? {
      BindAndIsDisj(l, sign, r.l, c);
      Reassociate(Yield(l), [sign], Yield(r.l), [r.sign], Yield(r.r));
    } else if l.Disj? {
      JoinAndIsConj(l.r, sign, r, c);
      Reassociate(Yield(l.l), [l.sign], Yield(l.r), [sign], Yield(r));
    } else {
      JoinAndIsConj(l, sign, r, c);
    }
  }

  lemma HeadFirst(a: Token, b: seq<Token>, c: seq<Token>, d: seq<Token>)
    ensures [a] + b + c + d == [a] + (b + c + d)
  {
  }

  lemma {:induction false} BindNotIsConj(sign: Token, t: Tree, c: Context)
    requires sign.Not? && IsConj(t, c)
    ensures IsConj(BindNot(sign, t), c) && Yield(BindNot(sign, t)) == [sign] + Yield(t)
    ensures !t.Conj? ==> IsUnary(BindNot(sign, t), c)
    decreases t
  {
    if t.Conj? {
      BindNotIsConj(sign, t.l, c);
      HeadFirst(sign, Yield(t.l), [t.sign], Yield(t.r));
    }
  }

  lemma {:induction false} BindNotIsDisj(sign: Token, t: Tree, c: Context)
    requires sign.Not? && IsDisj(t, c)
    ensures IsDisj(BindNot(sign, t), c) && Yield(BindNot(sign, t)) == [sign] + Yield(t)
    decreases t
  {
    if t.Disj? {
      BindNotIsDisj(sign, t.l, c);
      HeadFirst(sign, Yield(t.l), [t.sign], Yield(t.r));
    } else {
      BindNotIsConj(sign, t, c);
    }
  }

  /** Every tree of the ambiguous grammar has a tree of the parser's with the same tokens. */
  lemma {:induction false} RegroupIsDisj(t: Tree, c: Context)
    requires Derives(t, c, false)
    ensures IsDisj(Regroup(t), c) && Yield(Regroup(t)) == Yield(t)
    decreases t
  {
    match t
    case Cmp(_, _, _) =>
    case Negation(sign, body) =>
      RegroupIsDisj(body, c);
      BindNotIsDisj(sign, Regroup(body), c);
    case Group(body) => RegroupIsDisj(body, c);
    case Conj(l, sign, r) =>
      RegroupIsDisj(l, c);
      RegroupIsDisj(r, c);
      BindAndIsDisj(Regroup(l), sign, Regroup(r), c);
    case Disj(l, sign, r) =>
      RegroupIsDisj(l, c);
      RegroupIsDisj(r, c);
      JoinOrIsDisj(Regroup(l), sign, Regroup(r), c);
  }

  // ------------------------------------------------------------------------ the result

  /** The parser accepts every sentence of the documentation, and a list that it accepts is
      one exactly when a documented comparison stands around each of its operators. */
  lemma DocumentedExact(s: seq<Token>, c: Context)
    ensures DocSentence(s, c) <==> Sentence(s, c) && OneFieldEach(s)
  {
    if DocSentence(s, c) {
      var t :| Derives(t, c, true) && Yield(t) == s;
      OneIsAny(t, c);
      DerivesByTokens(t, c);
      RegroupIsDisj(t, c);
    }
    if Sentence(s, c) && OneFieldEach(s) {
      var t :| IsDisj(t, c) && Yield(t) == s;
      DisjDerives(t, c);
      DerivesByTokens(t, c);
    }
  }

  /** Two fields, or two values, are accepted and are not documented. */
  lemma UndocumentedAccepted(c: Context, l: Token, op: Token, r: Token)
    requires op.Op? && OperandOk(l, c) && OperandOk(r, c) && (l.Ident? <==> r.Ident?)
    ensures Sentence([l, op, r], c) && !DocSentence([l, op, r], c)
  {
    var t := Cmp(l, op, r);
    assert IsUnary(t, c) && IsConj(t, c) && IsDisj(t, c) && Yield(t) == [l, op, r];
    CmpTokens(l, op, r, c);
    DocumentedExact([l, op, r], c);
  }
}
