/** The parser object, which compiles a predicate while it advances over the tokens. */
module FilterParser {
  import opened Wire
  import opened FilterLanguage

  /** A compiled predicate. */
  type Predicate = Fields -> bool

  ghost predicate Compiles(fn: Predicate, t: Tree, c: Context)
  {
    forall f: Fields :: fn(f) == Meaning(t, c, f)
  }

  /** The outcome agrees with the reference parser: both fail, or the compiled predicate
      means what the tree means and the position is behind the tree. */
  ghost predicate Agrees(fn: Option<Predicate>, pos: nat, parsed: Parsed, c: Context)
  {
    match parsed
    case None => fn.None?
    case Some((t, q)) => fn.Some? && pos == q && Compiles(fn.value, t, c)
  }

  /** An operand of a comparison, as a function of the fields. */
  type OperandFn = Fields -> Option<Value>

  class Parser {
    const toks: seq<Token>
    const c: Context
    var pos: nat

    constructor (toks: seq<Token>, c: Context)
      ensures this.toks == toks && this.c == c && pos == 0
    {
      this.toks, this.c, pos := toks, c, 0;
    }

    method ParseOr() returns (fn: Option<Predicate>)
      requires pos <= |toks|
      modifies this
      ensures Agrees(fn, pos, FilterLanguage.ParseOr(toks, old(pos), c), c)
      decreases |toks| - pos, 2
    {
      var left := ParseAnd();
      if left.None? {
        return None;
      }
      ghost var tree := FilterLanguage.ParseAnd(toks, old(pos), c).value.0;
      while pos < |toks| && toks[pos].Or?
        invariant old(pos) < pos <= |toks| && left.Some? && IsDisj(tree, c) && Compiles(left.value, tree, c)
        invariant OrLoop(toks, pos, tree, c) == FilterLanguage.ParseOr(toks, old(pos), c)
        decreases |toks| - pos
      {
        ghost var sign, at := toks[pos], pos + 1;
        pos := pos + 1;
        var right := ParseAnd();
        if right.None? {
          return None;
        }
        var l, r := left.value, right.value;
        left := Some((f: Fields) => l(f) || r(f));
        tree := Disj(tree, sign, FilterLanguage.ParseAnd(toks, at, c).value.0);
      }
      fn := left;
    }

    method ParseAnd() returns (fn: Option<Predicate>)
      requires pos <= |toks|
      modifies this
      ensures Agrees(fn, pos, FilterLanguage.ParseAnd(toks, old(pos), c), c)
      decreases |toks| - pos, 1
    {
      var left := ParseUnary();
      if left.None? {
        return None;
      }
      ghost var tree := FilterLanguage.ParseUnary(toks, old(pos), c).value.0;
      while pos < |toks| && toks[pos].And?
        invariant old(pos) < pos <= |toks| && left.Some? && IsConj(tree, c) && Compiles(left.value, tree, c)
        invariant AndLoop(toks, pos, tree, c) == FilterLanguage.ParseAnd(toks, old(pos), c)
        decreases |toks| - pos
      {
        ghost var sign, at := toks[pos], pos + 1;
        pos := pos + 1;
        var right := ParseUnary();
        if right.None? {
          return None;
        }
        var l, r := left.value, right.value;
        left := Some((f: Fields) => l(f) && r(f));
        tree := Conj(tree, sign, FilterLanguage.ParseUnary(toks, at, c).value.0);
      }
      fn := left;
    }

    method ParseUnary() returns (fn: Option<Predicate>)
      requires pos <= |toks|
      modifies this
      ensures Agrees(fn, pos, FilterLanguage.ParseUnary(toks, old(pos), c), c)
      decreases |toks| - pos, 0
    {
      if pos < |toks| && toks[pos].Not? {
        pos := pos + 1;
        var inner := ParseUnary();
        if inner.None? {
          return None;
        }
        var body := inner.value;
        fn := Some((f: Fields) => !body(f));
      } else if pos < |toks| && toks[pos].LParen? {
        pos := pos + 1;
        fn := ParseOr();
        if fn.None? || pos == |toks| || !toks[pos].RParen? {
          return None;
        }
        pos := pos + 1;
      } else {
        fn := ParseComparison();
      }
    }

    method ParseComparison() returns (fn: Option<Predicate>)
      requires pos <= |toks| && (pos < |toks| ==> !toks[pos].Not? && !toks[pos].LParen?)
      modifies this
      ensures Agrees(fn, pos, FilterLanguage.ParseUnary(toks, old(pos), c), c)
    {
      var left := ParseOperand();
      if left.None? || pos >= |toks| || !toks[pos].Op? {
        return None;
      }
      var op := toks[pos];
      pos := pos + 1;
      var right := ParseOperand();
      if right.None? {
        return None;
      }
      var l, r, ctx := left.value, right.value, c;
      fn := Some((f: Fields) => l(f).Some? && r(f).Some? && Compare(l(f).value, r(f).value, op.text, ctx));
    }

    /** Advances even where it fails, possibly past the last token. */
    method ParseOperand() returns (fn: Option<OperandFn>)
      requires pos <= |toks|
      modifies this
      ensures pos == old(pos) + 1
      ensures fn.Some? <==> old(pos) < |toks| && OperandOk(toks[old(pos)], c)
      ensures fn.Some? ==> forall f :: fn.value(f) == Operand(toks[old(pos)], c, f)
    {
      var at := pos;
      pos := pos + 1;
      if at == |toks| || !OperandOk(toks[at], c) {
        return None;
      }
      var t, ctx := toks[at], c;
      fn := Some((f: Fields) => if OperandOk(t, ctx) then Operand(t, ctx, f) else None);
    }
  }

  /** Compiles a token list: it succeeds exactly on the sentences of the grammar, and the
      predicate means what the sentence's tree means. After a parse that leaves tokens over,
      the token reported is one of the list. */
  method Compile(toks: seq<Token>, c: Context) returns (fn: Option<Predicate>, unexpected: Option<Token>)
    ensures fn.Some? <==> Sentence(toks, c)
    ensures forall t :: IsDisj(t, c) && Yield(t) == toks ==> fn.Some? && Compiles(fn.value, t, c)
    ensures unexpected.Some? ==> fn.None? && unexpected.value in toks
  {
    ParserExact(toks, c);
    unexpected := None;
    var p := new Parser(toks, c);
    fn := p.ParseOr();
    if fn.Some? && p.pos != |toks| {
      return None, Some(toks[p.pos]);
    }
  }
}
