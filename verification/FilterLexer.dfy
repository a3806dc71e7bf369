/** The tokenizer of the content-filter language. */
module FilterLexer {
  import opened Wire
  import opened FilterLanguage

  predicate IsIdentStart(ch: char)
  {
    ch == '_' || 'a' <= ch <= 'z' || 'A' <= ch <= 'Z'
  }

  predicate IsIdentPart(ch: char)
  {
    IsIdentStart(ch) || IsDigit(ch)
  }

  predicate IsSpace(ch: char)
  {
    ch == ' ' || ch == '\t' || ch == '\n' || ch == '\r'
  }

  predicate IsNumberPart(ch: char)
  {
    IsDigit(ch) || ch == '.'
  }

  function Upper(s: string): string
  {
    if s == [] then []
    else [if 'a' <= s[0] <= 'z' then (s[0] as int - 32) as char else s[0]] + Upper(s[1..])
  }

  function Word(w: string): Token
  {
    match Upper(w)
    case "AND" => And(w)
    case "OR" => Or(w)
    case "NOT" => Not(w)
    case _ => Ident(w)
  }

  /** The length of the longest prefix in a class of characters. */
  function Span(s: string, p: char -> bool): (n: nat)
    ensures n <= |s|
  {
    if s == [] || !p(s[0]) then 0 else 1 + Span(s[1..], p)
  }

  /** The text of a string literal after its opening quote, and the length up to and
      including the closing one; a doubled quote stands for one. */
  function Literal(s: string): (r: Option<(string, nat)>)
    ensures r.Some? ==> 0 < r.value.1 <= |s|
  {
    if s == [] then None
    else if s[0] == '\'' then
      if |s| > 1 && s[1] == '\'' then
        var r := Literal(s[2..]);
        if r.None? then None else Some(("'" + r.value.0, r.value.1 + 2))
      else Some(("", 1))
    else
      var r := Literal(s[1..]);
      if r.None? then None else Some(([s[0]] + r.value.0, r.value.1 + 1))
  }

  datatype Lexeme = Bad | Space | Lexeme(token: Token, len: nat)

  /** The operator at the head of the text, if any: two characters before one. */
  function Operator(s: string): (r: string)
    ensures r <= s
  {
    if |s| >= 2 && s[..2] in {"!=", "<>", "<=", ">="} then s[..2]
    else if "<" <= s then "<"
    else if ">" <= s then ">"
    else if "=" <= s then "="
    else ""
  }

  /** What stands at the head of a non-empty text. */
  function Head(s: string): (r: Lexeme)
    requires s != []
    ensures r.Lexeme? ==> 0 < r.len <= |s|
  {
    if IsSpace(s[0]) then Space
    else if s[0] == '(' then Lexeme(LParen, 1)
    else if s[0] == ')' then Lexeme(RParen, 1)
    else if s[0] == '\'' then
      var r := Literal(s[1..]);
      if r.None? then Bad else Lexeme(Quoted(r.value.0), 1 + r.value.1)
    else if s[0] == '%' then
      var n := Span(s[1..], IsDigit);
      if n == 0 then Bad else Lexeme(Param(s[1..1 + n]), 1 + n)
    else if Operator(s) != "" then Lexeme(Op(Operator(s)), |Operator(s)|)
    else if (s[0] in "+-" && |s| > 1 && IsDigit(s[1])) || IsDigit(s[0]) then
      var n := 1 + Span(s[1..], IsNumberPart);
      Lexeme(Number(s[..n]), n)
    else if IsIdentStart(s[0]) then
      var n := 1 + Span(s[1..], IsIdentPart);
      Lexeme(Word(s[..n]), n)
    else Bad
  }

  function Lex(s: string): Option<seq<Token>>
  {
    if s == [] then Some([])
    else
      match Head(s)
      case Bad => None
      case Space => Lex(s[1..])
      case Lexeme(t, n) =>
        var rest := Lex(s[n..]);
        if rest.None? then None else Some([t] + rest.value)
  }

  // ----------------------------------------------------------------------- the loops

  method ScanSpan(s: string, start: nat, p: char -> bool) returns (j: nat)
    requires start <= |s|
    ensures j == start + Span(s[start..], p)
  {
    j := start;
    while j < |s| && p(s[j])
      invariant start <= j <= |s|
      invariant start + Span(s[start..], p) == j + Span(s[j..], p)
    {
      assert s[j..][1..] == s[j + 1..];
      j := j + 1;
    }
  }

  /** A literal whose first characters have been read already. */
  function Resume(text: string, read: nat, rest: Option<(string, nat)>): Option<(string, nat)>
  {
    if rest.None? then None else Some((text + rest.value.0, read + rest.value.1))
  }

  lemma ResumeEmpty(l: Option<(string, nat)>)
    ensures Resume("", 0, l) == l
  {
    if l.Some? { assert "" + l.value.0 == l.value.0; }
  }

  lemma ResumePlain(text: string, read: nat, s: string)
    requires s != [] && s[0] != '\''
    ensures Resume(text, read, Literal(s)) == Resume(text + [s[0]], read + 1, Literal(s[1..]))
  {
    Continue(text, read, [s[0]], 1, Literal(s[1..]));
  }

  lemma Continue(text: string, read: nat, more: string, n: nat, rest: Option<(string, nat)>)
    ensures Resume(text, read, Resume(more, n, rest)) == Resume(text + more, read + n, rest)
  {
    if rest.Some? { assert text + (more + rest.value.0) == (text + more) + rest.value.0; }
  }

  lemma ResumeQuote(text: string, read: nat, s: string)
    requires |s| > 1 && s[0] == '\'' && s[1] == '\''
    ensures Resume(text, read, Literal(s)) == Resume(text + "'", read + 2, Literal(s[2..]))
  {
    Continue(text, read, "'", 2, Literal(s[2..]));
  }

  lemma ResumeClose(text: string, read: nat, s: string)
    requires s != [] && s[0] == '\'' && !(|s| > 1 && s[1] == '\'')
    ensures Resume(text, read, Literal(s)) == Some((text, read + 1))
  {
    assert text + "" == text;
  }

  method ScanLiteral(s: string, start: nat) returns (r: Option<(string, nat)>)
    requires start <= |s|
    ensures r == Literal(s[start..])
  {
    var j, text := start, "";
    ResumeEmpty(Literal(s[start..]));
    while j < |s|
      invariant start <= j <= |s|
      invariant Literal(s[start..]) == Resume(text, j - start, Literal(s[j..]))
    {
      ghost var rest := s[j..];
      if s[j] == '\'' {
        if j + 1 < |s| && s[j + 1] == '\'' {
          ResumeQuote(text, j - start, rest);
          assert rest[2..] == s[j + 2..];
          text := text + "'";
          j := j + 2;
          continue;
        }
        ResumeClose(text, j - start, rest);
        return Some((text, j + 1 - start));
      }
      ResumePlain(text, j - start, rest);
      assert rest[1..] == s[j + 1..];
      text := text + [s[j]];
      j := j + 1;
    }
    r := None;
  }

  function After(toks: seq<Token>, rest: Option<seq<Token>>): Option<seq<Token>>
  {
    if rest.None? then None else Some(toks + rest.value)
  }

  lemma AfterStep(toks: seq<Token>, s: string)
    requires s != []
    ensures Head(s).Bad? ==> After(toks, Lex(s)) == None
    ensures Head(s).Space? ==> After(toks, Lex(s)) == After(toks, Lex(s[1..]))
    ensures Head(s).Lexeme? ==> After(toks, Lex(s)) == After(toks + [Head(s).token], Lex(s[Head(s).len..]))
  {
    if Head(s).Lexeme? && Lex(s[Head(s).len..]).Some? {
      var t, rest := Head(s).token, Lex(s[Head(s).len..]).value;
      assert toks + ([t] + rest) == (toks + [t]) + rest;
    }
  }

  lemma AfterNothing(r: Option<seq<Token>>)
    ensures After([], r) == r
  {
    if r.Some? { assert [] + r.value == r.value; }
  }

  lemma NothingAfter(toks: seq<Token>)
    ensures After(toks, Lex([])) == Some(toks)
  {
    assert toks + [] == toks;
  }

  /** What was scanned up to `i` and what is still to come make up the result. */
  ghost predicate Scanned(result: Option<seq<Token>>, s: string, i: nat, toks: seq<Token>)
    requires i <= |s|
  {
    result == After(toks, Lex(s[i..]))
  }

  lemma ScanStarts(s: string)
    ensures Scanned(Lex(s), s, 0, [])
  {
    assert s[0..] == s;
    AfterNothing(Lex(s));
  }

  lemma ScanEnds(result: Option<seq<Token>>, s: string, toks: seq<Token>)
    requires Scanned(result, s, |s|, toks)
    ensures result == Some(toks)
  {
    assert s[|s|..] == [];
    NothingAfter(toks);
  }

  /** A turn of the scanning loop at `i`, where `h` stands. */
  lemma ScanTurn(result: Option<seq<Token>>, s: string, i: nat, toks: seq<Token>, h: Lexeme)
    requires i < |s| && Scanned(result, s, i, toks) && h == Head(s[i..])
    ensures match h
      case Bad => result == None
      case Space => Scanned(result, s, i + 1, toks)
      case Lexeme(t, n) => 0 < n && i + n <= |s| && Scanned(result, s, i + n, toks + [t])
  {
    AfterStep(toks, s[i..]);
    assert s[i..][1..] == s[i + 1..];
    if h.Lexeme? { assert s[i..][h.len..] == s[i + h.len..]; }
  }

  method Tokenize(s: string) returns (toks: Option<seq<Token>>)
    ensures toks == Lex(s)
  {
    var i, out := 0, [];
    ghost var result := Lex(s);
    ScanStarts(s);
    while i < |s|
      invariant i <= |s| && Scanned(result, s, i, out)
    {
      var ok, token, n := ScanOne(s, i, result, out);
      if !ok {
        return None;
      }
      out, i := out + token, i + n;
    }
    ScanEnds(result, s, out);
    toks := Some(out);
  }

  /** The lexeme at `i`: its token, if it is not white space, and its length. */
  method ScanOne(s: string, i: nat, ghost result: Option<seq<Token>>, ghost out: seq<Token>)
    returns (ok: bool, token: seq<Token>, n: nat)
    requires i < |s| && Scanned(result, s, i, out)
    ensures if ok then 0 < n <= |s| - i && Scanned(result, s, i + n, out + token) else result == None
  {
    var h := ScanHead(s, i);
    ScanTurn(result, s, i, out, h);
    match h
    case Bad => ok, token, n := false, [], 0;
    case Space =>
      assert out + [] == out;
      ok, token, n := true, [], 1;
    case Lexeme(t, len) => ok, token, n := true, [t], len;
  }

  method ScanHead(s: string, i: nat) returns (h: Lexeme)
    requires i < |s|
    ensures h == Head(s[i..])
  {
    var ch := s[i];
    assert s[i..][1..] == s[i + 1..];
    if IsSpace(ch) {
      h := Space;
    } else if ch == '(' {
      h := Lexeme(LParen, 1);
    } else if ch == ')' {
      h := Lexeme(RParen, 1);
    } else if ch == '\'' {
      var r := ScanLiteral(s, i + 1);
      h := if r.None? then Bad else Lexeme(Quoted(r.value.0), 1 + r.value.1);
    } else if ch == '%' {
      var j := ScanSpan(s, i + 1, IsDigit);
      assert s[i..][1..j - i] == s[i + 1..j];
      h := if j == i + 1 then Bad else Lexeme(Param(s[i + 1..j]), j - i);
    } else if Operator(s[i..]) != "" {
      h := Lexeme(Op(Operator(s[i..])), |Operator(s[i..])|);
    } else if ((ch == '-' || ch == '+') && i + 1 < |s| && IsDigit(s[i + 1])) || IsDigit(ch) {
      var j := ScanSpan(s, i + 1, IsNumberPart);
      assert s[i..][..j - i] == s[i..j];
      h := Lexeme(Number(s[i..j]), j - i);
    } else if IsIdentStart(ch) {
      var j := ScanSpan(s, i + 1, IsIdentPart);
      assert s[i..][..j - i] == s[i..j];
      h := Lexeme(Word(s[i..j]), j - i);
    } else {
      h := Bad;
    }
  }

  // ---------------------------------------------------------------- text of a token

  predicate All(s: string, p: char -> bool)
  {
    forall i :: 0 <= i < |s| ==> p(s[i])
  }

  /** The tokens the lexer can produce. */
  predicate Lexical(t: Token)
  {
    match t
    case Ident(w) => w != "" && IsIdentStart(w[0]) && All(w, IsIdentPart) && Word(w) == t
    case And(w) => w != "" && IsIdentStart(w[0]) && All(w, IsIdentPart) && Word(w) == t
    case Or(w) => w != "" && IsIdentStart(w[0]) && All(w, IsIdentPart) && Word(w) == t
    case Not(w) => w != "" && IsIdentStart(w[0]) && All(w, IsIdentPart) && Word(w) == t
    case Number(w) => w != "" && All(w[1..], IsNumberPart)
      && (IsDigit(w[0]) || (w[0] in "+-" && |w| > 1 && IsDigit(w[1])))
    case Param(d) => d != "" && All(d, IsDigit)
    case Op(o) => o in {"=", "<>", "!=", ">", ">=", "<", "<="}
    case _ => true
  }

  function Escape(s: string): string
  {
    if s == [] then [] else (if s[0] == '\'' then "''" else [s[0]]) + Escape(s[1..])
  }

  function Render(t: Token): string
  {
    match t
    case Quoted(s) => "'" + Escape(s) + "'"
    case Param(d) => "%" + d
    case LParen => "("
    case RParen => ")"
    case _ => t.text
  }

  function RenderAll(toks: seq<Token>): string
  {
    if toks == [] then [] else Render(toks[0]) + " " + RenderAll(toks[1..])
  }

  lemma {:induction false} SpanOfPrefix(w: string, rest: string, p: char -> bool)
    requires All(w, p) && (rest == [] || !p(rest[0]))
    ensures Span(w + rest, p) == |w|
  {
    if w != [] {
      assert (w + rest)[1..] == w[1..] + rest;
      SpanOfPrefix(w[1..], rest, p);
    } else {
      assert w + rest == rest;
    }
  }

  lemma {:induction false} LiteralOfEscaped(s: string, rest: string)
    requires rest == [] || rest[0] != '\''
    ensures Literal(Escape(s) + "'" + rest) == Some((s, |Escape(s)| + 1))
  {
    var w := Escape(s) + "'" + rest;
    if s == [] {
      assert w == "'" + rest;
    } else {
      var w' := Escape(s[1..]) + "'" + rest;
      LiteralOfEscaped(s[1..], rest);
      EscapedTail(s, rest);
      if s[0] == '\'' {
        LiteralQuoted(w', s[1..], |Escape(s[1..])| + 1);
        assert "'" + s[1..] == s;
      } else {
        LiteralPlain(s[0], w', s[1..], |Escape(s[1..])| + 1);
        assert [s[0]] + s[1..] == s;
      }
    }
  }

  lemma EscapedTail(s: string, rest: string)
    requires s != []
    ensures Escape(s) + "'" + rest ==
      (if s[0] == '\'' then "''" else [s[0]]) + (Escape(s[1..]) + "'" + rest)
  {
    var first := if s[0] == '\'' then "''" else [s[0]];
    assert Escape(s) == first + Escape(s[1..]);
    Reassociate(first, Escape(s[1..]), "'", rest);
  }

  lemma Reassociate(a: string, b: string, c: string, d: string)
    ensures (a + b) + c + d == a + (b + c + d)
  {
  }

  lemma LiteralQuoted(w: string, text: string, n: nat)
    requires Literal(w) == Some((text, n))
    ensures Literal("''" + w) == Some(("'" + text, n + 2))
  {
    assert ("''" + w)[2..] == w;
  }

  lemma LiteralPlain(ch: char, w: string, text: string, n: nat)
    requires ch != '\'' && Literal(w) == Some((text, n))
    ensures Literal([ch] + w) == Some(([ch] + text, n + 1))
  {
    assert ([ch] + w)[1..] == w;
  }

  /** The character would be read as part of the token before it. */
  predicate Extends(t: Token, ch: char)
  {
    match t
    case Number(_) => IsNumberPart(ch)
    case Param(_) => IsDigit(ch)
    case Quoted(_) => ch == '\''
    case Op(o) => (o == "<" && (ch == '=' || ch == '>')) || (o == ">" && ch == '=')
    case LParen => false
    case RParen => false
    case _ => IsIdentPart(ch)
  }

  predicate Separate(t: Token, tail: string)
  {
    tail == [] || !Extends(t, tail[0])
  }

  lemma HeadOfRendered(t: Token, tail: string)
    requires Lexical(t) && Separate(t, tail)
    ensures Head(Render(t) + tail) == Lexeme(t, |Render(t)|)
  {
    match t
    case Quoted(x) => HeadOfQuoted(x, tail);
    case Param(d) => HeadOfParam(d, tail);
    case Op(o) => HeadOfOperator(o, tail);
    case Number(w) => HeadOfNumber(w, tail);
    case LParen =>
    case RParen =>
    case _ => HeadOfWord(t, tail);
  }

  lemma HeadOfQuoted(x: string, tail: string)
    requires tail == [] || tail[0] != '\''
    ensures Head("'" + Escape(x) + "'" + tail) == Lexeme(Quoted(x), |Escape(x)| + 2)
  {
    LiteralOfEscaped(x, tail);
    assert ("'" + Escape(x) + "'" + tail)[1..] == Escape(x) + "'" + tail;
  }

  lemma HeadOfParam(d: string, tail: string)
    requires Lexical(Param(d)) && (tail == [] || !IsDigit(tail[0]))
    ensures Head("%" + d + tail) == Lexeme(Param(d), |d| + 1)
  {
    var s := "%" + d + tail;
    SpanOfPrefix(d, tail, IsDigit);
    assert s[1..] == d + tail;
    assert s[1..1 + |d|] == d;
  }

  lemma HeadOfNumber(w: string, tail: string)
    requires Lexical(Number(w)) && (tail == [] || !IsNumberPart(tail[0]))
    ensures Head(w + tail) == Lexeme(Number(w), |w|)
  {
    var s := w + tail;
    SpanOfPrefix(w[1..], tail, IsNumberPart);
    assert s[1..] == w[1..] + tail;
    assert s[..|w|] == w;
    assert s[0] == w[0] && (|w| > 1 ==> s[1] == w[1]);
    NotOperator(s);
  }

  lemma NotOperator(s: string)
    requires s != [] && s[0] !in "!<>="
    ensures Operator(s) == ""
  {
    if |s| >= 2 { assert s[..2][0] == s[0]; }
  }

  lemma HeadOfWord(t: Token, tail: string)
    requires Lexical(t) && (t.Ident? || t.And? || t.Or? || t.Not?) && (tail == [] || !IsIdentPart(tail[0]))
    ensures Head(t.text + tail) == Lexeme(t, |t.text|)
  {
    var w := t.text;
    var s := w + tail;
    SpanOfPrefix(w[1..], tail, IsIdentPart);
    assert s[1..] == w[1..] + tail;
    assert s[..|w|] == w;
    assert s[0] == w[0];
    NotOperator(s);
  }

  lemma HeadOfOperator(o: string, tail: string)
    requires Lexical(Op(o)) && Separate(Op(o), tail)
    ensures Head(o + tail) == Lexeme(Op(o), |o|)
  {
    var s := o + tail;
    assert s[0] == o[0];
    if |o| == 2 {
      assert s[..2] == o;
    } else {
      assert s[..1] == o;
      if tail != [] { assert s[..2][0] == o[0] && s[..2][1] == tail[0]; }
    }
  }

  /** Any list of tokens, written out with a space after each, is read back. */
  lemma {:induction false} LexRoundTrip(toks: seq<Token>)
    requires forall i :: 0 <= i < |toks| ==> Lexical(toks[i])
    ensures Lex(RenderAll(toks)) == Some(toks)
  {
    if toks != [] {
      var t, rest := toks[0], RenderAll(toks[1..]);
      RenderedIsSome(t);
      HeadOfRendered(t, " " + rest);
      assert RenderAll(toks) == Render(t) + (" " + rest);
      LexAfter(t, " " + rest);
      LexRoundTrip(toks[1..]);
      assert (" " + rest)[1..] == rest;
      assert Lex(" " + rest) == Lex(rest);
      assert [t] + toks[1..] == toks;
    }
  }

  lemma LexAfter(t: Token, rest: string)
    requires Render(t) != [] && Head(Render(t) + rest) == Lexeme(t, |Render(t)|)
    ensures Lex(Render(t) + rest) == After([t], Lex(rest))
  {
    assert (Render(t) + rest)[|Render(t)|..] == rest;
  }

  lemma RenderedIsSome(t: Token)
    requires Lexical(t)
    ensures Render(t) != []
  {
  }

  lemma {:induction false} SpanIsAll(s: string, p: char -> bool)
    ensures All(s[..Span(s, p)], p)
  {
    if s != [] && p(s[0]) {
      SpanIsAll(s[1..], p);
      var n := Span(s, p);
      assert s[..n] == [s[0]] + s[1..][..n - 1];
    }
  }

  lemma OperatorIsLexical(s: string)
    ensures Operator(s) in {"", "=", "<>", "!=", ">", ">=", "<", "<="}
  {
  }

  lemma NumberIsLexical(s: string)
    requires s != [] && (IsDigit(s[0]) || (s[0] in "+-" && |s| > 1 && IsDigit(s[1])))
    ensures Lexical(Number(s[..1 + Span(s[1..], IsNumberPart)]))
  {
    SpanIsAll(s[1..], IsNumberPart);
    var n := Span(s[1..], IsNumberPart);
    var w := s[..1 + n];
    assert w[1..] == s[1..][..n] && w[0] == s[0];
    if !IsDigit(s[0]) { assert n > 0 && w[1] == s[1]; }
  }

  lemma WordIsLexical(s: string)
    requires s != [] && IsIdentStart(s[0])
    ensures Lexical(Word(s[..1 + Span(s[1..], IsIdentPart)]))
  {
    SpanIsAll(s[1..], IsIdentPart);
    var n := Span(s[1..], IsIdentPart);
    var w := s[..1 + n];
    assert w[1..] == s[1..][..n] && w[0] == s[0];
    assert forall i :: 0 < i < |w| ==> w[i] == w[1..][i - 1];
    assert Word(w).text == w;
  }

  lemma ParamIsLexical(s: string)
    requires s != [] && Span(s[1..], IsDigit) > 0
    ensures Lexical(Param(s[1..1 + Span(s[1..], IsDigit)]))
  {
    SpanIsAll(s[1..], IsDigit);
    var n := Span(s[1..], IsDigit);
    assert s[1..1 + n] == s[1..][..n];
  }

  lemma HeadIsLexical(s: string)
    requires s != [] && Head(s).Lexeme?
    ensures Lexical(Head(s).token)
  {
    match Head(s).token
    case Number(_) => NumberIsLexical(s);
    case Param(_) => ParamIsLexical(s);
    case Op(_) => OperatorIsLexical(s);
    case Quoted(_) =>
    case LParen =>
    case RParen =>
    case _ => WordIsLexical(s);
  }

  /** The lexer produces lexical tokens only, so writing its output and lexing again
      changes nothing. */
  lemma {:induction false} LexIsLexical(s: string)
    requires Lex(s).Some?
    ensures forall i :: 0 <= i < |Lex(s).value| ==> Lexical(Lex(s).value[i])
    decreases |s|
  {
    if s != [] {
      match Head(s)
      case Space => LexIsLexical(s[1..]);
      case Lexeme(_, n) =>
        HeadIsLexical(s);
        LexIsLexical(s[n..]);
    }
  }

  /** From text to tree: every predicate of the grammar can be written so that lexing and
      parsing return exactly its tree. */
  lemma TextToTree(t: Tree, c: Context)
    requires IsDisj(t, c) && forall i :: 0 <= i < |Yield(t)| ==> Lexical(Yield(t)[i])
    ensures Lex(RenderAll(Yield(t))) == Some(Yield(t))
    ensures ParseOr(Yield(t), 0, c) == Some((t, |Yield(t)|))
  {
    LexRoundTrip(Yield(t));
    ParserExact(Yield(t), c);
  }
}
