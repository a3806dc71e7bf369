/** Which texts the tokenizer of the content-filter language accepts, and as what: its
    characters, its keywords, its literals, its errors, and where tokens need no space. */
module FilterText {
  import opened Wire
  import opened FilterLanguage
  import opened FilterLexer

  // ---------------------------------------------------------------------- characters

  lemma DigitsAre(ch: char)
    ensures IsDigit(ch) <==> ch in "0123456789"
    ensures IsNumberPart(ch) <==> ch in "0123456789."
  {
  }

  lemma LettersAre(ch: char)
    ensures IsIdentStart(ch) <==> ch in "abcdefghijklmnopqrstuvwxyz" || ch in "ABCDEFGHIJKLMNOPQRSTUVWXYZ" || ch == '_'
    ensures IsIdentPart(ch) <==> IsIdentStart(ch) || IsDigit(ch)
  {
  }

  lemma SpacesAre(ch: char)
    ensures IsSpace(ch) <==> ch in " \t\n\r"
  {
  }

  // ------------------------------------------------------------------------ keywords

  /** The text is the keyword, in whatever case. */
  predicate IsKeyword(w: string, lower: string, upper: string)
    requires |lower| == |upper|
  {
    |w| == |lower| && forall i :: 0 <= i < |w| ==> w[i] == lower[i] || w[i] == upper[i]
  }

  lemma {:induction false} UpperAt(w: string)
    ensures |Upper(w)| == |w|
    ensures forall i :: 0 <= i < |w| ==> Upper(w)[i] == if 'a' <= w[i] <= 'z' then (w[i] as int - 32) as char else w[i]
  {
    if w != [] {
      UpperAt(w[1..]);
      assert forall i :: 0 < i < |w| ==> w[i] == w[1..][i - 1];
    }
  }

  lemma UpperIs(w: string, lower: string, upper: string)
    requires |lower| == |upper|
    requires forall i :: 0 <= i < |lower| ==> 'a' <= lower[i] <= 'z' && upper[i] == (lower[i] as int - 32) as char
    ensures Upper(w) == upper <==> IsKeyword(w, lower, upper)
  {
    UpperAt(w);
    if IsKeyword(w, lower, upper) {
      forall i | 0 <= i < |w| ensures Upper(w)[i] == upper[i] { }
    } else if |w| == |lower| {
      var i :| 0 <= i < |w| && w[i] != lower[i] && w[i] != upper[i];
      assert Upper(w)[i] != upper[i];
    }
  }

  /** The three keywords, in whatever case; every other word is a field, and the token keeps
      the word as it was written. */
  lemma WordExact(w: string)
    ensures Word(w) == if IsKeyword(w, "and", "AND") then And(w)
      else if IsKeyword(w, "or", "OR") then Or(w)
      else if IsKeyword(w, "not", "NOT") then Not(w)
      else Ident(w)
  {
    UpperIs(w, "and", "AND");
    UpperIs(w, "or", "OR");
    UpperIs(w, "not", "NOT");
  }

  // ------------------------------------------------------------------------ literals

  /** The text holds nothing but escaped characters. */
  ghost predicate Unclosed(s: string)
  {
    exists x :: s == Escape(x)
  }

  ghost predicate ReadsLiteral(s: string, r: Option<(string, nat)>)
  {
    if r.None? then Unclosed(s)
    else Closes(s, r.value.0, r.value.1)
  }

  predicate Closes(s: string, x: string, n: nat)
  {
    n <= |s| && s[..n] == Escape(x) + "'" && (n == |s| || s[n] != '\'')
  }

  /** After its opening quote a literal is its escaped text and a quote that no other follows;
      it is unterminated exactly if all that follows is escaped text. */
  lemma {:induction false} LiteralExact(s: string)
    ensures ReadsLiteral(s, Literal(s))
    decreases |s|
  {
    if s == [] {
      assert s == Escape("");
    } else if s[0] != '\'' {
      LiteralExact(s[1..]);
      Longer(s, [s[0]], 1, Literal(s[1..]));
    } else if |s| > 1 && s[1] == '\'' {
      LiteralExact(s[2..]);
      assert s[..2] == "''";
      Longer(s, "'", 2, Literal(s[2..]));
    } else {
      assert s[..1] == Escape("") + "'";
    }
  }

  lemma Longer(s: string, first: string, k: nat, r: Option<(string, nat)>)
    requires |first| == 1 && 0 < k <= |s| && s[..k] == Escape(first) && ReadsLiteral(s[k..], r)
    ensures ReadsLiteral(s, Resume(first, k, r))
  {
    if r.None? {
      var x :| s[k..] == Escape(x);
      EscapeFirst(first, x);
      assert s == s[..k] + s[k..];
    } else {
      LongerClosed(s, first, k, r.value.0, r.value.1);
    }
  }

  lemma LongerClosed(s: string, first: string, k: nat, x: string, n: nat)
    requires |first| == 1 && 0 < k <= |s| && s[..k] == Escape(first) && Closes(s[k..], x, n)
    ensures Closes(s, first + x, k + n)
  {
    EscapeFirst(first, x);
    SliceInTwo(s, k, n);
    assert Escape(first) + (Escape(x) + "'") == Escape(first + x) + "'";
  }

  lemma SliceInTwo(s: string, k: nat, n: nat)
    requires k <= |s| && n <= |s[k..]|
    ensures s[..k + n] == s[..k] + s[k..][..n]
    ensures n < |s[k..]| ==> s[k + n] == s[k..][n]
  {
  }

  /** Escaped text alone closes no literal. */
  lemma {:induction false} EscapedStaysOpen(x: string)
    ensures Literal(Escape(x)) == None
  {
    if x != [] {
      EscapedStaysOpen(x[1..]);
      var s, rest := Escape(x), Escape(x[1..]);
      if x[0] == '\'' { assert s[2..] == rest && s[0] == s[1] == '\''; } else { assert s[1..] == rest && s[0] == x[0]; }
    }
  }

  lemma EscapeFirst(first: string, x: string)
    requires |first| == 1
    ensures Escape(first + x) == Escape(first) + Escape(x)
  {
    assert (first + x)[1..] == x && (first + x)[0] == first[0];
    assert first[1..] == [];
    assert Escape(first) == if first[0] == '\'' then "''" else [first[0]];
  }

  // -------------------------------------------------------------------------- errors

  /** What the scanner refuses: a quote that is not closed, a percent sign without a digit, an
      exclamation mark without an equals sign, a sign without a digit, and any character that
      begins nothing. */
  ghost predicate Refused(s: string)
    requires s != []
  {
    || (s[0] == '\'' && Unclosed(s[1..]))
    || (s[0] == '%' && !(|s| > 1 && IsDigit(s[1])))
    || (s[0] == '!' && !(|s| > 1 && s[1] == '='))
    || (s[0] in "+-" && !(|s| > 1 && IsDigit(s[1])))
    || (s[0] !in "()'%!<>=+-" && !IsSpace(s[0]) && !IsDigit(s[0]) && !IsIdentStart(s[0]))
  }

  lemma HeadBadExact(s: string)
    requires s != []
    ensures Head(s).Bad? <==> Refused(s)
  {
    if s[0] == '\'' {
      QuoteRefused(s);
    } else {
      OperatorExact(s);
      if |s| > 1 { assert s[1..][0] == s[1]; }
    }
  }

  lemma QuoteRefused(s: string)
    requires s != [] && s[0] == '\''
    ensures Head(s).Bad? <==> Unclosed(s[1..])
  {
    LiteralExact(s[1..]);
    if x :| s[1..] == Escape(x) { EscapedStaysOpen(x); }
  }

  /** Two characters make an operator before one does. */
  lemma OperatorExact(s: string)
    requires s != []
    ensures Operator(s) ==
      if |s| > 1 && s[0] == '!' && s[1] == '=' then "!="
      else if |s| > 1 && s[0] == '<' && s[1] == '>' then "<>"
      else if |s| > 1 && s[0] == '<' && s[1] == '=' then "<="
      else if |s| > 1 && s[0] == '>' && s[1] == '=' then ">="
      else if s[0] in "<>=" then s[..1] else ""
  {
    if |s| > 1 { assert s[..2] == [s[0], s[1]]; }
    assert s[..1] == [s[0]];
  }

  // ------------------------------------------------------------------- without spaces

  /** Tokens with the given gaps before, between and behind them. */
  function Spaced(toks: seq<Token>, gaps: seq<string>): string
    requires |gaps| == |toks| + 1
  {
    if toks == [] then gaps[0] else gaps[0] + (Render(toks[0]) + Spaced(toks[1..], gaps[1..]))
  }

  /** Each token stands apart from what follows it: a gap, the end, or a character that cannot
      continue it. */
  predicate Apart(toks: seq<Token>, gaps: seq<string>)
    requires |gaps| == |toks| + 1
  {
    toks == [] || (Separate(toks[0], Spaced(toks[1..], gaps[1..])) && Apart(toks[1..], gaps[1..]))
  }

  predicate Blank(gap: string)
  {
    All(gap, IsSpace)
  }

  lemma {:induction false} SkipBlank(gap: string, rest: string)
    requires Blank(gap)
    ensures Lex(gap + rest) == Lex(rest)
  {
    if gap == [] {
      assert gap + rest == rest;
    } else {
      assert (gap + rest)[1..] == gap[1..] + rest && (gap + rest)[0] == gap[0];
      SkipBlank(gap[1..], rest);
    }
  }

  /** Tokens that stand apart are read back, whatever white space there is between them. */
  lemma {:induction false} LexSpaced(toks: seq<Token>, gaps: seq<string>)
    requires |gaps| == |toks| + 1 && Apart(toks, gaps) && forall i :: 0 <= i < |gaps| ==> Blank(gaps[i])
    requires forall i :: 0 <= i < |toks| ==> Lexical(toks[i])
    ensures Lex(Spaced(toks, gaps)) == Some(toks)
    decreases |toks|
  {
    if toks == [] {
      SkipBlank(gaps[0], "");
      assert gaps[0] + "" == gaps[0];
    } else {
      var t, rest := toks[0], Spaced(toks[1..], gaps[1..]);
      LexSpaced(toks[1..], gaps[1..]);
      SkipBlank(gaps[0], Render(t) + rest);
      RenderedIsSome(t);
      HeadOfRendered(t, rest);
      LexAfter(t, rest);
      assert [t] + toks[1..] == toks;
    }
  }

  /** A gap always suffices. */
  lemma GapSeparates(t: Token, ch: char)
    requires IsSpace(ch)
    ensures !Extends(t, ch)
  {
  }
}
