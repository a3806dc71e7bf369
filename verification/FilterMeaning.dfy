/** What comparisons and connectives of the content-filter language say, in terms of numbers
    and texts. */
module FilterMeaning {
  import opened Wire
  import opened FilterLanguage
  import opened FilterGrammar

  // ---------------------------------------------------------------------- numbers

  /** The seven operators on real numbers. */
  predicate Relates(x: real, op: string, y: real)
  {
    || (op == "=" && x == y)
    || ((op == "<>" || op == "!=") && x != y)
    || (op == ">" && x > y)
    || (op == ">=" && x >= y)
    || (op == "<" && x < y)
    || (op == "<=" && x <= y)
  }

  lemma NumbersCompare(x: real, y: real, op: string, c: Context)
    ensures Compare(Num(Finite(x)), Num(Finite(y)), op, c) <==> Relates(x, op, y)
  {
  }

  /** An infinity lies beyond every finite number and equals itself. */
  lemma InfinitiesCompare(v: Float, op: string, c: Context)
    requires !v.NaN?
    ensures Compare(Num(NegInf), Num(v), op, c) <==> if v.NegInf? then Relates(0.0, op, 0.0) else Relates(0.0, op, 1.0)
    ensures Compare(Num(PosInf), Num(v), op, c) <==> if v.PosInf? then Relates(0.0, op, 0.0) else Relates(1.0, op, 0.0)
    ensures Compare(Num(v), Num(NegInf), op, c) <==> if v.NegInf? then Relates(0.0, op, 0.0) else Relates(1.0, op, 0.0)
    ensures Compare(Num(v), Num(PosInf), op, c) <==> if v.PosInf? then Relates(0.0, op, 0.0) else Relates(0.0, op, 1.0)
  {
  }

  /** What is not a number differs from everything, itself included, and is in no order. */
  lemma NaNCompares(v: Float, op: string, c: Context)
    ensures Compare(Num(NaN), Num(v), op, c) <==> op == "<>" || op == "!="
    ensures Compare(Num(v), Num(NaN), op, c) <==> op == "<>" || op == "!="
  {
  }

  // ------------------------------------------------------------------------ texts

  /** The texts agree up to `k`, where `a` ends or has the smaller character. */
  predicate DiffersAt(a: string, b: string, k: nat)
  {
    k <= |a| && k < |b| && a[..k] == b[..k] && (k == |a| || a[k] < b[k])
  }

  ghost predicate Before(a: string, b: string)
  {
    exists k: nat :: DiffersAt(a, b, k)
  }

  lemma HeadsAgree(a: string, b: string, k: nat)
    requires 0 < k <= |a| && k <= |b| && a[..k] == b[..k]
    ensures a[0] == b[0]
  {
    assert a[..k][0] == b[..k][0];
  }

  lemma {:induction false} TextLessIsBefore(a: string, b: string)
    ensures TextLess(a, b) <==> Before(a, b)
    decreases |a|
  {
    if a == [] || b == [] || a[0] != b[0] {
      if TextLess(a, b) { assert DiffersAt(a, b, 0); }
      if k: nat :| DiffersAt(a, b, k) {
        if k > 0 { HeadsAgree(a, b, k); }
      }
    } else {
      TextLessIsBefore(a[1..], b[1..]);
      if k: nat :| DiffersAt(a[1..], b[1..], k) {
        assert a[..k + 1] == [a[0]] + a[1..][..k] && b[..k + 1] == [b[0]] + b[1..][..k];
        assert DiffersAt(a, b, k + 1);
      }
      if k: nat :| DiffersAt(a, b, k) {
        assert k > 0;
        assert a[1..][..k - 1] == a[..k][1..] && b[1..][..k - 1] == b[..k][1..];
        assert DiffersAt(a[1..], b[1..], k - 1);
      }
    }
  }

  /** The operators on texts, by their lexicographic order. */
  ghost predicate TextsRelate(a: string, op: string, b: string)
  {
    || (op == "=" && a == b)
    || ((op == "<>" || op == "!=") && a != b)
    || (op == ">" && Before(b, a))
    || (op == ">=" && (a == b || Before(b, a)))
    || (op == "<" && Before(a, b))
    || (op == "<=" && (a == b || Before(a, b)))
  }

  lemma TextsCompare(a: string, b: string, op: string, c: Context)
    ensures Compare(Text(a), Text(b), op, c) <==> TextsRelate(a, op, b)
  {
    TextLessIsBefore(a, b);
    TextLessIsBefore(b, a);
  }

  /** Two texts are equal or one comes before the other, and not both. */
  lemma {:induction false} TextsOrdered(a: string, b: string)
    ensures Before(a, b) || Before(b, a) || a == b
    ensures Before(a, b) ==> !Before(b, a) && a != b
    decreases |a|
  {
    TextLessIsBefore(a, b);
    TextLessIsBefore(b, a);
    if a != [] && b != [] {
      TextsOrdered(a[1..], b[1..]);
      TextLessIsBefore(a[1..], b[1..]);
      TextLessIsBefore(b[1..], a[1..]);
      if a[0] == b[0] && a[1..] == b[1..] { assert a == [a[0]] + a[1..] && b == [b[0]] + b[1..]; }
    }
  }

  /** A number and a text, or anything else, compare to nothing. */
  lemma OthersDoNotCompare(l: Value, r: Value, op: string, c: Context)
    requires !l.Bound? && !r.Bound? && !(l.Num? && r.Num?) && !(l.Text? && r.Text?)
    ensures !Compare(l, r, op, c)
  {
  }

  /** Two values are comparable exactly if they are equal or different. */
  lemma ComparableExact(l: Value, r: Value, c: Context)
    ensures Comparable(l, r, c) <==> Compare(l, r, "=", c) || Compare(l, r, "<>", c)
  {
  }

  /** A parameter compares as its number if its text is one, and as its text otherwise. */
  lemma ParametersCompare(s: string, v: Value, op: string, c: Context)
    ensures var w := if c.parseFloat(s).Some? then Num(c.parseFloat(s).value) else Text(s);
      (Compare(Bound(s), v, op, c) <==> Compare(w, v, op, c)) && (Compare(v, Bound(s), op, c) <==> Compare(v, w, op, c))
  {
  }

  // ------------------------------------------------------------- decimal numerals

  function Pow10(k: nat): nat
  {
    if k == 0 then 1 else 10 * Pow10(k - 1)
  }

  predicate Digits(s: string)
  {
    forall i :: 0 <= i < |s| ==> '0' <= s[i] <= '9'
  }

  function Digit(ch: char): nat
    requires '0' <= ch <= '9'
  {
    ch as int - '0' as int
  }

  /** The number that the digits stand for. */
  function Decimal(s: string): nat
    requires Digits(s)
  {
    if s == [] then 0 else Digit(s[0]) * Pow10(|s| - 1) + Decimal(s[1..])
  }

  lemma {:induction false} DecimalSnoc(s: string)
    requires s != [] && Digits(s)
    ensures Decimal(s) == 10 * Decimal(s[..|s| - 1]) + Digit(s[|s| - 1])
  {
    if |s| > 1 {
      DecimalSnoc(s[1..]);
      var front, d := s[..|s| - 1], Digit(s[0]);
      assert s[1..][..|s| - 2] == front[1..] && front[0] == s[0] && s[1..][|s| - 2] == s[|s| - 1];
      assert Pow10(|s| - 1) == 10 * Pow10(|s| - 2);
      assert d * (10 * Pow10(|s| - 2)) == 10 * (d * Pow10(|s| - 2));
    } else {
      assert s[1..] == [] && s[..0] == [];
      assert Pow10(0) == 1;
    }
  }

  lemma {:induction false} DigitsValueIs(s: string)
    ensures DigitsValue(s) == if Digits(s) then Some(Decimal(s)) else None
  {
    if s != [] {
      var front := s[..|s| - 1];
      DigitsValueIs(front);
      assert Digits(s) <==> Digits(front) && '0' <= s[|s| - 1] <= '9' by {
        assert forall i :: 0 <= i < |front| ==> front[i] == s[i];
      }
      if Digits(s) { DecimalSnoc(s); }
    }
  }

  /** An index is a decimal numeral that fits 63 bits. */
  lemma AtoiExact(s: string)
    ensures Atoi(s).Some? <==> s != [] && Digits(s) && Decimal(s) < 0x8000_0000_0000_0000
    ensures Atoi(s).Some? ==> Atoi(s).value == Decimal(s)
  {
    DigitsValueIs(s);
  }

  // ------------------------------------------------------------------- comparisons

  /** A field against a number, in either order. */
  lemma FieldAgainstNumber(name: string, op: string, numeral: string, c: Context, f: Fields, x: real, y: real)
    requires name in f && f[name] == Num(Finite(x)) && c.parseFloat(numeral) == Some(Finite(y))
    ensures Meaning(Cmp(Ident(name), Op(op), Number(numeral)), c, f) <==> Relates(x, op, y)
    ensures Meaning(Cmp(Number(numeral), Op(op), Ident(name)), c, f) <==> Relates(y, op, x)
  {
    NumbersCompare(x, y, op, c);
    NumbersCompare(y, x, op, c);
  }

  /** A field against a quoted text. */
  lemma FieldAgainstText(name: string, op: string, text: string, c: Context, f: Fields, value: string)
    requires name in f && f[name] == Text(value)
    ensures Meaning(Cmp(Ident(name), Op(op), Quoted(text)), c, f) <==> TextsRelate(value, op, text)
    ensures Meaning(Cmp(Quoted(text), Op(op), Ident(name)), c, f) <==> TextsRelate(text, op, value)
  {
    TextsCompare(value, text, op, c);
    TextsCompare(text, value, op, c);
  }

  /** A field against the parameter that the digits number. */
  lemma FieldAgainstParameter(name: string, op: string, digits: string, c: Context, f: Fields)
    requires digits != [] && Digits(digits) && Decimal(digits) < |c.params| && |c.params| < 0x8000_0000_0000_0000
    requires name in f
    ensures Meaning(Cmp(Ident(name), Op(op), Param(digits)), c, f) <==>
      Compare(f[name], Bound(c.params[Decimal(digits)]), op, c)
  {
    AtoiExact(digits);
  }

  /** A parameter that is not there is an error, and so is a numeral that is none. */
  lemma OperandsExact(t: Token, c: Context)
    requires |c.params| < 0x8000_0000_0000_0000
    ensures OperandOk(t, c) <==>
      || t.Ident? || t.Quoted?
      || (t.Number? && c.parseFloat(t.text).Some?)
      || (t.Param? && t.text != [] && Digits(t.text) && Decimal(t.text) < |c.params|)
  {
    if t.Param? { AtoiExact(t.text); }
  }

  /** A comparison with an absent field is false. */
  lemma AbsentFieldFails(name: string, op: Token, other: Token, c: Context, f: Fields)
    requires name !in f
    ensures !Meaning(Cmp(Ident(name), op, other), c, f) && !Meaning(Cmp(other, op, Ident(name)), c, f)
  {
  }

  // -------------------------------------------------------------------- connectives

  /** Conjunction, disjunction, negation and grouping are those of logic. */
  lemma Connectives(l: Tree, r: Tree, sign: Token, c: Context, f: Fields)
    ensures Meaning(Conj(l, sign, r), c, f) == (Meaning(l, c, f) && Meaning(r, c, f))
    ensures Meaning(Disj(l, sign, r), c, f) == (Meaning(l, c, f) || Meaning(r, c, f))
    ensures Meaning(Negation(sign, l), c, f) != Meaning(l, c, f)
    ensures Meaning(Group(l), c, f) == Meaning(l, c, f)
  {
  }

  predicate WithoutNot(s: seq<Token>)
  {
    forall i :: 0 <= i < |s| ==> !s[i].Not?
  }

  /** The trees of the documented shape without NOT are those whose tokens contain none. */
  lemma {:induction false} NotFreeIs(t: Tree, c: Context)
    requires Derives(t, c, false)
    ensures NotFree(t) <==> WithoutNot(Yield(t))
    ensures NotFree(t) ==> Positive(t, true)
    decreases t
  {
    match t
    case Cmp(l, op, r) =>
    case Negation(sign, body) =>
      assert Yield(t)[0] == sign;
    case Group(body) =>
      NotFreeIs(body, c);
      assert WithoutNot([LParen]) && WithoutNot([RParen]);
      Parts([LParen], Yield(body), [RParen]);
    case Conj(l, sign, r) =>
      NotFreeIs(l, c);
      NotFreeIs(r, c);
      assert WithoutNot([sign]);
      Parts(Yield(l), [sign], Yield(r));
    case Disj(l, sign, r) =>
      NotFreeIs(l, c);
      NotFreeIs(r, c);
      assert WithoutNot([sign]);
      Parts(Yield(l), [sign], Yield(r));
  }

  lemma Parts(a: seq<Token>, b: seq<Token>, c: seq<Token>)
    ensures WithoutNot(a + b + c) <==> WithoutNot(a) && WithoutNot(b) && WithoutNot(c)
  {
    var s := a + b + c;
    assert forall i :: 0 <= i < |a| ==> s[i] == a[i];
    assert forall i :: 0 <= i < |b| ==> s[|a| + i] == b[i];
    assert forall i :: 0 <= i < |c| ==> s[|a| + |b| + i] == c[i];
  }

  /** Two NOTs change nothing of whether a predicate fails closed. */
  lemma DoubleNegation(t: Tree, a: Token, b: Token, even: bool)
    ensures Positive(Negation(a, Negation(b, t)), even) <==> Positive(t, even)
    ensures forall l, op, r :: Positive(Cmp(l, op, r), true)
    ensures forall l, op, r :: Positive(Cmp(l, op, r), false) <==> !l.Ident? && !r.Ident?
  {
  }
}
