/** What conditions come to, in numbers: the operators, the predefined names and `defined`, on
    texts as they are written. */
module ConditionValues {
  import opened Wrappers
  import opened Text
  import opened Words
  import opened Numerals
  import opened Condition
  import opened ConditionGrammar
  import opened ConditionSpelling

  // ----- Texts and their tokens -----

  /** That a text is written as one token. */
  ghost predicate IsWritten(text: string, t: Token) {
    match t
    case Number(v) => exists n :: NumeralOk(n) && NumeralText(n) == text && n.number == v <= I128_MAX
    case Ident(name) => text == name && IsIdentifier(name)
    case Symbol(op) => text == Spelling(op)
  }

  ghost predicate AreWritten(texts: seq<string>, ts: seq<Token>) {
    |texts| == |ts| && forall k :: 0 <= k < |ts| ==> IsWritten(texts[k], ts[k])
  }

  /** Texts with a space between two. */
  function Spaced(texts: seq<string>): string {
    if texts == [] then "" else if |texts| == 1 then texts[0] else texts[0] + (" " + Spaced(texts[1..]))
  }

  /** What follows a token: nothing, or a space and more. */
  predicate Tail(s: string) { s == "" || s[0] == ' ' }

  lemma WrittenWord(text: string, t: Token)
    requires IsWritten(text, t)
    ensures text != "" && !IsSpace(text[0])
    ensures !t.Symbol? ==> forall c :: c in text ==> IsWordChar(c)
    ensures t.Number? ==> IsDigit(text[0]) && Integer(text) == Ok(t.value)
  {
    match t
    case Number(v) =>
      var n :| NumeralOk(n) && NumeralText(n) == text && n.number == v <= I128_MAX;
      NumeralIsWord(n);
      IntegerWritten(n);
    case Ident(name) => assert name[0] in name;
    case Symbol(op) =>
  }

  lemma OperatorWritten(op: Op, tail: string)
    requires Tail(tail)
    ensures FirstOperator(Spelling(op) + tail) == Some(op)
    ensures OperatorLength(op) == |Spelling(op)| && !IsWordChar(Spelling(op)[0])
  {
    var rest := Spelling(op) + tail;
    assert rest[0] == Spelling(op)[0];
    assert |Spelling(op)| == 2 ==> rest[1] == Spelling(op)[1];
    assert |Spelling(op)| == 1 && tail != "" ==> rest[1] == ' ';
  }

  /** The first token of a text that starts with one. */
  lemma FirstRead(text: string, t: Token, tail: string)
    requires IsWritten(text, t) && Tail(tail)
    ensures TrimStart(text + tail) == text + tail != ""
    ensures FirstToken(text + tail) == Ok((t, |text|))
  {
    hide IsWritten, Integer, FirstOperator, OperatorLength, IsSpace, IsWordChar;
    WrittenWord(text, t);
    var rest := text + tail;
    assert rest[0] == text[0];
    if t.Symbol? {
      assert text == Spelling(t.op) by { SymbolIs(text, t.op); }
      OperatorWritten(t.op, tail);
    } else {
      assert !IsWordChar(' ') by { SpaceNoWord(); }
      WordEnds(text, tail);
      assert rest[..|text|] == text;
      assert text[0] in text;
      if t.Ident? { NoNumber(text, t.name); }
    }
  }

  lemma SpaceNoWord()
    ensures !IsWordChar(' ')
  {
  }

  lemma SymbolIs(text: string, op: Op)
    requires IsWritten(text, Symbol(op))
    ensures text == Spelling(op)
  {
  }

  lemma NoNumber(text: string, name: string)
    requires IsWritten(text, Ident(name))
    ensures text == name && !IsDigit(text[0])
  {
  }

  /** Spaced texts are read token by token. */
  lemma {:induction false} SpacedRead(texts: seq<string>, ts: seq<Token>)
    requires AreWritten(texts, ts)
    ensures Tokens(Spaced(texts)) == Ok(ts)
    ensures Tokens(" " + Spaced(texts)) == Ok(ts)
    decreases |ts|
  {
    hide Tokens, FirstToken, After, IsWritten, TrimStart;
    NoTokens();
    if ts == [] {
      assert " " + "" == " ";
    } else {
      var tail := if |ts| == 1 then "" else " " + Spaced(texts[1..]);
      assert Spaced(texts) == texts[0] + tail by { if |ts| == 1 { assert texts[0] + "" == texts[0]; } }
      FirstRead(texts[0], ts[0], tail);
      SpacedRead(texts[1..], ts[1..]);
      SpaceSkippedBefore(texts[0] + tail);
      TokensStep(Spaced(texts), ts[0], |texts[0]|);
      TokensStep(" " + Spaced(texts), ts[0], |texts[0]|);
      assert Spaced(texts)[|texts[0]|..] == tail;
      FirstAndRest(ts);
    }
  }

  lemma SpaceSkippedBefore(s: string)
    ensures TrimStart(" " + s) == TrimStart(s)
  {
    assert (" " + s)[1..] == s;
    hide IsSpace;
    var t := " " + s;
    assert IsSpace(' ') by { SpaceIs(); }
    var k := SkipSpaces(s);
    assert forall j :: 1 <= j < |t| ==> t[j] == s[j - 1];
    assert SkipSpaces(t) == k + 1;
  }

  /** A spaced text that spells a tree comes to what the tree means. */
  lemma SpacedMeans(texts: seq<string>, t: OrTree, macros: Macros)
    requires OrOk(t) && AreWritten(texts, OrSpelled(t))
    ensures Evaluate(Spaced(texts), macros, []) == OrMeans(t, macros, [])
  {
    hide Evaluate, OrMeans, OrOk, OrSpelled;
    SpacedRead(texts, OrSpelled(t));
    TreeEvaluates(Spaced(texts), t, macros, []);
  }

  // ----- What the operators come to -----

  /** In all trees: a comparison, a conjunction, a disjunction and a negation are 1 or 0. */
  lemma OperatorsMean(l: UnaryTree, r: UnaryTree, macros: Macros, expanding: seq<string>, x: int, y: int)
    requires Expanding(expanding, macros)
    requires UnaryMeans(l, macros, expanding) == Ok(x) && UnaryMeans(r, macros, expanding) == Ok(y)
    ensures CompareMeans(Comparison(l, Ge, r), macros, expanding) == Ok(if x >= y then 1 else 0)
    ensures CompareMeans(Comparison(l, Le, r), macros, expanding) == Ok(if x <= y then 1 else 0)
    ensures CompareMeans(Comparison(l, EqEq, r), macros, expanding) == Ok(if x == y then 1 else 0)
    ensures CompareMeans(Comparison(l, Ne, r), macros, expanding) == Ok(if x != y then 1 else 0)
    ensures CompareMeans(Comparison(l, Gt, r), macros, expanding) == Ok(if x > y then 1 else 0)
    ensures CompareMeans(Comparison(l, Lt, r), macros, expanding) == Ok(if x < y then 1 else 0)
    ensures UnaryMeans(Negation(l), macros, expanding) == Ok(if x == 0 then 1 else 0)
    ensures AndMeans(AndMore(AndOne(Plain(l)), Plain(r)), macros, expanding) == Ok(if x != 0 && y != 0 then 1 else 0)
    ensures OrMeans(OrMore(OrOne(AndOne(Plain(l))), AndOne(Plain(r))), macros, expanding)
         == Ok(if x == 0 && y == 0 then 0 else 1)
  {
    hide UnaryMeans;
    assert UnaryMeans(Negation(l), macros, expanding) == Ok(Truth(x == 0)) by { NegationMeans(l, macros, expanding); }
    assert CompareMeans(Plain(l), macros, expanding) == Ok(x) && CompareMeans(Plain(r), macros, expanding) == Ok(y);
    assert AndMeans(AndOne(Plain(l)), macros, expanding) == Ok(x) && AndMeans(AndOne(Plain(r)), macros, expanding) == Ok(y);
  }

  lemma NegationMeans(l: UnaryTree, macros: Macros, expanding: seq<string>)
    requires Expanding(expanding, macros) && UnaryMeans(l, macros, expanding).Ok?
    ensures UnaryMeans(Negation(l), macros, expanding) == Ok(Truth(UnaryMeans(l, macros, expanding).value == 0))
  {
  }

  function Whole(c: CompareTree): OrTree { OrOne(AndOne(c)) }

  predicate Fits(n: Numeral) { NumeralOk(n) && n.number <= I128_MAX }

  lemma NumberWritten(n: Numeral)
    requires Fits(n)
    ensures IsWritten(NumeralText(n), Number(n.number))
  {
  }

  lemma WholeMeans(c: CompareTree, macros: Macros, expanding: seq<string> := [])
    requires CompareOk(c) && Expanding(expanding, macros)
    ensures OrOk(Whole(c)) && OrSpelled(Whole(c)) == CompareSpelled(c)
    ensures OrMeans(Whole(c), macros, expanding) == CompareMeans(c, macros, expanding)
  {
    hide CompareOk, CompareMeans, CompareSpelled;
    var a := AndOne(c);
    assert AndOk(a) && AndSpelled(a) == CompareSpelled(c) && AndMeans(a, macros, expanding) == CompareMeans(c, macros, expanding);
  }

  /** Two operands and an operator between them. */
  lemma ComparisonRead(x: string, l: UnaryTree, s: Token, op: Op, y: string, r: UnaryTree, t: Token, macros: Macros)
    requires UnaryOk(l) && UnaryOk(r) && UnarySpelled(l) == [s] && UnarySpelled(r) == [t] && IsComparison(op)
    requires IsWritten(x, s) && IsWritten(y, t)
    ensures Evaluate(x + " " + Spelling(op) + " " + y, macros, []) == CompareMeans(Comparison(l, op, r), macros, [])
  {
    hide Evaluate, UnaryOk, UnarySpelled, UnaryMeans, IsWritten, OrMeans, OrOk, OrSpelled, IsComparison;
    var c := Comparison(l, op, r);
    WholeMeans(c, macros);
    assert CompareSpelled(c) == [s, Symbol(op), t];
    var texts := [x, Spelling(op), y];
    SpacedThree(x, Spelling(op), y);
    OperatorIsWritten(op);
    SpacedMeans(texts, Whole(c), macros);
  }

  lemma OperatorIsWritten(op: Op)
    ensures IsWritten(Spelling(op), Symbol(op))
  {
  }

  lemma SpacedThree(a: string, b: string, c: string)
    ensures Spaced([a, b, c]) == a + " " + b + " " + c
  {
    assert [a, b, c][1..] == [b, c] && [b, c][1..] == [c];
    assert Spaced([c]) == c && Spaced([b, c]) == b + (" " + c);
    assert Spaced([a, b, c]) == a + (" " + (b + (" " + c)));
  }

  /** Two numbers are compared as the operator between them says. */
  lemma NumbersCompared(m: Numeral, n: Numeral, macros: Macros)
    requires Fits(m) && Fits(n)
    ensures var (x, y) := (NumeralText(m), NumeralText(n)); var (a, b) := (m.number, n.number);
            && Evaluate(x + " " + ">=" + " " + y, macros, []) == Ok(if a >= b then 1 else 0)
            && Evaluate(x + " " + "<=" + " " + y, macros, []) == Ok(if a <= b then 1 else 0)
            && Evaluate(x + " " + "==" + " " + y, macros, []) == Ok(if a == b then 1 else 0)
            && Evaluate(x + " " + "!=" + " " + y, macros, []) == Ok(if a != b then 1 else 0)
            && Evaluate(x + " " + ">" + " " + y, macros, []) == Ok(if a > b then 1 else 0)
            && Evaluate(x + " " + "<" + " " + y, macros, []) == Ok(if a < b then 1 else 0)
  {
    hide Evaluate, CompareMeans, NumeralText, NumeralOk;
    Operands(m, n, macros);
    var (x, y) := (NumeralText(m), NumeralText(n));
    var (l, r) := (Constant(m.number), Constant(n.number));
    OperatorsMean(l, r, macros, [], m.number, n.number);
    ComparisonRead(x, l, Number(m.number), Ge, y, r, Number(n.number), macros);
    ComparisonRead(x, l, Number(m.number), Le, y, r, Number(n.number), macros);
    ComparisonRead(x, l, Number(m.number), EqEq, y, r, Number(n.number), macros);
    ComparisonRead(x, l, Number(m.number), Ne, y, r, Number(n.number), macros);
    ComparisonRead(x, l, Number(m.number), Gt, y, r, Number(n.number), macros);
    ComparisonRead(x, l, Number(m.number), Lt, y, r, Number(n.number), macros);
  }

  lemma Operands(m: Numeral, n: Numeral, macros: Macros)
    requires Fits(m) && Fits(n)
    ensures IsWritten(NumeralText(m), Number(m.number)) && IsWritten(NumeralText(n), Number(n.number))
    ensures UnaryMeans(Constant(m.number), macros, []) == Ok(m.number) && UnaryMeans(Constant(n.number), macros, []) == Ok(n.number)
    ensures UnaryOk(Constant(m.number)) && UnaryOk(Constant(n.number))
    ensures UnarySpelled(Constant(m.number)) == [Number(m.number)] && UnarySpelled(Constant(n.number)) == [Number(n.number)]
  {
    NumberWritten(m);
    NumberWritten(n);
  }

  /** `!`, `&&` and `||` of numbers are 1 or 0. */
  lemma NumbersCombined(m: Numeral, n: Numeral, macros: Macros)
    requires Fits(m) && Fits(n)
    ensures var (x, y) := (NumeralText(m), NumeralText(n)); var (a, b) := (m.number, n.number);
            && Evaluate("!" + " " + x, macros, []) == Ok(if a == 0 then 1 else 0)
            && Evaluate(x + " " + "&&" + " " + y, macros, []) == Ok(if a != 0 && b != 0 then 1 else 0)
            && Evaluate(x + " " + "||" + " " + y, macros, []) == Ok(if a == 0 && b == 0 then 0 else 1)
  {
    hide Evaluate, CompareMeans, AndMeans, OrMeans, UnaryMeans, NumeralText, NumeralOk, IsWritten;
    Operands(m, n, macros);
    var (x, y) := (NumeralText(m), NumeralText(n));
    var (l, r) := (Constant(m.number), Constant(n.number));
    OperatorsMean(l, r, macros, [], m.number, n.number);
    NegationRead(x, l, Number(m.number), macros);
    JunctionsRead(x, l, Number(m.number), y, r, Number(n.number), macros);
  }

  lemma NegationRead(x: string, u: UnaryTree, s: Token, macros: Macros)
    requires UnaryOk(u) && UnarySpelled(u) == [s] && IsWritten(x, s)
    ensures Evaluate("!" + " " + x, macros, []) == UnaryMeans(Negation(u), macros, [])
  {
    hide Evaluate, UnaryMeans, IsWritten, OrMeans, OrOk, OrSpelled;
    var c := Plain(Negation(u));
    assert UnaryOk(Negation(u)) && UnarySpelled(Negation(u)) == [Symbol(Not), s];
    WholeMeans(c, macros);
    OperatorIsWritten(Not);
    assert Spaced(["!", x]) == "!" + " " + x by {
      assert ["!", x][1..] == [x] && Spaced([x]) == x;
      assert "!" + (" " + x) == "!" + " " + x;
    }
    SpacedMeans(["!", x], Whole(c), macros);
  }

  lemma JunctionsRead(x: string, l: UnaryTree, s: Token, y: string, r: UnaryTree, t: Token, macros: Macros)
    requires UnaryOk(l) && UnaryOk(r) && UnarySpelled(l) == [s] && UnarySpelled(r) == [t] && IsWritten(x, s) && IsWritten(y, t)
    ensures Evaluate(x + " " + "&&" + " " + y, macros, []) == AndMeans(AndMore(AndOne(Plain(l)), Plain(r)), macros, [])
    ensures Evaluate(x + " " + "||" + " " + y, macros, [])
         == OrMeans(OrMore(OrOne(AndOne(Plain(l))), AndOne(Plain(r))), macros, [])
  {
    hide Evaluate, UnaryMeans, UnaryOk, UnarySpelled, IsWritten, CompareMeans, Spaced;
    OperatorIsWritten(AndAnd);
    OperatorIsWritten(OrOr);
    SpacedThree(x, "&&", y);
    SpacedThree(x, "||", y);
    JunctionsOk(l, s, r, t, macros);
    SpacedMeans([x, "&&", y], OrOne(AndMore(AndOne(Plain(l)), Plain(r))), macros);
    SpacedMeans([x, "||", y], OrMore(OrOne(AndOne(Plain(l))), AndOne(Plain(r))), macros);
  }

  lemma JunctionsOk(l: UnaryTree, s: Token, r: UnaryTree, t: Token, macros: Macros)
    requires UnaryOk(l) && UnaryOk(r) && UnarySpelled(l) == [s] && UnarySpelled(r) == [t]
    ensures var both, either := OrOne(AndMore(AndOne(Plain(l)), Plain(r))), OrMore(OrOne(AndOne(Plain(l))), AndOne(Plain(r)));
            && OrOk(both) && OrSpelled(both) == [s, Symbol(AndAnd), t]
            && OrOk(either) && OrSpelled(either) == [s, Symbol(OrOr), t]
            && OrMeans(both, macros, []) == AndMeans(AndMore(AndOne(Plain(l)), Plain(r)), macros, [])
  {
    hide UnaryMeans, UnaryOk, UnarySpelled;
    var first, second := AndOne(Plain(l)), AndOne(Plain(r));
    assert CompareSpelled(Plain(l)) == [s] && CompareSpelled(Plain(r)) == [t] && CompareOk(Plain(l)) && CompareOk(Plain(r));
    assert AndSpelled(first) == [s] && AndSpelled(second) == [t] && AndOk(first) && AndOk(second);
    assert AndSpelled(AndMore(first, Plain(r))) == [s, Symbol(AndAnd), t];
    assert OrSpelled(OrOne(first)) == [s] && OrOk(OrOne(first));
  }

  // ----- Names -----

  /** The version of C, and the other predefined names. */
  lemma VersionCompared(n: Numeral, macros: Macros)
    requires Fits(n)
    ensures Evaluate("__STDC_VERSION__" + " " + ">=" + " " + NumeralText(n), macros, [])
         == Ok(if 201710 >= n.number then 1 else 0)
    ensures Evaluate("__STDC_VERSION__", macros, []) == Ok(201710)
    ensures Evaluate("__STDC__", macros, []) == Evaluate("__STDC_HOSTED__", macros, []) == Ok(1)
  {
    hide Evaluate, NumeralText, NumeralOk, CompareMeans;
    Operands(n, n, macros);
    PredefinedNames(macros);
    var version := "__STDC_VERSION__";
    NameReads(version, macros, []);
    NameReads("__STDC__", macros, []);
    NameReads("__STDC_HOSTED__", macros, []);
    OperatorsMean(Name(version), Constant(n.number), macros, [], 201710, n.number);
    ComparisonRead(version, Name(version), Ident(version), Ge, NumeralText(n), Constant(n.number), Number(n.number), macros);
  }

  lemma PredefinedNames(macros: Macros)
    ensures IsIdentifier("__STDC_VERSION__") && IsIdentifier("__STDC__") && IsIdentifier("__STDC_HOSTED__")
    ensures NameValue("__STDC_VERSION__", macros, []) == Ok(201710)
    ensures NameValue("__STDC__", macros, []) == NameValue("__STDC_HOSTED__", macros, []) == Ok(1)
  {
    hide Evaluate;
  }

  /** `defined` of a name is 1 if the name is predefined or a macro, and 0 otherwise; without
      parentheses and with them. */
  lemma DefinedMeans(name: string, macros: Macros)
    requires IsIdentifier(name)
    ensures var value := if name in macros || name in {"__STDC__", "__STDC_HOSTED__", "__STDC_VERSION__"} then 1 else 0;
            && Evaluate("defined" + " " + name, macros, []) == Ok(value)
            && Evaluate("defined" + " " + "(" + " " + name + " " + ")", macros, []) == Ok(value)
  {
    hide Evaluate, IsIdentifier, OrMeans, OrOk, OrSpelled;
    DefinedSpelled(name, macros);
    OperatorIsWritten(Open);
    OperatorIsWritten(Close);
    SpacedTwo("defined", name);
    SpacedFour("defined", "(", name, ")");
    SpacedMeans(["defined", name], Whole(Plain(Defined(name, false))), macros);
    SpacedMeans(["defined", "(", name, ")"], Whole(Plain(Defined(name, true))), macros);
  }

  lemma DefinedSpelled(name: string, macros: Macros)
    requires IsIdentifier(name)
    ensures IsWritten("defined", Ident("defined")) && IsWritten(name, Ident(name))
    ensures var plain, parenthesized := Whole(Plain(Defined(name, false))), Whole(Plain(Defined(name, true)));
            var value := if name in macros || name in {"__STDC__", "__STDC_HOSTED__", "__STDC_VERSION__"} then 1 else 0;
            && OrOk(plain) && OrSpelled(plain) == [Ident("defined"), Ident(name)]
            && OrOk(parenthesized) && OrSpelled(parenthesized) == [Ident("defined"), Symbol(Open), Ident(name), Symbol(Close)]
            && OrMeans(plain, macros, []) == OrMeans(parenthesized, macros, []) == Ok(value)
  {
    var p, q := Plain(Defined(name, false)), Plain(Defined(name, true));
    assert CompareOk(p) && CompareOk(q);
    WholeMeans(p, macros);
    WholeMeans(q, macros);
  }

  lemma SpacedTwo(a: string, b: string)
    ensures Spaced([a, b]) == a + " " + b
  {
    assert [a, b][1..] == [b] && Spaced([b]) == b;
    assert Spaced([a, b]) == a + (" " + b);
  }

  lemma SpacedFour(a: string, b: string, c: string, d: string)
    ensures Spaced([a, b, c, d]) == a + " " + b + " " + c + " " + d
  {
    SpacedThree(b, c, d);
    assert [a, b, c, d][1..] == [b, c, d];
    assert Spaced([a, b, c, d]) == a + (" " + Spaced([b, c, d]));
  }

  /** A name that is no macro comes to 0, and an object-like macro to its number. */
  lemma NameMeans(name: string, n: Numeral, macros: Macros)
    requires IsIdentifier(name) && name !in {"defined", "__STDC__", "__STDC_HOSTED__", "__STDC_VERSION__"}
    requires Fits(n)
    ensures name !in macros ==> Evaluate(name, macros, []) == Ok(0)
    ensures name in macros && macros[name] == ObjectLike(NumeralText(n)) ==> Evaluate(name, macros, []) == Ok(n.number)
    ensures name in macros && macros[name] == FunctionLike ==> Evaluate(name, macros, []) == Err(FunctionLikeMacro(name))
  {
    hide Evaluate, NumeralText, NumeralOk;
    NameReads(name, macros, []);
    if name in macros && macros[name].ObjectLike? {
      NestingBound([], macros);
      assert [] + [name] == [name];
      NumberRead(n, macros, [name]);
    }
  }

  lemma NumberRead(n: Numeral, macros: Macros, expanding: seq<string>)
    requires Fits(n) && Expanding(expanding, macros)
    ensures Evaluate(NumeralText(n), macros, expanding) == Ok(n.number)
  {
    hide Evaluate, NumeralText, NumeralOk, Tokens;
    NumberWritten(n);
    var u := Constant(n.number);
    ConstantMeans(u, macros, expanding);
    SpacedRead([NumeralText(n)], [Number(n.number)]);
    WholeMeans(Plain(u), macros, expanding);
    TreeEvaluates(NumeralText(n), Whole(Plain(u)), macros, expanding);
  }

  lemma ConstantMeans(u: UnaryTree, macros: Macros, expanding: seq<string>)
    requires u.Constant? && Expanding(expanding, macros)
    ensures CompareOk(Plain(u)) && CompareSpelled(Plain(u)) == [Number(u.value)]
    ensures CompareMeans(Plain(u), macros, expanding) == Ok(u.value)
  {
  }

  // ----- What is refused -----

  lemma UnaryOfNumber(tokens: seq<Token>, at: nat, macros: Macros, v: int)
    requires at < |tokens| && tokens[at] == Number(v)
    ensures Unary(Env(tokens, macros, []), at) == Value(v, at + 1)
  {
  }

  /** A number that no operator follows is the whole of every level of the reader. */
  lemma NumberAlone(tokens: seq<Token>, at: nat, macros: Macros, v: int)
    requires at < |tokens| && tokens[at] == Number(v) && (at + 1 < |tokens| ==> !tokens[at + 1].Symbol?)
    ensures Or(Env(tokens, macros, []), at) == Value(v, at + 1)
  {
    hide Unary;
    var env := Env(tokens, macros, []);
    UnaryOfNumber(tokens, at, macros, v);
    assert Compare(env, at) == Value(v, at + 1);
    assert AndTail(env, v, at + 1) == Value(v, at + 1) && OrTail(env, v, at + 1) == Value(v, at + 1);
  }

  lemma FailsAt(tokens: seq<Token>, macros: Macros, e: Error)
    requires Unary(Env(tokens, macros, []), 0) == Fail(e)
    ensures Or(Env(tokens, macros, []), 0) == Fail(e)
  {
    hide Unary;
    var env := Env(tokens, macros, []);
    assert Compare(env, 0) == Fail(e);
    assert And(env, 0) == Fail(e);
  }

  lemma EvaluateStep(text: string, tokens: seq<Token>, macros: Macros)
    requires Tokens(text) == Ok(tokens)
    ensures Evaluate(text, macros, [])
         == if tokens == [] then Err(EmptyCondition)
            else match Or(Env(tokens, macros, []), 0)
              case Fail(e) => Err(e)
              case Value(v, at) => if at == |tokens| then Ok(v) else Err(NotOneExpression)
  {
    hide Tokens, And, OrTail;
  }

  /** White space is no condition. */
  lemma EmptyRefused(text: string, macros: Macros)
    requires White(text)
    ensures Evaluate(text, macros, []) == Err(EmptyCondition)
  {
    assert text[0..|text|] == text;
    SkipIs(text, 0, |text|);
    assert TrimStart(text) == "";
    assert Tokens(text) == Ok([]);
    EvaluateStep(text, [], macros);
  }

  /** Two numbers are not one expression, and a number behind a parenthesis leaves it unclosed. */
  lemma NumbersRefused(m: Numeral, n: Numeral, macros: Macros)
    requires Fits(m) && Fits(n)
    ensures Evaluate(NumeralText(m) + " " + NumeralText(n), macros, []) == Err(NotOneExpression)
    ensures Evaluate("(" + " " + NumeralText(m), macros, []) == Err(Unclosed)
  {
    hide Evaluate, Tokens, Or, Unary, NumeralText, NumeralOk;
    NumberWritten(m);
    NumberWritten(n);
    OperatorIsWritten(Open);
    SpacedTwo(NumeralText(m), NumeralText(n));
    SpacedTwo("(", NumeralText(m));
    var two, open := [Number(m.number), Number(n.number)], [Symbol(Open), Number(m.number)];
    SpacedRead([NumeralText(m), NumeralText(n)], two);
    SpacedRead(["(", NumeralText(m)], open);
    NumberAlone(two, 0, macros, m.number);
    NumberAlone(open, 1, macros, m.number);
    OpenFails(open, macros, m.number);
    FailsAt(open, macros, Unclosed);
    EvaluateStep(NumeralText(m) + " " + NumeralText(n), two, macros);
    EvaluateStep("(" + " " + NumeralText(m), open, macros);
  }

  lemma OpenFails(tokens: seq<Token>, macros: Macros, v: int)
    requires |tokens| == 2 && tokens[0] == Symbol(Open) && Or(Env(tokens, macros, []), 1) == Value(v, 2)
    ensures Unary(Env(tokens, macros, []), 0) == Fail(Unclosed)
  {
    hide Or, Evaluate;
  }

  /** `defined` asks for a name, and for the parenthesis that closes one. */
  lemma DefinedRefused(name: string, macros: Macros)
    requires IsIdentifier(name)
    ensures Evaluate("defined", macros, []) == Err(NoMacroName)
    ensures Evaluate("defined" + " " + "(" + " " + name, macros, []) == Err(UnclosedDefined)
  {
    hide Evaluate, Tokens, Or, Unary, IsIdentifier;
    DefinedSpelled(name, macros);
    OperatorIsWritten(Open);
    SpacedThree("defined", "(", name);
    var one, three := [Ident("defined")], [Ident("defined"), Symbol(Open), Ident(name)];
    assert Spaced(["defined"]) == "defined";
    SpacedRead(["defined"], one);
    SpacedRead(["defined", "(", name], three);
    DefinedFails(one, macros);
    DefinedFails(three, macros);
    FailsAt(one, macros, NoMacroName);
    FailsAt(three, macros, UnclosedDefined);
    EvaluateStep("defined", one, macros);
    EvaluateStep("defined" + " " + "(" + " " + name, three, macros);
  }

  lemma DefinedFails(tokens: seq<Token>, macros: Macros)
    requires tokens != [] && tokens[0] == Ident("defined")
    ensures |tokens| == 1 ==> Unary(Env(tokens, macros, []), 0) == Fail(NoMacroName)
    ensures |tokens| == 3 && tokens[1] == Symbol(Open) && tokens[2].Ident? ==> Unary(Env(tokens, macros, []), 0) == Fail(UnclosedDefined)
  {
    hide Or, Evaluate;
  }

  /** An operator other than `!` and `(` starts no expression. */
  lemma OperandMissing(op: Op, macros: Macros)
    requires op != Not && op != Open
    ensures Evaluate(Spelling(op), macros, []) == Err(MissingOperand)
  {
    hide Evaluate, Tokens, Or, Unary;
    OperatorIsWritten(op);
    assert Spaced([Spelling(op)]) == Spelling(op);
    SpacedRead([Spelling(op)], [Symbol(op)]);
    OperandFails([Symbol(op)], macros);
    FailsAt([Symbol(op)], macros, MissingOperand);
    EvaluateStep(Spelling(op), [Symbol(op)], macros);
  }

  lemma OperandFails(tokens: seq<Token>, macros: Macros)
    requires |tokens| == 1 && tokens[0].Symbol? && tokens[0].op != Not && tokens[0].op != Open
    ensures Unary(Env(tokens, macros, []), 0) == Fail(MissingOperand)
  {
    hide Or, Evaluate;
  }

  /** A character that starts no token is refused. */
  lemma CharacterRefused(c: char, more: string, macros: Macros)
    requires !IsSpace(c) && !IsWordChar(c) && c !in {'|', '&', '>', '<', '=', '!', '(', ')'}
    ensures Evaluate([c] + more, macros, []) == Err(UnknownOperator(c))
  {
    hide Tokens, FirstToken, TrimStart;
    var text := [c] + more;
    CharacterFirst(c, more);
    TokensFail(text, UnknownOperator(c));
  }

  lemma CharacterFirst(c: char, more: string)
    requires !IsSpace(c) && !IsWordChar(c) && c !in {'|', '&', '>', '<', '=', '!', '(', ')'}
    ensures TrimStart([c] + more) == [c] + more && FirstToken([c] + more) == Err(UnknownOperator(c))
  {
    hide IsSpace, IsWordChar, FirstOperator;
    NoOperator([c] + more);
  }

  lemma TokensFail(text: string, e: Error)
    requires TrimStart(text) == text != "" && FirstToken(text) == Err(e)
    ensures Tokens(text) == Err(e)
  {
    hide FirstToken, TrimStart;
  }

  lemma NoOperator(text: string)
    requires text != "" && text[0] !in {'|', '&', '>', '<', '=', '!', '(', ')'}
    ensures FirstOperator(text) == None
  {
    assert "||"[0] == '|' && "&&"[0] == '&' && ">="[0] == '>' && "<="[0] == '<' && "=="[0] == '=' && "!="[0] == '!';
    assert ">"[0] == '>' && "<"[0] == '<' && "!"[0] == '!' && "("[0] == '(' && ")"[0] == ')';
  }
}
