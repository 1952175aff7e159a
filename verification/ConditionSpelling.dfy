/** Conditions as text: written out with spaces, a tree of the grammar is read back to its own
    value, and a cycle of macros comes to 0. */
module ConditionSpelling {
  import opened Wrappers
  import opened Text
  import opened Numbers
  import opened Condition
  import opened ConditionGrammar

  lemma IntegerDecimal(n: nat)
    requires n <= I128_MAX
    ensures Integer(Decimal(n)) == Ok(n)
  {
    hide Digits, Decimal;
    var s := Decimal(n);
    assert forall k :: 0 <= k < |s| ==> s[k] in s && IsDigit(s[k]);
    assert TrimSuffixes(s) == s;
    assert "0x"[1] == 'x' && "0X"[1] == 'X';
    DigitsDecimal(n);
  }

  predicate Spellable(t: Token) {
    match t
    case Number(v) => 0 <= v <= I128_MAX
    case Ident(name) => IsIdentifier(name)
    case Symbol(_) => true
  }

  function Spelling(op: Op): (s: string)
    ensures s != []
  {
    match op
    case OrOr => "||" case AndAnd => "&&" case Ge => ">=" case Le => "<=" case EqEq => "==" case Ne => "!="
    case Gt => ">" case Lt => "<" case Not => "!" case Open => "(" case Close => ")"
  }

  function SpelledToken(t: Token): (s: string)
    requires Spellable(t)
    ensures s != []
  {
    match t
    case Number(v) => Decimal(v)
    case Ident(name) => name
    case Symbol(op) => Spelling(op)
  }

  /** Tokens written out, each followed by a space. */
  function Spelled(ts: seq<Token>): string
    requires forall t :: t in ts ==> Spellable(t)
  {
    if ts == [] then "" else SpelledToken(ts[0]) + " " + Spelled(ts[1..])
  }

  lemma OperatorRead(op: Op, more: string)
    ensures FirstOperator(Spelling(op) + " " + more) == Some(op)
    ensures OperatorLength(op) == |Spelling(op)| && !IsWordChar(Spelling(op)[0])
  {
    var rest := Spelling(op) + " " + more;
    assert rest[0] == Spelling(op)[0];
    assert rest[1] == if |Spelling(op)| == 2 then Spelling(op)[1] else ' ';
  }

  lemma TokenRead(t: Token, more: string)
    requires Spellable(t)
    ensures FirstToken(SpelledToken(t) + " " + more) == Ok((t, |SpelledToken(t)|))
  {
    var s := SpelledToken(t);
    var rest := s + " " + more;
    assert rest == s + (" " + more);
    assert rest[0] == s[0] && s[0] in s;
    match t
    case Number(v) =>
      WordEnds(s, " " + more);
      assert rest[..|s|] == s;
      IntegerDecimal(v);
    case Ident(_) =>
      WordEnds(s, " " + more);
      assert rest[..|s|] == s;
    case Symbol(op) =>
      OperatorRead(op, more);
  }

  lemma TokenStarts(t: Token)
    requires Spellable(t)
    ensures !IsSpace(SpelledToken(t)[0])
  {
    var s := SpelledToken(t);
    assert s[0] in s;
  }

  lemma TokensStep(text: string, t: Token, len: nat)
    requires TrimStart(text) != [] && FirstToken(TrimStart(text)) == Ok((t, len))
    ensures len <= |TrimStart(text)|
    ensures Tokens(text) == After([t], Tokens(TrimStart(text)[len..]))
  {
  }

  /** The tokens of a spelled token sequence are that sequence. */
  lemma {:induction false} TokensSpelled(ts: seq<Token>)
    requires forall t :: t in ts ==> Spellable(t)
    ensures Tokens(Spelled(ts)) == Ok(ts)
    ensures Tokens(" " + Spelled(ts)) == Ok(ts)
  {
    hide Tokens, After, FirstToken, SpelledToken, Spelled;
    NoTokens();
    if ts != [] {
      TokensSpelled(ts[1..]);
      SpelledStep(ts);
      TokensStep(Spelled(ts), ts[0], |SpelledToken(ts[0])|);
      TokensStep(" " + Spelled(ts), ts[0], |SpelledToken(ts[0])|);
      FirstAndRest(ts);
    } else {
      assert " " + "" == " ";
    }
  }

  lemma FirstAndRest(ts: seq<Token>)
    requires ts != []
    ensures After([ts[0]], Ok(ts[1..])) == Ok(ts)
  {
    assert [ts[0]] + ts[1..] == ts;
  }

  /** A spelled token sequence starts with its first token, with or without a space before. */
  lemma SpelledStep(ts: seq<Token>)
    requires ts != [] && forall t :: t in ts ==> Spellable(t)
    ensures TrimStart(Spelled(ts)) == TrimStart(" " + Spelled(ts)) == Spelled(ts) != []
    ensures |SpelledToken(ts[0])| <= |Spelled(ts)|
    ensures FirstToken(Spelled(ts)) == Ok((ts[0], |SpelledToken(ts[0])|))
    ensures Spelled(ts)[|SpelledToken(ts[0])|..] == " " + Spelled(ts[1..])
  {
    hide FirstToken, SpelledToken, TrimStart, Spelled;
    SpelledTrimmed(ts);
    SpelledCons(ts);
    TokenRead(ts[0], Spelled(ts[1..]));
  }

  lemma SpelledCons(ts: seq<Token>)
    requires ts != [] && forall t :: t in ts ==> Spellable(t)
    ensures Spelled(ts) == SpelledToken(ts[0]) + " " + Spelled(ts[1..])
    ensures Spelled(ts)[|SpelledToken(ts[0])|..] == " " + Spelled(ts[1..])
  {
    hide SpelledToken;
    assert Spelled(ts) == SpelledToken(ts[0]) + (" " + Spelled(ts[1..]));
  }

  lemma NoTokens()
    ensures Tokens("") == Tokens(" ") == Ok([])
    ensures Spelled([]) == ""
  {
    assert " "[1..] == "";
    assert TrimStart(" ") == TrimStart("") == "";
  }

  lemma SpelledTrimmed(ts: seq<Token>)
    requires forall t :: t in ts ==> Spellable(t)
    ensures TrimStart(Spelled(ts)) == TrimStart(" " + Spelled(ts)) == Spelled(ts)
  {
    var text := Spelled(ts);
    assert (" " + text)[1..] == text;
    if ts != [] {
      TokenStarts(ts[0]);
      assert text[0] == SpelledToken(ts[0])[0];
    }
  }

  /** Written out as text, tokenised and run through the reader, a tree is consumed whole and
      comes to its own value. */
  lemma SpelledTreeEvaluates(t: OrTree, macros: Macros)
    requires OrOk(t) && forall token :: token in OrSpelled(t) ==> Spellable(token)
    ensures Evaluate(Spelled(OrSpelled(t)), macros, []) == OrMeans(t, macros, [])
  {
    TokensSpelled(OrSpelled(t));
    TreeEvaluates(Spelled(OrSpelled(t)), t, macros, []);
  }

  // ----- Cycles of macros -----

  /** Each name is an object-like macro replaced by the next name, the last by the first. */
  ghost predicate Cycle(names: seq<string>, macros: Macros) {
    && names != []
    && (forall i, j :: 0 <= i < j < |names| ==> names[i] != names[j])
    && (forall i :: 0 <= i < |names| ==>
          && IsIdentifier(names[i]) && names[i] != "defined" && Predefined(names[i]).None?
          && names[i] in macros
          && macros[names[i]] == ObjectLike(names[if i + 1 < |names| then i + 1 else 0]))
  }

  lemma NameTokens(name: string)
    requires IsIdentifier(name)
    ensures Tokens(name) == Ok([Ident(name)])
  {
    hide TrimmedTokens, Tokens, FirstToken, TrimStart, IsIdentifier;
    NameRead(name);
    TokensStep(name, Ident(name), |name|);
    assert name[|name|..] == "";
    NoTokens();
    assert [Ident(name)] + [] == [Ident(name)];
  }

  lemma NameRead(name: string)
    requires IsIdentifier(name)
    ensures TrimStart(name) == name && FirstToken(name) == Ok((Ident(name), |name|))
  {
    assert forall k :: 0 <= k < |name| ==> name[k] in name;
    assert WordEnd(name) == |name|;
    assert name[..|name|] == name;
  }

  /** A bare name reads as the value of the name. */
  lemma NameReads(name: string, macros: Macros, expanding: seq<string>)
    requires Expanding(expanding, macros) && IsIdentifier(name) && name != "defined"
    ensures Evaluate(name, macros, expanding) == NameValue(name, macros, expanding)
  {
    hide NameValue, Evaluate, Tokens;
    var u := Name(name);
    var t := OrOne(AndOne(Plain(u)));
    assert UnaryOk(u) && CompareOk(Plain(u)) && AndOk(AndOne(Plain(u)));
    assert OrSpelled(t) == CompareSpelled(Plain(u)) == [Ident(name)];
    assert OrMeans(t, macros, expanding) == AndMeans(t.first, macros, expanding)
        == CompareMeans(Plain(u), macros, expanding) == UnaryMeans(u, macros, expanding);
    NameTokens(name);
    TreeEvaluates(name, t, macros, expanding);
  }

  lemma {:induction false} CycleFrom(names: seq<string>, macros: Macros, k: nat)
    requires Cycle(names, macros) && k < |names|
    requires Expanding(names[..k], macros)
    ensures NameValue(names[k], macros, names[..k]) == Ok(0)
    decreases |names| - k
  {
    hide Evaluate;
    var expanding := names[..k] + [names[k]];
    assert expanding == names[..k + 1];
    var next := names[if k + 1 < |names| then k + 1 else 0];
    NestingBound(names[..k], macros);
    NameReads(next, macros, expanding);
    if k + 1 < |names| {
      CycleFrom(names, macros, k + 1);
    } else {
      assert expanding[0] == names[0] && next in expanding;
    }
    assert NameValue(next, macros, expanding) == Ok(0);
    assert names[k] !in names[..k];
    assert macros[names[k]] == ObjectLike(next);
  }

  /** However long a cycle of macros is, each of its names comes to 0. */
  lemma CycleIsZero(names: seq<string>, macros: Macros)
    requires Cycle(names, macros)
    ensures Evaluate(names[0], macros, []) == Ok(0)
  {
    assert names[..0] == [];
    CycleFrom(names, macros, 0);
    NameReads(names[0], macros, []);
  }
}
