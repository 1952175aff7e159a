/** The reader of `#if` conditions in its own form: a cursor that its four mutually recursive
    methods advance, proved against the functions of `Condition`. */
module ConditionReader {
  import opened Wrappers
  import opened Text
  import opened Condition

  lemma AfterToken(out: seq<Token>, token: Token, more: Result<seq<Token>, Error>)
    ensures After(out, After([token], more)) == After(out + [token], more)
  {
    if more.Ok? {
      assert out + ([token] + more.value) == (out + [token]) + more.value;
    }
  }

  /** Splits a condition into tokens. */
  method ConditionTokens(text: string) returns (r: Result<seq<Token>, Error>)
    ensures r == Tokens(text)
  {
    hide FirstToken;
    var out := [];
    var rest := TrimStart(text);
    assert forall more: seq<Token> :: [] + more == more;
    while rest != []
      invariant Tokens(text) == After(out, TrimmedTokens(rest))
      decreases |rest|
    {
      match FirstToken(rest) {
        case Err(e) => return Err(e);
        case Ok((token, len)) =>
          AfterToken(out, token, Tokens(rest[len..]));
          rest := TrimStart(rest[len..]);
          out := out + [token];
      }
    }
    assert out + [] == out;
    return Ok(out);
  }

  class ConditionExpr {
    const tokens: seq<Token>
    const macros: Macros
    const expanding: seq<string>
    var at: nat

    constructor (tokens: seq<Token>, macros: Macros, expanding: seq<string>)
      requires Expanding(expanding, macros)
      ensures Valid() && at == 0
      ensures this.tokens == tokens && this.macros == macros && this.expanding == expanding
    {
      this.tokens, this.macros, this.expanding := tokens, macros, expanding;
      at := 0;
    }

    ghost function View(): Env { Env(tokens, macros, expanding) }

    ghost predicate Valid()
      reads this
    {
      View().Valid() && at <= |tokens|
    }

    /** That a method's result and the cursor it leaves are what `read` says. The cursor says
        nothing after a failure, which ends the whole evaluation. */
    ghost predicate Agrees(r: Result<int, Error>, read: Read)
      reads this
    {
      match read
      case Value(v, next) => r == Ok(v) && at == next
      case Fail(e) => r == Err(e)
    }

    method Eat(op: Op) returns (found: bool)
      requires Valid()
      modifies this`at
      ensures Valid()
      ensures found == View().Next(op, old(at))
      ensures at == if found then old(at) + 1 else old(at)
    {
      found := at < |tokens| && tokens[at] == Symbol(op);
      if found {
        at := at + 1;
      }
    }

    method ReadOr() returns (r: Result<int, Error>)
      requires Valid()
      modifies this`at
      ensures Valid() && Agrees(r, Or(View(), old(at)))
      decreases View().Room(), 0, |tokens| - at, 4
    {
      hide Expanding, And, Compare, Unary, Evaluate, NameValue;
      ghost var start := at;
      var value := ReadAnd();
      if value.Err? { return value; }
      var found := Eat(OrOr);
      while found
        invariant Valid() && value.Ok? && start < at
        invariant Or(View(), start) ==
                  if found then
                    match And(View(), at)
                    case Fail(e) => Fail(e)
                    case Value(rhs, next) => OrTail(View(), Truth(value.value != 0 || rhs != 0), next)
                  else Value(value.value, at)
        decreases |tokens| - at, found
      {
        var rhs := ReadAnd();
        if rhs.Err? { return rhs; }
        value := Ok(Truth(value.value != 0 || rhs.value != 0));
        found := Eat(OrOr);
      }
      return value;
    }

    method ReadAnd() returns (r: Result<int, Error>)
      requires Valid()
      modifies this`at
      ensures Valid() && Agrees(r, And(View(), old(at)))
      decreases View().Room(), 0, |tokens| - at, 2
    {
      hide Expanding, Compare, Unary, Or, Evaluate, NameValue;
      ghost var start := at;
      var value := ReadCompare();
      if value.Err? { return value; }
      var found := Eat(AndAnd);
      while found
        invariant Valid() && value.Ok? && start < at
        invariant And(View(), start) ==
                  if found then
                    match Compare(View(), at)
                    case Fail(e) => Fail(e)
                    case Value(rhs, next) => AndTail(View(), Truth(value.value != 0 && rhs != 0), next)
                  else Value(value.value, at)
        decreases |tokens| - at, found
      {
        var rhs := ReadCompare();
        if rhs.Err? { return rhs; }
        value := Ok(Truth(value.value != 0 && rhs.value != 0));
        found := Eat(AndAnd);
      }
      return value;
    }

    method ReadCompare() returns (r: Result<int, Error>)
      requires Valid()
      modifies this`at
      ensures Valid() && Agrees(r, Compare(View(), old(at)))
      decreases View().Room(), 0, |tokens| - at, 1
    {
      hide Expanding, Unary, Or, And, Evaluate, NameValue;
      var lhs := ReadUnary();
      if lhs.Err? { return lhs; }
      ghost var middle := at;
      var ops := [Ge, Le, EqEq, Ne, Gt, Lt];
      for k := 0 to |ops|
        invariant Valid() && at == middle
        invariant forall j :: 0 <= j < k ==> !View().Next(ops[j], at)
      {
        var found := Eat(ops[k]);
        if found {
          var rhs := ReadUnary();
          if rhs.Err? { return rhs; }
          return Ok(Truth(Compared(ops[k], lhs.value, rhs.value)));
        }
      }
      assert ops[0] == Ge && ops[1] == Le && ops[2] == EqEq && ops[3] == Ne && ops[4] == Gt && ops[5] == Lt;
      return lhs;
    }

    method ReadUnary() returns (r: Result<int, Error>)
      requires Valid()
      modifies this`at
      ensures Valid() && Agrees(r, Unary(View(), old(at)))
      decreases View().Room(), 0, |tokens| - at, 0
    {
      hide And, AndTail, Compare, Or, OrTail, Evaluate;
      var found := Eat(Not);
      if found {
        r := ReadUnary();
        if r.Ok? { r := Ok(Truth(r.value == 0)); }
        return;
      }
      found := Eat(Open);
      if found {
        r := ReadOr();
        if r.Err? { return; }
        found := Eat(Close);
        if !found { r := Err(Unclosed); }
        return;
      }
      if at == |tokens| { return Err(MissingOperand); }
      match tokens[at] {
        case Number(value) =>
          at := at + 1;
          return Ok(value);
        case Symbol(_) =>
          return Err(MissingOperand);
        case Ident(name) =>
          at := at + 1;
          if name == "defined" {
            var parenthesized := Eat(Open);
            if at == |tokens| || !tokens[at].Ident? { return Err(NoMacroName); }
            var subject := tokens[at].name;
            at := at + 1;
            if parenthesized {
              found := Eat(Close);
              if !found { return Err(UnclosedDefined); }
            }
            return Ok(Truth(IsDefined(subject, macros)));
          }
          if Predefined(name).Some? { return Ok(Predefined(name).value); }
          if name !in macros { return Ok(0); }
          match macros[name] {
            case FunctionLike => return Err(FunctionLikeMacro(name));
            case ObjectLike(replacement) =>
              if name in expanding { return Ok(0); }
              NestingBound(expanding, macros);
              r := EvaluateText(replacement, macros, expanding + [name]);
              if r.Err? { r := Err(InReplacement(name, r.error)); }
              return;
          }
      }
    }
  }

  method EvaluateText(text: string, macros: Macros, expanding: seq<string>) returns (r: Result<int, Error>)
    requires Expanding(expanding, macros)
    ensures r == Evaluate(text, macros, expanding)
    decreases Env([], macros, expanding).Room(), 1, 0, 0
  {
    var tokens := ConditionTokens(text);
    if tokens.Err? { return Err(tokens.error); }
    if tokens.value == [] { return Err(EmptyCondition); }
    var expr := new ConditionExpr(tokens.value, macros, expanding);
    r := expr.ReadOr();
    if r.Ok? && expr.at != |tokens.value| { r := Err(NotOneExpression); }
  }

  method ReadCondition(text: string, macros: Macros) returns (r: Result<bool, Error>)
    ensures r == Holds(text, macros)
  {
    var value := EvaluateText(text, macros, []);
    match value {
      case Ok(v) => return Ok(v != 0);
      case Err(e) => return Err(e);
    }
  }
}
