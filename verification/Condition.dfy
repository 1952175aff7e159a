/** The `#if` conditions of a C header: their tokens, and the value the recursive-descent
    reader gives them under a table of macros. */
module Condition {
  import opened Wrappers
  import opened Text
  import opened Numbers
  import opened Finite

  /** What a `#define` gave a name. */
  datatype Macro = ObjectLike(replacement: string) | FunctionLike

  type Macros = map<string, Macro>

  datatype Op = OrOr | AndAnd | Ge | Le | EqEq | Ne | Gt | Lt | Not | Open | Close

  datatype Token = Number(value: int) | Ident(name: string) | Symbol(op: Op)

  datatype Error =
    | BadInteger(text: string)
    | UnknownOperator(first: char)
    | EmptyCondition
    | NotOneExpression
    | Unclosed
    | NoMacroName
    | UnclosedDefined
    | FunctionLikeMacro(name: string)
    | MissingOperand
    | InReplacement(name: string, cause: Error)

  // ----- Tokens -----

  const I128_MAX: int := 0x7FFF_FFFF_FFFF_FFFF_FFFF_FFFF_FFFF_FFFF

  function TrimSuffixes(s: string): (r: string)
    ensures |r| <= |s| && r == s[..|r|]
  {
    if s != [] && s[|s| - 1] in "uUlL" then TrimSuffixes(s[..|s| - 1]) else s
  }

  /** A C integer literal, as the reader parses a word that starts with a digit: decimal or
      hexadecimal, with any `u` and `l` suffixes, within the range of `i128`. */
  function Integer(word: string): (r: Result<int, Error>)
    ensures r.Ok? ==> 0 <= r.value <= I128_MAX
  {
    var digits := TrimSuffixes(word);
    var hex := StartsWith(digits, "0x") || StartsWith(digits, "0X");
    var digits := if hex then digits[2..] else digits;
    match Digits(digits, if hex then 16 else 10)
    case Some(v) => if digits != [] && v <= I128_MAX then Ok(v) else Err(BadInteger(word))
    case None => Err(BadInteger(word))
  }

  /** The operator at the start of a text, the longest spellings tried first. */
  function FirstOperator(rest: string): Option<Op> {
    if StartsWith(rest, "||") then Some(OrOr)
    else if StartsWith(rest, "&&") then Some(AndAnd)
    else if StartsWith(rest, ">=") then Some(Ge)
    else if StartsWith(rest, "<=") then Some(Le)
    else if StartsWith(rest, "==") then Some(EqEq)
    else if StartsWith(rest, "!=") then Some(Ne)
    else if StartsWith(rest, ">") then Some(Gt)
    else if StartsWith(rest, "<") then Some(Lt)
    else if StartsWith(rest, "!") then Some(Not)
    else if StartsWith(rest, "(") then Some(Open)
    else if StartsWith(rest, ")") then Some(Close)
    else None
  }

  function OperatorLength(op: Op): nat {
    if op in {OrOr, AndAnd, Ge, Le, EqEq, Ne} then 2 else 1
  }

  /** The token at the start of a text that starts with no white space, and its length. */
  function FirstToken(rest: string): (r: Result<(Token, nat), Error>)
    requires rest != []
    ensures r.Ok? ==> 0 < r.value.1 <= |rest|
  {
    var first := rest[0];
    if IsWordChar(first) then
      var word := rest[..WordEnd(rest)];
      if IsDigit(first) then
        match Integer(word)
        case Ok(v) => Ok((Number(v), |word|))
        case Err(e) => Err(e)
      else Ok((Ident(word), |word|))
    else
      match FirstOperator(rest)
      case Some(op) => Ok((Symbol(op), OperatorLength(op)))
      case None => Err(UnknownOperator(first))
  }

  function Tokens(text: string): Result<seq<Token>, Error>
    decreases |text|, 1
  {
    TrimmedTokens(TrimStart(text))
  }

  /** The tokens of a text that starts with no white space. */
  function TrimmedTokens(rest: string): Result<seq<Token>, Error>
    decreases |rest|, 0
  {
    if rest == [] then Ok([])
    else match FirstToken(rest)
      case Err(e) => Err(e)
      case Ok((token, len)) => After([token], Tokens(rest[len..]))
  }

  /** The tokens `out` followed by those of `more`, or the error of `more`. */
  function After(out: seq<Token>, more: Result<seq<Token>, Error>): Result<seq<Token>, Error> {
    match more
    case Ok(tokens) => Ok(out + tokens)
    case Err(e) => Err(e)
  }

  // ----- Macros -----

  function Predefined(name: string): Option<int> {
    if name == "__STDC__" || name == "__STDC_HOSTED__" then Some(1)
    else if name == "__STDC_VERSION__" then Some(201710)
    else None
  }

  predicate IsDefined(name: string, macros: Macros) {
    Predefined(name).Some? || name in macros
  }

  ghost function ObjectNames(macros: Macros): set<string> {
    set name | name in macros && macros[name].ObjectLike?
  }

  /** The names whose replacement lists are being evaluated: distinct object-like macros. */
  ghost predicate Expanding(names: seq<string>, macros: Macros) {
    Distinct(names) && forall name :: name in names ==> name in ObjectNames(macros)
  }

  /** Replacement lists never nest deeper than there are object-like macros. */
  lemma NestingBound(names: seq<string>, macros: Macros)
    requires Expanding(names, macros)
    ensures |names| <= |ObjectNames(macros)|
    ensures forall name :: name in ObjectNames(macros) && name !in names ==> |names| < |ObjectNames(macros)|
  {
    DistinctFits(names, ObjectNames(macros));
    forall name | name in ObjectNames(macros) && name !in names
      ensures |names| < |ObjectNames(macros)|
    {
      DistinctFits(names + [name], ObjectNames(macros));
    }
  }

  // ----- The recursive-descent reader -----

  /** What one reader of a condition is given. */
  datatype Env = Env(tokens: seq<Token>, macros: Macros, expanding: seq<string>) {
    ghost predicate Valid() { Expanding(expanding, macros) }

    /** How much deeper replacement lists may still nest. */
    ghost function Room(): (room: nat)
      requires Valid()
    {
      NestingBound(expanding, macros);
      |ObjectNames(macros)| - |expanding|
    }

    predicate Next(op: Op, at: nat) {
      at < |tokens| && tokens[at] == Symbol(op)
    }
  }

  /** A value and the index after it, or the reason there is none. */
  datatype Read = Value(v: int, at: nat) | Fail(error: Error)

  function Truth(b: bool): int { if b then 1 else 0 }

  function Compared(op: Op, lhs: int, rhs: int): bool {
    match op
    case Ge => lhs >= rhs
    case Le => lhs <= rhs
    case EqEq => lhs == rhs
    case Ne => lhs != rhs
    case Gt => lhs > rhs
    case _ => lhs < rhs
  }

  predicate IsComparison(op: Op) { op in {Ge, Le, EqEq, Ne, Gt, Lt} }

  /** The value of a condition's text; `expanding` names the macros it is inside of. */
  function Evaluate(text: string, macros: Macros, expanding: seq<string>): Result<int, Error>
    requires Expanding(expanding, macros)
    decreases Env([], macros, expanding).Room(), 1, 0, 0
  {
    match Tokens(text)
    case Err(e) => Err(e)
    case Ok(tokens) =>
      if tokens == [] then Err(EmptyCondition)
      else match Or(Env(tokens, macros, expanding), 0)
        case Fail(e) => Err(e)
        case Value(v, at) => if at == |tokens| then Ok(v) else Err(NotOneExpression)
  }

  function Or(env: Env, at: nat): (r: Read)
    requires env.Valid() && at <= |env.tokens|
    ensures r.Value? ==> at < r.at <= |env.tokens|
    decreases env.Room(), 0, |env.tokens| - at, 4
  {
    match And(env, at)
    case Fail(e) => Fail(e)
    case Value(v, next) => OrTail(env, v, next)
  }

  function OrTail(env: Env, value: int, at: nat): (r: Read)
    requires env.Valid() && at <= |env.tokens|
    ensures r.Value? ==> at <= r.at <= |env.tokens|
    decreases env.Room(), 0, |env.tokens| - at, 5
  {
    if !env.Next(OrOr, at) then Value(value, at)
    else match And(env, at + 1)
      case Fail(e) => Fail(e)
      case Value(rhs, next) => OrTail(env, Truth(value != 0 || rhs != 0), next)
  }

  function And(env: Env, at: nat): (r: Read)
    requires env.Valid() && at <= |env.tokens|
    ensures r.Value? ==> at < r.at <= |env.tokens|
    decreases env.Room(), 0, |env.tokens| - at, 2
  {
    match Compare(env, at)
    case Fail(e) => Fail(e)
    case Value(v, next) => AndTail(env, v, next)
  }

  function AndTail(env: Env, value: int, at: nat): (r: Read)
    requires env.Valid() && at <= |env.tokens|
    ensures r.Value? ==> at <= r.at <= |env.tokens|
    decreases env.Room(), 0, |env.tokens| - at, 3
  {
    if !env.Next(AndAnd, at) then Value(value, at)
    else match Compare(env, at + 1)
      case Fail(e) => Fail(e)
      case Value(rhs, next) => AndTail(env, Truth(value != 0 && rhs != 0), next)
  }

  function Compare(env: Env, at: nat): (r: Read)
    requires env.Valid() && at <= |env.tokens|
    ensures r.Value? ==> at < r.at <= |env.tokens|
    decreases env.Room(), 0, |env.tokens| - at, 1
  {
    match Unary(env, at)
    case Fail(e) => Fail(e)
    case Value(lhs, next) =>
      if next < |env.tokens| && env.tokens[next].Symbol? && IsComparison(env.tokens[next].op) then
        match Unary(env, next + 1)
        case Fail(e) => Fail(e)
        case Value(rhs, end) => Value(Truth(Compared(env.tokens[next].op, lhs, rhs)), end)
      else Value(lhs, next)
  }

  function Unary(env: Env, at: nat): (r: Read)
    requires env.Valid() && at <= |env.tokens|
    ensures r.Value? ==> at < r.at <= |env.tokens|
    decreases env.Room(), 0, |env.tokens| - at, 0
  {
    if env.Next(Not, at) then
      match Unary(env, at + 1)
      case Fail(e) => Fail(e)
      case Value(v, next) => Value(Truth(v == 0), next)
    else if env.Next(Open, at) then
      match Or(env, at + 1)
      case Fail(e) => Fail(e)
      case Value(v, next) => if env.Next(Close, next) then Value(v, next + 1) else Fail(Unclosed)
    else if at < |env.tokens| && env.tokens[at].Number? then
      Value(env.tokens[at].value, at + 1)
    else if at < |env.tokens| && env.tokens[at] == Ident("defined") then
      var parenthesized := env.Next(Open, at + 1);
      var subject := if parenthesized then at + 2 else at + 1;
      if !(subject < |env.tokens| && env.tokens[subject].Ident?) then Fail(NoMacroName)
      else if parenthesized && !env.Next(Close, subject + 1) then Fail(UnclosedDefined)
      else Value(Truth(IsDefined(env.tokens[subject].name, env.macros)),
                 if parenthesized then subject + 2 else subject + 1)
    else if at < |env.tokens| && env.tokens[at].Ident? then
      match NameValue(env.tokens[at].name, env.macros, env.expanding)
      case Ok(v) => Value(v, at + 1)
      case Err(e) => Fail(e)
    else Fail(MissingOperand)
  }

  /** The value of an identifier other than `defined`. */
  function NameValue(name: string, macros: Macros, expanding: seq<string>): Result<int, Error>
    requires Expanding(expanding, macros)
    decreases Env([], macros, expanding).Room(), 0, 0, 0
  {
    if Predefined(name).Some? then Ok(Predefined(name).value)
    else if name !in macros then Ok(0)
    else match macros[name]
      case FunctionLike => Err(FunctionLikeMacro(name))
      case ObjectLike(replacement) =>
        if name in expanding then Ok(0)
        else
          NestingBound(expanding, macros);
          match Evaluate(replacement, macros, expanding + [name])
          case Ok(v) => Ok(v)
          case Err(cause) => Err(InReplacement(name, cause))
  }

  /** Whether a condition holds. */
  function Holds(text: string, macros: Macros): Result<bool, Error> {
    match Evaluate(text, macros, [])
    case Ok(v) => Ok(v != 0)
    case Err(e) => Err(e)
  }
}
