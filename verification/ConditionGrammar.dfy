/** The grammar of the conditions, its meaning, and the agreement of the recursive-descent
    reader with both: it succeeds exactly on the spellings of the trees that have a value. */
module ConditionGrammar {
  import opened Wrappers
  import opened Condition

  datatype OrTree = OrOne(first: AndTree) | OrMore(left: OrTree, right: AndTree)

  datatype AndTree = AndOne(first: CompareTree) | AndMore(left: AndTree, right: CompareTree)

  datatype CompareTree = Plain(operand: UnaryTree) | Comparison(lhs: UnaryTree, op: Op, rhs: UnaryTree)

  datatype UnaryTree =
    | Negation(operand: UnaryTree)
    | Group(inner: OrTree)
    | Constant(value: int)
    | Defined(subject: string, parenthesized: bool)
    | Name(name: string)

  // ----- Which trees the grammar has, and how they are spelled -----

  predicate OrOk(t: OrTree) {
    match t case OrOne(a) => AndOk(a) case OrMore(l, r) => OrOk(l) && AndOk(r)
  }

  predicate AndOk(t: AndTree) {
    match t case AndOne(c) => CompareOk(c) case AndMore(l, r) => AndOk(l) && CompareOk(r)
  }

  predicate CompareOk(t: CompareTree) {
    match t
    case Plain(u) => UnaryOk(u)
    case Comparison(l, op, r) => UnaryOk(l) && IsComparison(op) && UnaryOk(r)
  }

  predicate UnaryOk(t: UnaryTree) {
    match t
    case Negation(u) => UnaryOk(u)
    case Group(o) => OrOk(o)
    case Constant(_) => true
    case Defined(_, _) => true
    case Name(name) => name != "defined"
  }

  function OrSpelled(t: OrTree): (ts: seq<Token>)
    ensures ts != []
  {
    match t
    case OrOne(a) => AndSpelled(a)
    case OrMore(l, r) => OrSpelled(l) + [Symbol(OrOr)] + AndSpelled(r)
  }

  function AndSpelled(t: AndTree): (ts: seq<Token>)
    ensures ts != []
  {
    match t
    case AndOne(c) => CompareSpelled(c)
    case AndMore(l, r) => AndSpelled(l) + [Symbol(AndAnd)] + CompareSpelled(r)
  }

  function CompareSpelled(t: CompareTree): (ts: seq<Token>)
    ensures ts != []
  {
    match t
    case Plain(u) => UnarySpelled(u)
    case Comparison(l, op, r) => UnarySpelled(l) + [Symbol(op)] + UnarySpelled(r)
  }

  function UnarySpelled(t: UnaryTree): (ts: seq<Token>)
    ensures ts != []
  {
    match t
    case Negation(u) => [Symbol(Not)] + UnarySpelled(u)
    case Group(o) => [Symbol(Open)] + OrSpelled(o) + [Symbol(Close)]
    case Constant(v) => [Number(v)]
    case Defined(s, false) => [Ident("defined"), Ident(s)]
    case Defined(s, true) => [Ident("defined"), Symbol(Open), Ident(s), Symbol(Close)]
    case Name(name) => [Ident(name)]
  }

  // ----- What the trees mean -----

  function Both(l: Result<int, Error>, r: Result<int, Error>, combine: (int, int) -> bool): Result<int, Error> {
    match (l, r)
    case (Err(e), _) => Err(e)
    case (Ok(_), Err(e)) => Err(e)
    case (Ok(x), Ok(y)) => Ok(Truth(combine(x, y)))
  }

  function OrMeans(t: OrTree, macros: Macros, expanding: seq<string>): Result<int, Error>
    requires Expanding(expanding, macros)
  {
    match t
    case OrOne(a) => AndMeans(a, macros, expanding)
    case OrMore(l, r) =>
      Both(OrMeans(l, macros, expanding), AndMeans(r, macros, expanding), (x, y) => x != 0 || y != 0)
  }

  function AndMeans(t: AndTree, macros: Macros, expanding: seq<string>): Result<int, Error>
    requires Expanding(expanding, macros)
  {
    match t
    case AndOne(c) => CompareMeans(c, macros, expanding)
    case AndMore(l, r) =>
      Both(AndMeans(l, macros, expanding), CompareMeans(r, macros, expanding), (x, y) => x != 0 && y != 0)
  }

  function CompareMeans(t: CompareTree, macros: Macros, expanding: seq<string>): Result<int, Error>
    requires Expanding(expanding, macros)
  {
    match t
    case Plain(u) => UnaryMeans(u, macros, expanding)
    case Comparison(l, op, r) =>
      Both(UnaryMeans(l, macros, expanding), UnaryMeans(r, macros, expanding), (x, y) => Compared(op, x, y))
  }

  function UnaryMeans(t: UnaryTree, macros: Macros, expanding: seq<string>): Result<int, Error>
    requires Expanding(expanding, macros)
  {
    match t
    case Negation(u) =>
      (match UnaryMeans(u, macros, expanding) case Ok(v) => Ok(Truth(v == 0)) case Err(e) => Err(e))
    case Group(o) => OrMeans(o, macros, expanding)
    case Constant(v) => Ok(v)
    case Defined(s, _) => Ok(Truth(IsDefined(s, macros)))
    case Name(name) => NameValue(name, macros, expanding)
  }

  // ----- From a tree to the reader -----

  /** That `part` stands in the tokens at `at`. */
  ghost predicate Spells(env: Env, at: nat, part: seq<Token>) {
    at + |part| <= |env.tokens| && env.tokens[at..at + |part|] == part
  }

  /** That no comparison stands at `at`. */
  predicate NoComparison(env: Env, at: nat) {
    at < |env.tokens| && env.tokens[at].Symbol? ==> !IsComparison(env.tokens[at].op)
  }

  function Reading(meaning: Result<int, Error>, at: nat): Read {
    match meaning case Ok(v) => Value(v, at) case Err(e) => Fail(e)
  }

  lemma SpellsSplit(env: Env, at: nat, a: seq<Token>, b: seq<Token>)
    requires Spells(env, at, a + b)
    ensures Spells(env, at, a) && Spells(env, at + |a|, b)
  {
    assert (a + b)[..|a|] == a && (a + b)[|a|..] == b;
    assert env.tokens[at..at + |a|] == env.tokens[at..at + |a + b|][..|a|];
    assert env.tokens[at + |a|..at + |a| + |b|] == env.tokens[at..at + |a + b|][|a|..];
  }

  lemma OrStep(env: Env, at: nat)
    requires env.Valid() && at <= |env.tokens|
    ensures Or(env, at) == match And(env, at) case Fail(e) => Fail(e) case Value(first, next) => OrTail(env, first, next)
  {
    hide OrTail, And;
  }

  lemma OrTailStep(env: Env, value: int, at: nat)
    requires env.Valid() && at <= |env.tokens| && env.Next(OrOr, at)
    ensures OrTail(env, value, at)
         == match And(env, at + 1)
            case Fail(e) => Fail(e)
            case Value(rhs, next) => OrTail(env, Truth(value != 0 || rhs != 0), next)
  {
    hide And;
  }

  /** Reading the rest of a chain of `||` after the tree `t`. */
  lemma {:induction false} OrReads(env: Env, at: nat, t: OrTree)
    requires env.Valid() && at <= |env.tokens| && OrOk(t) && Spells(env, at, OrSpelled(t))
    requires var end := at + |OrSpelled(t)|; NoComparison(env, end) && !env.Next(AndAnd, end)
    ensures var end := at + |OrSpelled(t)|;
            Or(env, at) == match OrMeans(t, env.macros, env.expanding)
                           case Ok(v) => OrTail(env, v, end)
                           case Err(e) => Fail(e)
    decreases t, 0
  {
    hide Expanding, Or, OrTail, And, Compare, Unary, AndMeans, AndSpelled, AndOk, Evaluate, NameValue;
    match t
    case OrOne(a) =>
      AndReads(env, at, a);
      OrStep(env, at);
    case OrMore(l, r) =>
      SpellsSplit(env, at, OrSpelled(l) + [Symbol(OrOr)], AndSpelled(r));
      SpellsSplit(env, at, OrSpelled(l), [Symbol(OrOr)]);
      var middle := at + |OrSpelled(l)|;
      assert env.tokens[middle] == env.tokens[middle..middle + 1][0] == Symbol(OrOr);
      OrReads(env, at, l);
      AndReads(env, middle + 1, r);
      var left := OrMeans(l, env.macros, env.expanding);
      if left.Ok? { OrTailStep(env, left.value, middle); }
  }

  lemma AndStep(env: Env, at: nat)
    requires env.Valid() && at <= |env.tokens|
    ensures And(env, at) == match Compare(env, at) case Fail(e) => Fail(e) case Value(first, next) => AndTail(env, first, next)
  {
    hide AndTail, Compare;
  }

  lemma AndTailStep(env: Env, value: int, at: nat)
    requires env.Valid() && at <= |env.tokens| && env.Next(AndAnd, at)
    ensures AndTail(env, value, at)
         == match Compare(env, at + 1)
            case Fail(e) => Fail(e)
            case Value(rhs, next) => AndTail(env, Truth(value != 0 && rhs != 0), next)
  {
    hide Compare;
  }

  lemma {:induction false} AndReads(env: Env, at: nat, t: AndTree)
    requires env.Valid() && at <= |env.tokens| && AndOk(t) && Spells(env, at, AndSpelled(t))
    requires NoComparison(env, at + |AndSpelled(t)|)
    ensures var end := at + |AndSpelled(t)|;
            And(env, at) == match AndMeans(t, env.macros, env.expanding)
                            case Ok(v) => AndTail(env, v, end)
                            case Err(e) => Fail(e)
    decreases t, 0
  {
    hide Expanding, And, AndTail, Or, OrTail, Compare, Unary, CompareMeans, CompareSpelled, CompareOk, Evaluate, NameValue;
    match t
    case AndOne(c) =>
      CompareReads(env, at, c);
      AndStep(env, at);
    case AndMore(l, r) =>
      SpellsSplit(env, at, AndSpelled(l) + [Symbol(AndAnd)], CompareSpelled(r));
      SpellsSplit(env, at, AndSpelled(l), [Symbol(AndAnd)]);
      var middle := at + |AndSpelled(l)|;
      assert env.tokens[middle] == env.tokens[middle..middle + 1][0] == Symbol(AndAnd);
      AndReads(env, at, l);
      CompareReads(env, middle + 1, r);
      var left := AndMeans(l, env.macros, env.expanding);
      if left.Ok? { AndTailStep(env, left.value, middle); }
  }

  lemma CompareStep(env: Env, at: nat, next: nat)
    requires env.Valid() && at <= |env.tokens| && next < |env.tokens|
    requires env.tokens[next].Symbol? && IsComparison(env.tokens[next].op)
    ensures Unary(env, at).Fail? ==> Compare(env, at) == Unary(env, at)
    ensures Unary(env, at).Value? && Unary(env, at).at == next ==>
              Compare(env, at) == match Unary(env, next + 1)
                                  case Fail(e) => Fail(e)
                                  case Value(rhs, end) =>
                                    Value(Truth(Compared(env.tokens[next].op, Unary(env, at).v, rhs)), end)
  {
    hide Expanding, Unary;
  }

  lemma CompareNone(env: Env, at: nat)
    requires env.Valid() && at <= |env.tokens|
    requires Unary(env, at).Value? ==> NoComparison(env, Unary(env, at).at)
    ensures Compare(env, at) == Unary(env, at)
  {
    hide Expanding, Unary;
  }

  lemma {:induction false} CompareReads(env: Env, at: nat, t: CompareTree)
    requires env.Valid() && at <= |env.tokens| && CompareOk(t) && Spells(env, at, CompareSpelled(t))
    requires NoComparison(env, at + |CompareSpelled(t)|)
    ensures Compare(env, at) == Reading(CompareMeans(t, env.macros, env.expanding), at + |CompareSpelled(t)|)
    decreases t, 0
  {
    hide Compare, Expanding, Or, OrTail, And, AndTail, Unary, UnaryMeans, UnarySpelled, UnaryOk, Evaluate, NameValue;
    match t
    case Plain(u) =>
      UnaryReads(env, at, u);
      CompareNone(env, at);
    case Comparison(l, op, r) =>
      SpellsSplit(env, at, UnarySpelled(l) + [Symbol(op)], UnarySpelled(r));
      SpellsSplit(env, at, UnarySpelled(l), [Symbol(op)]);
      var middle := at + |UnarySpelled(l)|;
      assert env.tokens[middle] == env.tokens[middle..middle + 1][0] == Symbol(op);
      UnaryReads(env, at, l);
      UnaryReads(env, middle + 1, r);
      CompareStep(env, at, middle);
  }

  lemma {:induction false} UnaryReads(env: Env, at: nat, t: UnaryTree)
    requires env.Valid() && at <= |env.tokens| && UnaryOk(t) && Spells(env, at, UnarySpelled(t))
    ensures Unary(env, at) == Reading(UnaryMeans(t, env.macros, env.expanding), at + |UnarySpelled(t)|)
    decreases t, 0
  {
    hide Expanding, Spells, Unary, OrMeans, OrSpelled, OrOk, NameValue;
    match t
    case Negation(u) =>
      NegationReads(env, at, u);
    case Group(o) =>
      GroupReads(env, at, o);
    case _ =>
      LeafReads(env, at, t);
  }

  lemma {:induction false} NegationReads(env: Env, at: nat, u: UnaryTree)
    requires env.Valid() && at <= |env.tokens| && UnaryOk(u) && Spells(env, at, [Symbol(Not)] + UnarySpelled(u))
    ensures Unary(env, at)
         == Reading(UnaryMeans(Negation(u), env.macros, env.expanding), at + 1 + |UnarySpelled(u)|)
    decreases u, 1
  {
    hide Expanding, And, AndTail, Compare, OrMeans, OrSpelled, OrOk, UnaryOk, UnarySpelled, Evaluate, NameValue, Or;
    SpellsSplit(env, at, [Symbol(Not)], UnarySpelled(u));
    SpelledAt(env, at, [Symbol(Not)]);
    UnaryReads(env, at + 1, u);
  }

  lemma SpelledAt(env: Env, at: nat, part: seq<Token>)
    requires Spells(env, at, part)
    ensures forall k :: 0 <= k < |part| ==> env.tokens[at + k] == part[k]
    ensures part != [] ==> env.tokens[at] == part[0]
  {
    forall k | 0 <= k < |part| ensures env.tokens[at + k] == part[k] {
      assert env.tokens[at + k] == env.tokens[at..at + |part|][k];
    }
    assert part != [] ==> env.tokens[at + 0] == part[0];
  }

  lemma {:induction false} GroupReads(env: Env, at: nat, o: OrTree)
    requires env.Valid() && OrOk(o) && Spells(env, at, [Symbol(Open)] + OrSpelled(o) + [Symbol(Close)])
    ensures Unary(env, at) == Reading(OrMeans(o, env.macros, env.expanding), at + |OrSpelled(o)| + 2)
    decreases o, 1
  {
    hide Expanding, And, AndTail, Compare, OrMeans, OrSpelled, OrOk, Evaluate, NameValue, Or;
    SpellsSplit(env, at, [Symbol(Open)] + OrSpelled(o), [Symbol(Close)]);
    SpellsSplit(env, at, [Symbol(Open)], OrSpelled(o));
    SpelledAt(env, at, [Symbol(Open)]);
    SpelledAt(env, at + 1 + |OrSpelled(o)|, [Symbol(Close)]);
    OrReads(env, at + 1, o);
    assert OrTail(env, 0, at + 1 + |OrSpelled(o)|) == Value(0, at + 1 + |OrSpelled(o)|);
  }

  lemma LeafReads(env: Env, at: nat, t: UnaryTree)
    requires env.Valid() && UnaryOk(t) && Spells(env, at, UnarySpelled(t))
    requires t.Constant? || t.Defined? || t.Name?
    ensures Unary(env, at) == Reading(UnaryMeans(t, env.macros, env.expanding), at + |UnarySpelled(t)|)
  {
    hide Expanding, Or, Evaluate, NameValue;
    SpelledAt(env, at, UnarySpelled(t));
    if t.Defined? {
      assert env.tokens[at + 1] == UnarySpelled(t)[1];
      if t.parenthesized {
        assert env.tokens[at + 2] == UnarySpelled(t)[2];
        assert env.tokens[at + 3] == UnarySpelled(t)[3];
      }
    }
  }

  // ----- From the reader to a tree -----

  ghost predicate OrIs(env: Env, at: nat, end: nat, v: int, t: OrTree)
    requires env.Valid()
  {
    && at <= end <= |env.tokens|
    && OrOk(t)
    && OrSpelled(t) == env.tokens[at..end]
    && OrMeans(t, env.macros, env.expanding) == Ok(v)
  }

  ghost predicate AndIs(env: Env, at: nat, end: nat, v: int, t: AndTree)
    requires env.Valid()
  {
    && at <= end <= |env.tokens|
    && AndOk(t)
    && AndSpelled(t) == env.tokens[at..end]
    && AndMeans(t, env.macros, env.expanding) == Ok(v)
  }

  ghost predicate CompareIs(env: Env, at: nat, end: nat, v: int, t: CompareTree)
    requires env.Valid()
  {
    && at <= end <= |env.tokens|
    && CompareOk(t)
    && CompareSpelled(t) == env.tokens[at..end]
    && CompareMeans(t, env.macros, env.expanding) == Ok(v)
  }

  ghost predicate UnaryIs(env: Env, at: nat, end: nat, v: int, t: UnaryTree)
    requires env.Valid()
  {
    && at <= end <= |env.tokens|
    && UnaryOk(t)
    && UnarySpelled(t) == env.tokens[at..end]
    && UnaryMeans(t, env.macros, env.expanding) == Ok(v)
  }

  lemma {:induction false} OrTreeOf(env: Env, at: nat) returns (t: OrTree)
    requires env.Valid() && at <= |env.tokens| && Or(env, at).Value?
    ensures OrIs(env, at, Or(env, at).at, Or(env, at).v, t)
    decreases |env.tokens| - at, 4
  {
    hide Expanding, And, AndTail, Compare, Unary, AndMeans, AndSpelled, AndOk, Evaluate, NameValue;
    var a := AndTreeOf(env, at);
    t := OrTailTreeOf(env, at, And(env, at).at, And(env, at).v, OrOne(a));
  }

  lemma {:induction false} OrTailTreeOf(env: Env, start: nat, at: nat, v: int, l: OrTree) returns (t: OrTree)
    requires env.Valid() && start < at <= |env.tokens| && OrTail(env, v, at).Value?
    requires OrIs(env, start, at, v, l)
    ensures OrIs(env, start, OrTail(env, v, at).at, OrTail(env, v, at).v, t)
    decreases |env.tokens| - at, 5
  {
    hide Expanding, And, AndTail, Compare, Unary, AndMeans, AndSpelled, AndOk, Evaluate, NameValue;
    if !env.Next(OrOr, at) {
      t := l;
    } else {
      var r := AndTreeOf(env, at + 1);
      var next := And(env, at + 1).at;
      assert env.tokens[start..next] == env.tokens[start..at] + [Symbol(OrOr)] + env.tokens[at + 1..next];
      t := OrTailTreeOf(env, start, next, Truth(v != 0 || And(env, at + 1).v != 0), OrMore(l, r));
    }
  }

  lemma {:induction false} AndTreeOf(env: Env, at: nat) returns (t: AndTree)
    requires env.Valid() && at <= |env.tokens| && And(env, at).Value?
    ensures AndIs(env, at, And(env, at).at, And(env, at).v, t)
    decreases |env.tokens| - at, 2
  {
    hide Expanding, Or, OrTail, Compare, Unary, CompareMeans, CompareSpelled, CompareOk, Evaluate, NameValue;
    var c := CompareTreeOf(env, at);
    t := AndTailTreeOf(env, at, Compare(env, at).at, Compare(env, at).v, AndOne(c));
  }

  lemma {:induction false} AndTailTreeOf(env: Env, start: nat, at: nat, v: int, l: AndTree) returns (t: AndTree)
    requires env.Valid() && start < at <= |env.tokens| && AndTail(env, v, at).Value?
    requires AndIs(env, start, at, v, l)
    ensures AndIs(env, start, AndTail(env, v, at).at, AndTail(env, v, at).v, t)
    decreases |env.tokens| - at, 3
  {
    hide Expanding, Or, OrTail, Compare, Unary, CompareMeans, CompareSpelled, CompareOk, Evaluate, NameValue;
    if !env.Next(AndAnd, at) {
      t := l;
    } else {
      var r := CompareTreeOf(env, at + 1);
      var next := Compare(env, at + 1).at;
      assert env.tokens[start..next] == env.tokens[start..at] + [Symbol(AndAnd)] + env.tokens[at + 1..next];
      t := AndTailTreeOf(env, start, next, Truth(v != 0 && Compare(env, at + 1).v != 0), AndMore(l, r));
    }
  }

  lemma {:induction false} CompareTreeOf(env: Env, at: nat) returns (t: CompareTree)
    requires env.Valid() && at <= |env.tokens| && Compare(env, at).Value?
    ensures CompareIs(env, at, Compare(env, at).at, Compare(env, at).v, t)
    decreases |env.tokens| - at, 1
  {
    hide Expanding, Or, OrTail, And, AndTail, Unary, UnaryMeans, UnarySpelled, UnaryOk, Evaluate, NameValue;
    var l := UnaryTreeOf(env, at);
    var middle := Unary(env, at).at;
    if middle < |env.tokens| && env.tokens[middle].Symbol? && IsComparison(env.tokens[middle].op) {
      var r := UnaryTreeOf(env, middle + 1);
      var end := Unary(env, middle + 1).at;
      assert env.tokens[at..end] == env.tokens[at..middle] + [env.tokens[middle]] + env.tokens[middle + 1..end];
      t := Comparison(l, env.tokens[middle].op, r);
    } else {
      t := Plain(l);
    }
  }

  lemma NegationIs(env: Env, at: nat, u: UnaryTree)
    requires env.Valid() && env.Next(Not, at) && Unary(env, at).Value? && Unary(env, at + 1).Value?
    requires UnaryIs(env, at + 1, Unary(env, at + 1).at, Unary(env, at + 1).v, u)
    ensures UnaryIs(env, at, Unary(env, at).at, Unary(env, at).v, Negation(u))
  {
    hide Expanding, Or, OrMeans, OrSpelled, OrOk, Evaluate, NameValue;
    var end := Unary(env, at).at;
    assert env.tokens[at..end] == [Symbol(Not)] + env.tokens[at + 1..end];
  }

  lemma GroupIs(env: Env, at: nat, o: OrTree)
    requires env.Valid() && env.Next(Open, at) && Unary(env, at).Value? && Or(env, at + 1).Value?
    requires OrIs(env, at + 1, Or(env, at + 1).at, Or(env, at + 1).v, o)
    ensures UnaryIs(env, at, Unary(env, at).at, Unary(env, at).v, Group(o))
  {
    hide Expanding, Or, OrMeans, OrSpelled, OrOk, Evaluate, NameValue;
    var end := Unary(env, at).at;
    assert env.tokens[at..end] == [Symbol(Open)] + env.tokens[at + 1..end - 1] + [Symbol(Close)];
  }

  lemma LeafOf(env: Env, at: nat) returns (t: UnaryTree)
    requires env.Valid() && at <= |env.tokens| && Unary(env, at).Value? && !env.Next(Not, at) && !env.Next(Open, at)
    ensures UnaryIs(env, at, Unary(env, at).at, Unary(env, at).v, t)
  {
    hide Expanding, Or, OrMeans, OrSpelled, OrOk, Evaluate, NameValue;
    if env.tokens[at].Number? {
      t := Constant(env.tokens[at].value);
    } else if env.tokens[at] == Ident("defined") {
      t := DefinedOf(env, at);
    } else {
      t := Name(env.tokens[at].name);
    }
  }

  lemma DefinedOf(env: Env, at: nat) returns (t: UnaryTree)
    requires env.Valid() && at < |env.tokens| && Unary(env, at).Value? && env.tokens[at] == Ident("defined")
    ensures UnaryIs(env, at, Unary(env, at).at, Unary(env, at).v, t)
  {
    hide Expanding, Or, OrMeans, OrSpelled, OrOk, Evaluate, NameValue;
    var end := Unary(env, at).at;
    if env.Next(Open, at + 1) {
      t := Defined(env.tokens[at + 2].name, true);
      assert env.tokens[at..end] == [env.tokens[at], env.tokens[at + 1], env.tokens[at + 2], env.tokens[at + 3]];
    } else {
      t := Defined(env.tokens[at + 1].name, false);
      assert env.tokens[at..end] == [env.tokens[at], env.tokens[at + 1]];
    }
  }

  lemma {:induction false} UnaryTreeOf(env: Env, at: nat) returns (t: UnaryTree)
    requires env.Valid() && at <= |env.tokens| && Unary(env, at).Value?
    ensures UnaryIs(env, at, Unary(env, at).at, Unary(env, at).v, t)
    decreases |env.tokens| - at, 0
  {
    hide Expanding, And, AndTail, Compare, OrIs, UnaryIs, Evaluate, NameValue, Or, OrTail;
    if env.Next(Not, at) {
      var u := UnaryTreeOf(env, at + 1);
      NegationIs(env, at, u);
      t := Negation(u);
    } else if env.Next(Open, at) {
      var o := OrTreeOf(env, at + 1);
      GroupIs(env, at, o);
      t := Group(o);
    } else {
      t := LeafOf(env, at);
    }
  }

  // ----- The agreement -----

  /** A spelled tree is read to its end and has its own value, or its own error. */
  lemma TreeEvaluates(text: string, t: OrTree, macros: Macros, expanding: seq<string>)
    requires Expanding(expanding, macros) && OrOk(t)
    requires Tokens(text) == Ok(OrSpelled(t))
    ensures Evaluate(text, macros, expanding) == OrMeans(t, macros, expanding)
  {
    var tokens := OrSpelled(t);
    var env := Env(tokens, macros, expanding);
    assert tokens[0..0 + |tokens|] == tokens;
    OrReads(env, 0, t);
  }

  /** A text the reader gives a value spells a tree of that value. */
  lemma EvaluatedIsTree(text: string, macros: Macros, expanding: seq<string>) returns (t: OrTree)
    requires Expanding(expanding, macros) && Evaluate(text, macros, expanding).Ok?
    ensures OrOk(t) && Tokens(text) == Ok(OrSpelled(t))
    ensures OrMeans(t, macros, expanding) == Evaluate(text, macros, expanding)
  {
    hide Expanding, Or, Tokens, OrOk, OrSpelled, OrMeans;
    var env := Env(Tokens(text).value, macros, expanding);
    t := OrTreeOf(env, 0);
    assert env.tokens[0..|env.tokens|] == env.tokens;
  }

  /** That a text spells a tree of the value `v`. */
  ghost predicate SpellsTree(text: string, t: OrTree, macros: Macros, expanding: seq<string>, v: int)
    requires Expanding(expanding, macros)
  {
    OrOk(t) && Tokens(text) == Ok(OrSpelled(t)) && OrMeans(t, macros, expanding) == Ok(v)
  }

  /** The reader gives a text the value `v` if and only if the text spells a tree of that value. */
  lemma EvaluateIsGrammar(text: string, macros: Macros, expanding: seq<string>, v: int)
    requires Expanding(expanding, macros)
    ensures Evaluate(text, macros, expanding) == Ok(v) <==> exists t :: SpellsTree(text, t, macros, expanding, v)
  {
    if Evaluate(text, macros, expanding) == Ok(v) {
      var t := EvaluatedIsTree(text, macros, expanding);
      assert SpellsTree(text, t, macros, expanding, v);
    }
    forall t | SpellsTree(text, t, macros, expanding, v)
      ensures Evaluate(text, macros, expanding) == Ok(v)
    {
      TreeEvaluates(text, t, macros, expanding);
    }
  }
}
