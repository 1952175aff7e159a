/** The meaning of a condition, apart from its reader: a relation between trees and values in which a
    macro has the values of the trees that its replacement list spells. */
module ConditionMeaning {
  import opened Wrappers
  import opened Condition
  import opened ConditionGrammar

  ghost function RoomIn(macros: Macros, expanding: seq<string>): nat
    requires Expanding(expanding, macros)
  {
    Env([], macros, expanding).Room()
  }

  /** That a text is a tree of the grammar, written out. */
  ghost predicate IsTree(text: string, t: OrTree) { OrOk(t) && Tokens(text) == Ok(OrSpelled(t)) }

  /** A macro is not in its own replacement list: one that is being expanded is not expanded again. */
  lemma DeeperExpanding(name: string, macros: Macros, expanding: seq<string>)
    requires Expanding(expanding, macros) && name in ObjectNames(macros) && name !in expanding
    ensures Expanding(expanding + [name], macros) && RoomIn(macros, expanding + [name]) < RoomIn(macros, expanding)
  {
    NestingBound(expanding, macros);
  }

  ghost predicate OrHas(t: OrTree, macros: Macros, expanding: seq<string>, v: int)
    requires Expanding(expanding, macros)
    decreases RoomIn(macros, expanding), t
  {
    match t
    case OrOne(a) => AndHas(a, macros, expanding, v)
    case OrMore(l, r) =>
      exists x, y :: OrHas(l, macros, expanding, x) && AndHas(r, macros, expanding, y) && v == Truth(x != 0 || y != 0)
  }

  ghost predicate AndHas(t: AndTree, macros: Macros, expanding: seq<string>, v: int)
    requires Expanding(expanding, macros)
    decreases RoomIn(macros, expanding), t
  {
    match t
    case AndOne(c) => CompareHas(c, macros, expanding, v)
    case AndMore(l, r) =>
      exists x, y :: AndHas(l, macros, expanding, x) && CompareHas(r, macros, expanding, y) && v == Truth(x != 0 && y != 0)
  }

  ghost predicate CompareHas(t: CompareTree, macros: Macros, expanding: seq<string>, v: int)
    requires Expanding(expanding, macros)
    decreases RoomIn(macros, expanding), t
  {
    match t
    case Plain(u) => UnaryHas(u, macros, expanding, v)
    case Comparison(l, op, r) =>
      exists x, y :: UnaryHas(l, macros, expanding, x) && UnaryHas(r, macros, expanding, y) && v == Truth(Compared(op, x, y))
  }

  ghost predicate UnaryHas(t: UnaryTree, macros: Macros, expanding: seq<string>, v: int)
    requires Expanding(expanding, macros)
    decreases RoomIn(macros, expanding), t
  {
    match t
    case Negation(u) => exists x :: UnaryHas(u, macros, expanding, x) && v == Truth(x == 0)
    case Group(o) => OrHas(o, macros, expanding, v)
    case Constant(n) => v == n
    case Defined(s, _) => v == Truth(IsDefined(s, macros))
    case Name(name) =>
      if Predefined(name).Some? then v == Predefined(name).value
      else if name !in macros then v == 0
      else if macros[name].FunctionLike? then false
      else if name in expanding then v == 0
      else
        DeeperExpanding(name, macros, expanding);
        exists o :: IsTree(macros[name].replacement, o) && OrHas(o, macros, expanding + [name], v)
  }

  // ----- The relation is what the grammar means -----

  lemma {:induction false} OrHasMeaning(t: OrTree, macros: Macros, expanding: seq<string>, v: int)
    requires Expanding(expanding, macros)
    ensures OrHas(t, macros, expanding, v) <==> OrMeans(t, macros, expanding) == Ok(v)
    decreases RoomIn(macros, expanding), t
  {
    hide Expanding, AndHas, AndMeans, RoomIn;
    match t
    case OrOne(a) => AndHasMeaning(a, macros, expanding, v);
    case OrMore(l, r) =>
      forall x ensures OrHas(l, macros, expanding, x) <==> OrMeans(l, macros, expanding) == Ok(x) {
        OrHasMeaning(l, macros, expanding, x);
      }
      forall y ensures AndHas(r, macros, expanding, y) <==> AndMeans(r, macros, expanding) == Ok(y) {
        AndHasMeaning(r, macros, expanding, y);
      }
  }

  lemma {:induction false} AndHasMeaning(t: AndTree, macros: Macros, expanding: seq<string>, v: int)
    requires Expanding(expanding, macros)
    ensures AndHas(t, macros, expanding, v) <==> AndMeans(t, macros, expanding) == Ok(v)
    decreases RoomIn(macros, expanding), t
  {
    hide Expanding, CompareHas, CompareMeans, RoomIn;
    match t
    case AndOne(c) => CompareHasMeaning(c, macros, expanding, v);
    case AndMore(l, r) =>
      forall x ensures AndHas(l, macros, expanding, x) <==> AndMeans(l, macros, expanding) == Ok(x) {
        AndHasMeaning(l, macros, expanding, x);
      }
      forall y ensures CompareHas(r, macros, expanding, y) <==> CompareMeans(r, macros, expanding) == Ok(y) {
        CompareHasMeaning(r, macros, expanding, y);
      }
  }

  lemma {:induction false} CompareHasMeaning(t: CompareTree, macros: Macros, expanding: seq<string>, v: int)
    requires Expanding(expanding, macros)
    ensures CompareHas(t, macros, expanding, v) <==> CompareMeans(t, macros, expanding) == Ok(v)
    decreases RoomIn(macros, expanding), t
  {
    hide Expanding, UnaryHas, UnaryMeans, RoomIn;
    match t
    case Plain(u) => UnaryHasMeaning(u, macros, expanding, v);
    case Comparison(l, op, r) =>
      forall x ensures UnaryHas(l, macros, expanding, x) <==> UnaryMeans(l, macros, expanding) == Ok(x) {
        UnaryHasMeaning(l, macros, expanding, x);
      }
      forall y ensures UnaryHas(r, macros, expanding, y) <==> UnaryMeans(r, macros, expanding) == Ok(y) {
        UnaryHasMeaning(r, macros, expanding, y);
      }
  }

  lemma {:induction false} UnaryHasMeaning(t: UnaryTree, macros: Macros, expanding: seq<string>, v: int)
    requires Expanding(expanding, macros)
    ensures UnaryHas(t, macros, expanding, v) <==> UnaryMeans(t, macros, expanding) == Ok(v)
    decreases RoomIn(macros, expanding), t
  {
    hide Expanding, OrHas, OrMeans, RoomIn, NameValue;
    match t
    case Negation(u) =>
      forall x ensures UnaryHas(u, macros, expanding, x) <==> UnaryMeans(u, macros, expanding) == Ok(x) {
        UnaryHasMeaning(u, macros, expanding, x);
      }
    case Group(o) => OrHasMeaning(o, macros, expanding, v);
    case Name(name) => NameHasMeaning(name, macros, expanding, v);
    case _ =>
  }

  lemma {:induction false} NameHasMeaning(name: string, macros: Macros, expanding: seq<string>, v: int)
    requires Expanding(expanding, macros)
    ensures UnaryHas(Name(name), macros, expanding, v) <==> NameValue(name, macros, expanding) == Ok(v)
    decreases RoomIn(macros, expanding), Name(name), 0
  {
    hide OrHas, OrMeans, RoomIn, Evaluate, Tokens, OrOk, OrSpelled;
    if Predefined(name).None? && name in macros && macros[name].ObjectLike? && name !in expanding {
      var text, deeper := macros[name].replacement, expanding + [name];
      DeeperExpanding(name, macros, expanding);
      EvaluateIsGrammar(text, macros, deeper, v);
      forall o ensures OrHas(o, macros, deeper, v) <==> OrMeans(o, macros, deeper) == Ok(v) {
        OrHasMeaning(o, macros, deeper, v);
      }
      assert forall o :: SpellsTree(text, o, macros, deeper, v) <==> IsTree(text, o) && OrHas(o, macros, deeper, v);
    }
  }

  /** The reader gives a text the value `v` if and only if the text is a tree that has the value. */
  lemma EvaluateIsMeaning(text: string, macros: Macros, v: int)
    ensures Evaluate(text, macros, []) == Ok(v) <==> exists t :: IsTree(text, t) && OrHas(t, macros, [], v)
  {
    hide OrHas, OrMeans, Evaluate, Tokens, OrOk, OrSpelled;
    EvaluateIsGrammar(text, macros, [], v);
    forall t ensures OrHas(t, macros, [], v) <==> OrMeans(t, macros, []) == Ok(v) {
      OrHasMeaning(t, macros, [], v);
    }
    assert forall t :: SpellsTree(text, t, macros, [], v) <==> IsTree(text, t) && OrHas(t, macros, [], v);
  }
}
