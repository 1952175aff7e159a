/** Section 6.10.1 of ISO/IEC 9899:2018 (Conditional inclusion) as a recursion over the tree of
    conditionals, and the proof that the flat machine computes it. */
module PreprocessGroups {
  import opened Wrappers
  import opened Text
  import opened Preprocess

  /** A sequence of plain lines and conditionals. A conditional is the groups that its opening
      line and its `#elif` and `#else` lines start, and the line that closes it. */
  datatype Items =
    | Nothing
    | Plain(line: Line, rest: Items)
    | Conditional(groups: Groups, close: Line, rest: Items)

  datatype Groups = NoGroup | Group(head: Line, body: Items, others: Groups)

  predicate IsPlain(line: Line) {
    var d := DirectiveOf(line.text);
    !Opens(d) && !d.Elif? && !d.Else? && !d.Endif?
  }

  predicate IsBranch(line: Line) {
    var d := DirectiveOf(line.text);
    d.Elif? || d.Else?
  }

  predicate ItemsOk(t: Items) {
    match t
    case Nothing => true
    case Plain(line, rest) => IsPlain(line) && ItemsOk(rest)
    case Conditional(g, close, rest) =>
      && g.Group? && Opens(DirectiveOf(g.head.text)) && ItemsOk(g.body) && BranchesOk(g.others)
      && DirectiveOf(close.text).Endif? && ItemsOk(rest)
  }

  /** The groups after the first. */
  predicate BranchesOk(g: Groups) {
    match g
    case NoGroup => true
    case Group(head, body, others) => IsBranch(head) && ItemsOk(body) && BranchesOk(others)
  }

  // ----- The lines of a tree -----

  function Flat(t: Items): seq<Line> {
    match t
    case Nothing => []
    case Plain(line, rest) => [line] + Flat(rest)
    case Conditional(g, close, rest) => FlatGroups(g) + [close] + Flat(rest)
  }

  function FlatGroups(g: Groups): seq<Line> {
    match g
    case NoGroup => []
    case Group(head, body, others) => [head] + Flat(body) + FlatGroups(others)
  }

  // ----- The meaning of a tree -----

  /** Only the line breaks of some lines. */
  function Blank(lines: seq<Line>): string {
    if lines == [] then "" else Breaks(lines[0]) + Blank(lines[1..])
  }

  /** What is kept of a processed group, and the macros after it. */
  function Kept(t: Items, macros: Macros): Result<(string, Macros), Error>
    requires ItemsOk(t)
  {
    match t
    case Nothing => Ok(("", macros))
    case Plain(line, rest) =>
      (match Processed(line, macros)
       case Err(p) => Err(Error(line.number, p))
       case Ok((text, after)) => Then(text + Breaks(line), Kept(rest, after)))
    case Conditional(g, close, rest) =>
      (match KeptGroups(g, macros)
       case Err(e) => Err(e)
       case Ok((text, after)) => Then(text + Breaks(close), Kept(rest, after)))
  }

  /** Of a conditional, the first group whose test holds; an `#else` always holds. The groups
      before it and after it are skipped, and the tests after it are not made. */
  function KeptGroups(g: Groups, macros: Macros): Result<(string, Macros), Error>
    requires g.Group? ==> Opens(DirectiveOf(g.head.text)) || IsBranch(g.head)
    requires g.Group? ==> ItemsOk(g.body) && BranchesOk(g.others)
  {
    match g
    case NoGroup => Ok(("", macros))
    case Group(head, body, others) =>
      match Enters(DirectiveOf(head.text), macros)
      case Err(p) => Err(Error(head.number, p))
      case Ok(true) =>
        (match Kept(body, macros)
         case Err(e) => Err(e)
         case Ok((text, after)) => Ok((Breaks(head) + text + Blank(FlatGroups(others)), after)))
      case Ok(false) => Then(Breaks(head) + Blank(Flat(body)), KeptGroups(others, macros))
  }

  function Then(text: string, more: Result<(string, Macros), Error>): Result<(string, Macros), Error> {
    match more case Ok((t, m)) => Ok((text + t, m)) case Err(e) => Err(e)
  }

  /** The text kept of a whole header. */
  function KeptText(t: Items): Result<string, Error>
    requires ItemsOk(t)
  {
    match Kept(t, map[]) case Ok((text, _)) => Ok(text) case Err(e) => Err(e)
  }

  // ----- The machine on the lines of a tree -----

  /** Goes on with `more` once a part of the lines was `done` within the open conditionals. */
  function Resume(s: State, done: Result<(string, Macros), Error>, more: seq<Line>): Result<string, Error> {
    match done
    case Ok((text, macros)) => Run(State(s.out + text, macros, s.stack), more)
    case Err(e) => Err(e)
  }

  /** A part `done` after some text. */
  lemma ResumeThen(s: State, text: string, done: Result<(string, Macros), Error>, more: seq<Line>)
    ensures Resume(s.(out := s.out + text), done, more) == Resume(s, Then(text, done), more)
  {
    if done.Ok? {
      assert (s.out + text) + done.value.0 == s.out + (text + done.value.0);
    }
  }

  function Skipped(s: State, lines: seq<Line>): State { s.(out := s.out + Blank(lines)) }

  lemma BlankAppend(a: seq<Line>, b: seq<Line>)
    ensures Blank(a + b) == Blank(a) + Blank(b)
  {
    if a == [] {
      assert a + b == b;
    } else {
      assert (a + b)[1..] == a[1..] + b;
      BlankAppend(a[1..], b);
    }
  }

  lemma SkippedAppend(s: State, a: seq<Line>, b: seq<Line>)
    ensures Skipped(Skipped(s, a), b) == Skipped(s, a + b)
  {
    BlankAppend(a, b);
    assert (s.out + Blank(a)) + Blank(b) == s.out + (Blank(a) + Blank(b));
  }

  lemma BlankOne(line: Line)
    ensures Blank([line]) == Breaks(line)
  {
    assert [line][1..] == [];
  }

  /** The line that closes a conditional pops it, whatever became of its groups. */
  lemma RunClose(s: State, base: seq<Preprocess.Conditional>, top: Preprocess.Conditional, close: Line, more: seq<Line>)
    requires s.stack == base + [top] && DirectiveOf(close.text).Endif?
    ensures Run(s, [close] + more) == Run(Skipped(s, [close]).(stack := base), more)
  {
    hide Run, DirectiveOf;
    RunStep(s, close, more);
    BlankOne(close);
  }

  lemma SkipJoins(s: State, head: Line, inside: seq<Preprocess.Conditional>, body: seq<Line>, tail: seq<Line>)
    ensures var inner := Skipped(s, [head]).(stack := inside);
            Skipped(Skipped(inner, body), tail) == Skipped(s, [head] + (body + tail)).(stack := inside)
  {
    hide Blank;
    SkippedAppend(Skipped(s, [head]), body, tail);
    SkippedAppend(s, [head], body + tail);
    SkippedAppend(Skipped(s, [head]).(stack := inside), body, tail);
  }

  /** A skipped group leaves its line breaks. */
  lemma {:induction false} RunSkipped(s: State, t: Items, more: seq<Line>)
    requires ItemsOk(t) && !Active(s.stack)
    ensures Run(s, Flat(t) + more) == Run(Skipped(s, Flat(t)), more)
    decreases t
  {
    hide Run, DirectiveOf, Processed, Enters, Breaks, Blank;
    match t
    case Nothing =>
      assert [] + more == more;
      SkippedNone(s);
    case Plain(line, rest) =>
      RunStep(s, line, Flat(rest) + more);
      assert Flat(t) + more == [line] + (Flat(rest) + more);
      BlankOne(line);
      RunSkipped(Skipped(s, [line]), rest, more);
      SkippedAppend(s, [line], Flat(rest));
    case Conditional(g, close, rest) =>
      var lines := FlatGroups(g) + [close];
      assert Flat(t) + more == lines + (Flat(rest) + more);
      RunSkippedGroups(s, g, close, Flat(rest) + more);
      RunSkipped(Skipped(s, lines), rest, more);
      SkippedAppend(s, lines, Flat(rest));
  }

  lemma {:induction false} RunSkippedGroups(s: State, g: Groups, close: Line, more: seq<Line>)
    requires g.Group? && Opens(DirectiveOf(g.head.text)) && ItemsOk(g.body) && BranchesOk(g.others)
    requires DirectiveOf(close.text).Endif? && !Active(s.stack)
    ensures Run(s, FlatGroups(g) + [close] + more) == Run(Skipped(s, FlatGroups(g) + [close]), more)
    decreases g
  {
    hide Run, DirectiveOf, Processed, Enters, Breaks, Blank;
    var tail := FlatGroups(g.others) + [close];
    var after := tail + more;
    assert FlatGroups(g) + [close] == [g.head] + (Flat(g.body) + tail);
    assert FlatGroups(g) + [close] + more == [g.head] + (Flat(g.body) + after);
    RunStep(s, g.head, Flat(g.body) + after);
    BlankOne(g.head);
    var top := Preprocess.Conditional(false, true);
    var inner := Skipped(s, [g.head]).(stack := s.stack + [top]);
    RunSkipped(inner, g.body, after);
    RunTaken(Skipped(inner, Flat(g.body)), s.stack, top, g.others, close, more);
    SkipJoins(s, g.head, inner.stack, Flat(g.body), tail);
  }

  lemma SkippedNone(s: State)
    ensures Skipped(s, []) == s
  {
    assert s.out + "" == s.out;
  }

  /** Once a group was taken, or none may be, the groups that follow are skipped. */
  lemma {:induction false} RunTaken(
      s: State, base: seq<Preprocess.Conditional>, top: Preprocess.Conditional, g: Groups, close: Line, more: seq<Line>)
    requires s.stack == base + [top] && top.taken && BranchesOk(g) && DirectiveOf(close.text).Endif?
    ensures Run(s, FlatGroups(g) + [close] + more) == Run(Skipped(s, FlatGroups(g) + [close]).(stack := base), more)
    decreases g
  {
    hide Run, DirectiveOf, Processed, Enters, Breaks, Blank;
    match g
    case NoGroup =>
      assert [] + [close] + more == [close] + more && [] + [close] == [close];
      RunClose(s, base, top, close, more);
    case Group(head, body, others) =>
      var after := FlatGroups(others) + [close] + more;
      assert FlatGroups(g) + [close] + more == [head] + (Flat(body) + after);
      RunStep(s, head, Flat(body) + after);
      BlankOne(head);
      var shut := Preprocess.Conditional(false, true);
      var inner := Skipped(s, [head]).(stack := base + [shut]);
      assert s.stack[|base| := shut] == base + [shut];
      assert inner.stack[|base|] == shut;
      RunSkipped(inner, body, after);
      RunTaken(Skipped(inner, Flat(body)), base, shut, others, close, more);
      SkipJoins(s, head, inner.stack, Flat(body), FlatGroups(others) + [close]);
      assert [head] + (Flat(body) + (FlatGroups(others) + [close])) == FlatGroups(g) + [close];
  }

  /** A processed group. */
  lemma {:induction false} RunKept(s: State, t: Items, more: seq<Line>)
    requires ItemsOk(t) && Active(s.stack)
    ensures Run(s, Flat(t) + more) == Resume(s, Kept(t, s.macros), more)
    decreases t, 0
  {
    hide Run, DirectiveOf, Processed, Enters, Breaks, Blank;
    match t
    case Nothing =>
      assert [] + more == more && s.out + "" == s.out;
    case Plain(line, rest) =>
      RunStep(s, line, Flat(rest) + more);
      assert Flat(t) + more == [line] + (Flat(rest) + more);
      if Processed(line, s.macros).Ok? {
        var (text, after) := Processed(line, s.macros).value;
        var next := State(s.out + (text + Breaks(line)), after, s.stack);
        assert s.out + text + Breaks(line) == next.out;
        RunKept(next, rest, more);
        ResumeThen(s.(macros := after), text + Breaks(line), Kept(rest, after), more);
      }
    case Conditional(g, close, rest) =>
      assert Flat(t) + more == FlatGroups(g) + [close] + (Flat(rest) + more);
      RunGroups(s, s.stack, g, close, Flat(rest) + more);
      if KeptGroups(g, s.macros).Ok? {
        var (text, after) := KeptGroups(g, s.macros).value;
        var next := State(s.out + (text + Breaks(close)), after, s.stack);
        assert s.out + text + Breaks(close) == next.out;
        RunKept(next, rest, more);
        ResumeThen(s.(macros := after), text + Breaks(close), Kept(rest, after), more);
      }
  }

  /** The state after a line that tests whether its group is entered: the first line of a
      conditional, or a later one of which no group was taken. */
  ghost predicate Tests(s: State, base: seq<Preprocess.Conditional>, head: Line) {
    && Active(base)
    && (|| (s.stack == base && Opens(DirectiveOf(head.text)))
        || (s.stack == base + [Preprocess.Conditional(false, false)] && IsBranch(head)))
  }

  lemma RunHead(s: State, base: seq<Preprocess.Conditional>, head: Line, more: seq<Line>)
    requires Tests(s, base, head)
    ensures var entered := Enters(DirectiveOf(head.text), s.macros);
            Run(s, [head] + more)
            == if entered.Err? then Err(Error(head.number, entered.error))
               else
                 var top := Preprocess.Conditional(entered.value, entered.value);
                 Run(Skipped(s, [head]).(stack := base + [top]), more)
  {
    hide Run, DirectiveOf, IfHolds, NameDefined, Breaks, Blank;
    RunStep(s, head, more);
    BlankOne(head);
    if s.stack != base {
      assert s.stack[|base|] == Preprocess.Conditional(false, false);
      assert forall top :: s.stack[|base| := top] == base + [top];
    }
  }

  /** The groups of a conditional in a processed group, from its first group or from a later
      one when none was taken yet. */
  lemma {:induction false} RunGroups(
      s: State, base: seq<Preprocess.Conditional>, g: Groups, close: Line, more: seq<Line>)
    requires Active(base) && DirectiveOf(close.text).Endif?
    requires g.Group? ==> Tests(s, base, g.head) && ItemsOk(g.body) && BranchesOk(g.others)
    requires g.NoGroup? ==> s.stack == base + [Preprocess.Conditional(false, false)]
    ensures Run(s, FlatGroups(g) + [close] + more)
         == match KeptGroups(g, s.macros)
            case Ok((text, after)) => Run(State(s.out + text + Breaks(close), after, base), more)
            case Err(e) => Err(e)
    decreases g, 1
  {
    hide Run, DirectiveOf, Step, Enters, Breaks, Blank;
    match g
    case NoGroup =>
      assert [] + [close] + more == [close] + more && s.out + "" == s.out;
      RunClose(s, base, Preprocess.Conditional(false, false), close, more);
      BlankOne(close);
    case Group(head, body, others) =>
      var after := FlatGroups(others) + [close] + more;
      assert FlatGroups(g) + [close] + more == [head] + (Flat(body) + after);
      RunHead(s, base, head, Flat(body) + after);
      BlankOne(head);
      var entered := Enters(DirectiveOf(head.text), s.macros);
      if entered.Ok? {
        var top := Preprocess.Conditional(entered.value, entered.value);
        var inner := Skipped(s, [head]).(stack := base + [top]);
        if entered.value {
          RunEntered(inner, base, body, others, close, more);
          if Kept(body, s.macros).Ok? {
            var text := Kept(body, s.macros).value.0;
            assert inner.out + text + Blank(FlatGroups(others)) + Breaks(close)
                == s.out + (Breaks(head) + text + Blank(FlatGroups(others))) + Breaks(close);
          }
        } else {
          assert inner.stack[|base|] == top;
          RunSkipped(inner, body, after);
          RunGroups(Skipped(inner, Flat(body)), base, others, close, more);
          if KeptGroups(others, s.macros).Ok? {
            var text := KeptGroups(others, s.macros).value.0;
            assert inner.out + Blank(Flat(body)) + text + Breaks(close)
                == s.out + (Breaks(head) + Blank(Flat(body)) + text) + Breaks(close);
          }
        }
      }
  }

  lemma {:induction false} RunEntered(
      s: State, base: seq<Preprocess.Conditional>, body: Items, others: Groups, close: Line, more: seq<Line>)
    requires Active(base) && s.stack == base + [Preprocess.Conditional(true, true)]
    requires ItemsOk(body) && BranchesOk(others) && DirectiveOf(close.text).Endif?
    ensures Run(s, Flat(body) + (FlatGroups(others) + [close] + more))
         == match Kept(body, s.macros)
            case Ok((text, after)) =>
              Run(State(s.out + text + Blank(FlatGroups(others)) + Breaks(close), after, base), more)
            case Err(e) => Err(e)
    decreases body, 2
  {
    hide Run, DirectiveOf, Processed, Enters, Breaks, Blank;
    RunKept(s, body, FlatGroups(others) + [close] + more);
    if Kept(body, s.macros).Ok? {
      var (text, after) := Kept(body, s.macros).value;
      var next := State(s.out + text, after, s.stack);
      RunTaken(next, base, Preprocess.Conditional(true, true), others, close, more);
      BlankAppend(FlatGroups(others), [close]);
      BlankOne(close);
      assert next.out + (Blank(FlatGroups(others)) + Breaks(close))
          == s.out + text + Blank(FlatGroups(others)) + Breaks(close);
    }
  }

  // ----- Every sequence of lines -----

  /** The number of open conditionals after a line, if it closes or continues none that is not
      open. */
  function Deeper(d: Directive, depth: nat): Option<nat> {
    if Opens(d) then Some(depth + 1)
    else if (d.Elif? || d.Else? || d.Endif?) && depth == 0 then None
    else if d.Endif? then Some(depth - 1)
    else Some(depth)
  }

  function Depth(lines: seq<Line>, depth: nat): Option<nat> {
    if lines == [] then Some(depth)
    else match Deeper(DirectiveOf(lines[0].text), depth)
      case Some(next) => Depth(lines[1..], next)
      case None => None
  }

  /** That every conditional is opened before it is continued or closed, and is closed. */
  predicate ProperlyNested(lines: seq<Line>) { Depth(lines, 0) == Some(0) }

  lemma StepDepth(s: State, line: Line)
    ensures Step(s, line).Ok? ==> Deeper(DirectiveOf(line.text), |s.stack|) == Some(|Step(s, line).value.stack|)
  {
    hide DirectiveOf, Processed, Enters;
  }

  /** The machine accepts no other sequence of lines. */
  lemma {:induction false} RunOnlyNested(s: State, lines: seq<Line>)
    ensures Run(s, lines).Ok? ==> Depth(lines, |s.stack|) == Some(0)
    decreases |lines|
  {
    hide Step, Deeper;
    if lines != [] {
      StepDepth(s, lines[0]);
      assert Run(s, lines) == Continue(Step(s, lines[0]), lines[0].number, lines[1..]);
      if Step(s, lines[0]).Ok? {
        RunOnlyNested(Step(s, lines[0]).value, lines[1..]);
      }
    }
  }

  /** The items at the start of some lines, and the lines from the first one on that continues
      or closes a conditional around them. */
  lemma {:induction false} ParseItems(lines: seq<Line>, depth: nat) returns (t: Items, rest: seq<Line>)
    requires Depth(lines, depth) == Some(0)
    ensures ItemsOk(t) && lines == Flat(t) + rest && |rest| <= |lines|
    ensures Depth(rest, depth) == Some(0)
    ensures rest != [] ==> var d := DirectiveOf(rest[0].text); d.Elif? || d.Else? || d.Endif?
    decreases |lines|, 1
  {
    hide DirectiveOf;
    if lines == [] || IsBranch(lines[0]) || DirectiveOf(lines[0].text).Endif? {
      t, rest := Nothing, lines;
      assert [] + lines == lines;
    } else if Opens(DirectiveOf(lines[0].text)) {
      var body, afterBody := ParseItems(lines[1..], depth + 1);
      var others, afterGroups := ParseBranches(afterBody, depth + 1);
      var after;
      after, rest := ParseItems(afterGroups[1..], depth);
      var g := Group(lines[0], body, others);
      t := Items.Conditional(g, afterGroups[0], after);
      FlatConditional(lines, g, afterGroups, after, rest);
    } else {
      var after;
      after, rest := ParseItems(lines[1..], depth);
      t := Plain(lines[0], after);
      assert lines == [lines[0]] + (Flat(after) + rest);
    }
  }

  lemma FlatConditional(lines: seq<Line>, g: Groups, afterGroups: seq<Line>, after: Items, rest: seq<Line>)
    requires lines != [] && afterGroups != [] && g.Group? && lines[0] == g.head
    requires lines[1..] == Flat(g.body) + (FlatGroups(g.others) + afterGroups)
    requires afterGroups[1..] == Flat(after) + rest
    ensures lines == Flat(Items.Conditional(g, afterGroups[0], after)) + rest
  {
    var head, body, others, close := [g.head], Flat(g.body), FlatGroups(g.others), [afterGroups[0]];
    Regroup(head, body, others, close + (Flat(after) + rest));
    Regroup(FlatGroups(g), close, Flat(after), rest);
    assert afterGroups == close + (Flat(after) + rest);
    assert lines == head + lines[1..];
  }

  lemma Regroup<T>(a: seq<T>, b: seq<T>, c: seq<T>, d: seq<T>)
    ensures a + (b + (c + d)) == a + b + c + d == (a + b + c) + d
    ensures a + (b + (c + d)) == a + (b + c + d)
    ensures a + (b + (c + d)) == (a + b) + (c + d)
  {
  }

  /** The groups after the first, up to the line that closes the conditional. */
  lemma {:induction false} ParseBranches(lines: seq<Line>, depth: nat) returns (g: Groups, rest: seq<Line>)
    requires depth > 0 && Depth(lines, depth) == Some(0)
    requires lines != [] ==> var d := DirectiveOf(lines[0].text); d.Elif? || d.Else? || d.Endif?
    ensures BranchesOk(g) && lines == FlatGroups(g) + rest && 0 < |rest| <= |lines|
    ensures DirectiveOf(rest[0].text).Endif? && Depth(rest[1..], depth - 1) == Some(0)
    decreases |lines|, 0
  {
    hide DirectiveOf;
    if DirectiveOf(lines[0].text).Endif? {
      g, rest := NoGroup, lines;
      assert [] + lines == lines;
    } else {
      var body, afterBody := ParseItems(lines[1..], depth);
      var others;
      others, rest := ParseBranches(afterBody, depth);
      g := Group(lines[0], body, others);
      Regroup([lines[0]], Flat(body), FlatGroups(others), rest);
      assert lines == [lines[0]] + lines[1..];
    }
  }

  // ----- The agreement -----

  /** On the lines of a tree the flat machine is the recursive evaluation of the tree. */
  lemma MachineIsTree(t: Items)
    requires ItemsOk(t)
    ensures Run(Start, Flat(t)) == KeptText(t)
  {
    RunKept(Start, t, []);
    assert Flat(t) + [] == Flat(t);
    if Kept(t, map[]).Ok? {
      assert "" + Kept(t, map[]).value.0 == Kept(t, map[]).value.0;
    }
  }

  /** The preprocessor accepts a sequence of lines and keeps `out` of it if and only if the lines
      are those of a tree of conditionals whose evaluation keeps `out`. */
  lemma PreprocessIsConditionalInclusion(lines: seq<Line>, out: string)
    ensures Run(Start, lines) == Ok(out) <==> exists t :: ItemsOk(t) && Flat(t) == lines && KeptText(t) == Ok(out)
  {
    if Run(Start, lines) == Ok(out) {
      RunOnlyNested(Start, lines);
      var t := NestedIsTree(lines);
      MachineIsTree(t);
    }
    forall t | ItemsOk(t) && Flat(t) == lines && KeptText(t) == Ok(out)
      ensures Run(Start, lines) == Ok(out)
    {
      MachineIsTree(t);
    }
  }

  /** Properly nested lines are the lines of a tree. */
  lemma NestedIsTree(lines: seq<Line>) returns (t: Items)
    requires ProperlyNested(lines)
    ensures ItemsOk(t) && Flat(t) == lines
  {
    var rest;
    t, rest := ParseItems(lines, 0);
    assert rest == [];
    assert Flat(t) + [] == Flat(t);
  }

  // ----- Line breaks -----

  predicate OneLine(line: Line) { '\n' !in line.text }

  function TotalBreaks(lines: seq<Line>): nat {
    if lines == [] then 0 else lines[0].breaks + TotalBreaks(lines[1..])
  }

  /** Each step writes as many line breaks as its line came from. */
  lemma {:induction false} RunBreaks(s: State, lines: seq<Line>)
    requires forall k :: 0 <= k < |lines| ==> OneLine(lines[k])
    ensures Run(s, lines).Ok? ==> Count(Run(s, lines).value, '\n') == Count(s.out, '\n') + TotalBreaks(lines)
    decreases |lines|
  {
    hide DirectiveOf, Enters, Nested;
    if lines != [] && Step(s, lines[0]).Ok? {
      var line, next := lines[0], Step(s, lines[0]).value;
      RunBreaks(next, lines[1..]);
      CountRepeat('\n', line.breaks);
      CountAppend(s.out, Breaks(line), '\n');
      if next.out != s.out + Breaks(line) {
        var text := Processed(line, s.macros).value.0;
        CountAbsent(text, '\n');
        CountAppend(s.out, text, '\n');
        CountAppend(s.out + text, Breaks(line), '\n');
      }
    }
  }

  lemma {:induction false} SplicedBreaks(lines: seq<string>, at: nat)
    requires at <= |lines| && forall k :: 0 <= k < |lines| ==> '\n' !in lines[k]
    ensures TotalBreaks(Spliced(lines, at)) == |lines| - at
    ensures forall k :: 0 <= k < |Spliced(lines, at)| ==> OneLine(Spliced(lines, at)[k])
    decreases |lines| - at
  {
    if at < |lines| {
      var end := Splice(lines, at + 1, lines[at]).1;
      SpliceOneLine(lines, at + 1, lines[at]);
      SplicedBreaks(lines, end);
      assert Spliced(lines, at)[1..] == Spliced(lines, end);
    }
  }

  lemma {:induction false} SpliceOneLine(lines: seq<string>, at: nat, text: string)
    requires at <= |lines| && '\n' !in text && forall k :: 0 <= k < |lines| ==> '\n' !in lines[k]
    ensures '\n' !in Splice(lines, at, text).0
    decreases |lines| - at
  {
    if text != [] && text[|text| - 1] == '\\' && at < |lines| {
      SpliceOneLine(lines, at + 1, text[..|text| - 1] + lines[at]);
    }
  }

  /** What is kept of a text has one line break for each of its lines, so positions stay
      meaningful. */
  lemma OneBreakPerLine(text: string)
    ensures var r := Run(Start, Spliced(Lines(text)));
            r.Ok? ==> Count(r.value, '\n') == |Lines(text)|
  {
    SplicedBreaks(Lines(text), 0);
    RunBreaks(Start, Spliced(Lines(text)));
  }
}
