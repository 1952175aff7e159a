/** The preprocessor of the C header reader: a flat machine over lines with a stack of open
    conditionals and a table of macros. */
module Preprocess {
  import opened Wrappers
  import opened Text
  import Condition
  import ConditionReader

  type Macros = Condition.Macros

  datatype Problem =
    | BadCondition(cause: Condition.Error)
    | NotOneMacroName
    | NoOpenIf
    | ErrorDirective
    | NeverClosed

  /** A reason, and the number of the line it was found on; a conditional that is never closed
      has no line. */
  datatype Error = Error(line: nat, problem: Problem)

  // ----- Lines -----

  /** A line after its continuations were spliced on: the number of its first line, its text,
      and how many lines it came from. */
  datatype Line = Line(number: nat, text: string, breaks: nat)

  /** The text and the end of the line that starts at `lines[at]`, given what was spliced so
      far: while it ends in a backslash, the next line replaces the backslash. */
  function Splice(lines: seq<string>, at: nat, text: string): (r: (string, nat))
    requires at <= |lines|
    ensures at <= r.1 <= |lines|
    decreases |lines| - at
  {
    if text == [] || text[|text| - 1] != '\\' then (text, at)
    else if at == |lines| then (text[..|text| - 1], at)
    else Splice(lines, at + 1, text[..|text| - 1] + lines[at])
  }

  /** The spliced lines from `lines[at]` on. */
  function Spliced(lines: seq<string>, at: nat := 0): seq<Line>
    requires at <= |lines|
    decreases |lines| - at
  {
    if at == |lines| then []
    else
      var (text, end) := Splice(lines, at + 1, lines[at]);
      [Line(at + 1, text, end - at)] + Spliced(lines, end)
  }

  function Breaks(line: Line): string { Repeat('\n', line.breaks) }

  // ----- Directives -----

  datatype Directive =
    | Code
    | If(rest: string)
    | Ifdef(rest: string)
    | Ifndef(rest: string)
    | Elif(rest: string)
    | Else
    | Endif
    | Define(rest: string)
    | Undef(rest: string)
    | ErrorLine
    | Other

  /** One line without its comments, each block comment a space. */
  function StripComments(s: string, at: nat := 0): string
    requires at <= |s|
    decreases |s| - at
  {
    var line, block := Find(s, "//", at), Find(s, "/*", at);
    if line.Some? && (block.None? || line.value < block.value) then s[at..line.value]
    else if block.Some? then
      match Find(s, "*/", block.value + 2)
      case Some(close) => s[at..block.value] + " " + StripComments(s, close + 2)
      case None => s[at..block.value] + " "
    else s[at..]
  }

  function DirectiveOf(text: string): Directive {
    var start := TrimStart(text);
    if start == [] || start[0] != '#' then Code
    else
      var directive := Trim(StripComments(start[1..]));
      var at := FindSpace(directive);
      var word := directive[..at];
      var rest := if at < |directive| then Trim(directive[at + 1..]) else "";
      if word == "if" then If(rest)
      else if word == "ifdef" then Ifdef(rest)
      else if word == "ifndef" then Ifndef(rest)
      else if word == "elif" then Elif(rest)
      else if word == "else" then Else
      else if word == "endif" then Endif
      else if word == "define" then Define(rest)
      else if word == "undef" then Undef(rest)
      else if word == "error" then ErrorLine
      else Other
  }

  function MacroName(rest: string): Result<string, Problem> {
    var words := SplitWhitespace(rest);
    if |words| == 1 && IsIdentifier(words[0]) then Ok(words[0]) else Err(NotOneMacroName)
  }

  /** The macros after a `#define` of `rest`. */
  function Defined(rest: string, macros: Macros): Macros {
    var at := FindSpace(rest);
    var name := rest[..at];
    var value := if at < |rest| then Trim(rest[at + 1..]) else "";
    var open := FindChar(name, '(');
    if open < |name| then macros[name[..open] := Condition.FunctionLike]
    else macros[name := Condition.ObjectLike(value)]
  }

  function IfHolds(rest: string, macros: Macros): Result<bool, Problem> {
    match Condition.Holds(rest, macros) case Ok(b) => Ok(b) case Err(e) => Err(BadCondition(e))
  }

  function NameDefined(rest: string, macros: Macros): Result<bool, Problem> {
    match MacroName(rest) case Ok(name) => Ok(Condition.IsDefined(name, macros)) case Err(p) => Err(p)
  }

  predicate Opens(d: Directive) { d.If? || d.Ifdef? || d.Ifndef? }

  /** Whether the group a line opens is entered, when it is tested at all. */
  function Enters(d: Directive, macros: Macros): Result<bool, Problem>
    requires Opens(d) || d.Elif? || d.Else?
  {
    match d
    case If(rest) => IfHolds(rest, macros)
    case Elif(rest) => IfHolds(rest, macros)
    case Ifdef(rest) => NameDefined(rest, macros)
    case Ifndef(rest) =>
      (match NameDefined(rest, macros) case Ok(b) => Ok(!b) case Err(p) => Err(p))
    case _ => Ok(true)
  }

  /** What a line of a processed group that opens, continues and closes no conditional does to
      the text and the macros. */
  function Processed(line: Line, macros: Macros): Result<(string, Macros), Problem> {
    match DirectiveOf(line.text)
    case Code => Ok((line.text, macros))
    case Define(rest) => Ok(("", Defined(rest, macros)))
    case Undef(rest) =>
      (match MacroName(rest) case Ok(name) => Ok(("", macros - {name})) case Err(p) => Err(p))
    case ErrorLine => Err(ErrorDirective)
    case _ => Ok(("", macros))
  }

  // ----- The flat machine -----

  /** One open conditional: whether its current group is processed, and whether one of its
      groups already was, or none may be because it stands in a skipped group. */
  datatype Conditional = Conditional(current: bool, taken: bool)

  datatype State = State(out: string, macros: Macros, stack: seq<Conditional>)

  predicate Active(stack: seq<Conditional>) {
    forall open :: open in stack ==> open.current
  }

  /** The open conditionals after a directive that opens, continues or closes one. A test is
      made only when the group may still be processed. */
  function Nested(d: Directive, macros: Macros, stack: seq<Conditional>): Result<seq<Conditional>, Problem>
    requires Opens(d) || d.Elif? || d.Else? || d.Endif?
  {
    var top := |stack| - 1;
    if Opens(d) then
      if !Active(stack) then Ok(stack + [Conditional(false, true)])
      else (match Enters(d, macros)
            case Ok(current) => Ok(stack + [Conditional(current, current)])
            case Err(p) => Err(p))
    else if top < 0 then Err(NoOpenIf)
    else if d.Endif? then Ok(stack[..top])
    else if d.Else? then Ok(stack[top := Conditional(!stack[top].taken, true)])
    else if stack[top].taken then Ok(stack[top := Conditional(false, true)])
    else match Enters(d, macros)
      case Ok(current) => Ok(stack[top := Conditional(current, current)])
      case Err(p) => Err(p)
  }

  function Step(s: State, line: Line): Result<State, Problem> {
    var d := DirectiveOf(line.text);
    if Opens(d) || d.Elif? || d.Else? || d.Endif? then
      match Nested(d, s.macros, s.stack)
      case Ok(stack) => Ok(State(s.out + Breaks(line), s.macros, stack))
      case Err(p) => Err(p)
    else if Active(s.stack) then
      match Processed(line, s.macros)
      case Ok((text, macros)) => Ok(State(s.out + text + Breaks(line), macros, s.stack))
      case Err(p) => Err(p)
    else Ok(s.(out := s.out + Breaks(line)))
  }

  /** What the machine makes of the lines that remain. */
  function Run(s: State, lines: seq<Line>): Result<string, Error>
    decreases |lines|, 0
  {
    if lines == [] then if s.stack == [] then Ok(s.out) else Err(Error(0, NeverClosed))
    else Continue(Step(s, lines[0]), lines[0].number, lines[1..])
  }

  /** What the machine makes of `more` after a step over line `number`. */
  function Continue(step: Result<State, Problem>, number: nat, more: seq<Line>): Result<string, Error>
    decreases |more|, 1
  {
    match step
    case Ok(s) => Run(s, more)
    case Err(p) => Err(Error(number, p))
  }

  const Start: State := State("", map[], [])

  /** The line that starts at `lines[at]`, its continuations spliced on, and the index after it. */
  method SpliceLine(lines: seq<string>, at: nat) returns (line: string, next: nat)
    requires at < |lines|
    ensures at < next <= |lines|
    ensures (line, next) == Splice(lines, at + 1, lines[at])
  {
    line, next := lines[at], at + 1;
    while line != [] && line[|line| - 1] == '\\'
      invariant at < next <= |lines|
      invariant Splice(lines, at + 1, lines[at]) == Splice(lines, next, line)
      decreases |lines| - next
    {
      line := line[..|line| - 1];
      if next == |lines| { return; }
      line := line + lines[next];
      next := next + 1;
    }
  }

  /** Whether the group that an `#if`, `#ifdef`, `#ifndef` or `#elif` opens is entered. */
  method Test(d: Directive, macros: Macros) returns (r: Result<bool, Problem>)
    requires Opens(d) || d.Elif?
    ensures r == Enters(d, macros)
  {
    if d.If? || d.Elif? {
      var holds := ConditionReader.ReadCondition(d.rest, macros);
      match holds {
        case Ok(b) => return Ok(b);
        case Err(e) => return Err(BadCondition(e));
      }
    }
    r := NameDefined(d.rest, macros);
    if d.Ifndef? && r.Ok? { r := Ok(!r.value); }
  }

  /** The open conditionals after a directive that opens, continues or closes one. */
  method Nest(d: Directive, macros: Macros, stack: seq<Conditional>) returns (r: Result<seq<Conditional>, Problem>)
    requires Opens(d) || d.Elif? || d.Else? || d.Endif?
    ensures r == Nested(d, macros, stack)
  {
    if Opens(d) {
      var active := Active(stack);
      var current := Ok(false);
      if active { current := Test(d, macros); }
      if current.Err? { return Err(current.error); }
      return Ok(stack + [Conditional(current.value, current.value || !active)]);
    }
    if stack == [] { return Err(NoOpenIf); }
    var top := |stack| - 1;
    match d {
      case Endif =>
        return Ok(stack[..top]);
      case Else =>
        return Ok(stack[top := Conditional(!stack[top].taken, true)]);
      case Elif(_) =>
        if stack[top].taken {
          return Ok(stack[top := Conditional(false, true)]);
        }
        var current := Test(d, macros);
        if current.Err? { return Err(current.error); }
        return Ok(stack[top := Conditional(current.value, current.value)]);
    }
  }

  /** Drops the preprocessor lines and the skipped groups of a header's lines. */
  method Preprocess(lines: seq<string>) returns (r: Result<string, Error>)
    ensures r == Run(Start, Spliced(lines))
  {
    hide Spliced, Splice, DirectiveOf, Nested, Processed, Run, Active, Breaks;
    var out: string := "";
    var macros: Macros := map[];
    var stack: seq<Conditional> := [];
    var next := 0;
    while next < |lines|
      invariant next <= |lines|
      invariant Run(Start, Spliced(lines)) == Run(State(out, macros, stack), Spliced(lines, next))
    {
      var text, end := SpliceLine(lines, next);
      var line := Line(next + 1, text, end - next);
      SplicedStep(lines, next);
      RunStep(State(out, macros, stack), line, Spliced(lines, end));
      var d := DirectiveOf(text);
      if Opens(d) || d.Elif? || d.Else? || d.Endif? {
        var nested := Nest(d, macros, stack);
        if nested.Err? { return Err(Error(line.number, nested.error)); }
        stack := nested.value;
      } else if Active(stack) {
        var done := Processed(line, macros);
        if done.Err? { return Err(Error(line.number, done.error)); }
        out, macros := out + done.value.0, done.value.1;
      }
      out := out + Breaks(line);
      next := end;
    }
    RunEnds(State(out, macros, stack), lines);
    if stack == [] { return Ok(out); }
    return Err(Error(0, NeverClosed));
  }

  lemma RunEnds(s: State, lines: seq<string>)
    ensures Run(s, Spliced(lines, |lines|)) == if s.stack == [] then Ok(s.out) else Err(Error(0, NeverClosed))
  {
  }

  lemma SplicedStep(lines: seq<string>, at: nat)
    requires at < |lines|
    ensures var (text, end) := Splice(lines, at + 1, lines[at]);
            Spliced(lines, at) == [Line(at + 1, text, end - at)] + Spliced(lines, end)
  {
    hide Splice;
  }

  lemma RunStep(s: State, line: Line, more: seq<Line>)
    ensures Run(s, [line] + more) == Continue(Step(s, line), line.number, more)
  {
    assert ([line] + more)[1..] == more;
  }
}
