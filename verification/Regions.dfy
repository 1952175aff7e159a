/** The generated regions of a Markdown file: what stands between an opening marker and the end
    marker is rendered again on every run. */
module Regions {
  import opened Wrappers
  import opened Text

  /** The marker that closes a generated region. */
  const END: string := "<!-- end -->"

  type Renderer = string -> Result<string, string>

  datatype Error = RenderFailed(directive: string, reason: string) | NotClosed(directive: string)

  predicate IsEnd(line: string) { Trim(line) == END }

  predicate IsFence(line: string) {
    var trimmed := TrimStart(line);
    StartsWith(trimmed, "```") || StartsWith(trimmed, "~~~")
  }

  /** The directive of a trimmed line, if it is an opening marker. */
  function DirectiveIn(trimmed: string): Option<string> {
    if !StartsWith(trimmed, "<!--") || !EndsWith(trimmed[4..], "-->") then None
    else
      var inner := Trim(trimmed[4..|trimmed| - 3]);
      if StartsWith(inner, "table:") || StartsWith(inner, "snippet:") then Some(inner) else None
  }

  function DirectiveOf(line: string): Option<string> { DirectiveIn(Trim(line)) }

  /** The index of the first line from `at` on that closes a region, or the number of lines. */
  function FindEnd(lines: seq<string>, at: nat): (r: nat)
    requires at <= |lines|
    ensures at <= r <= |lines|
    ensures forall k :: at <= k < r ==> !IsEnd(lines[k])
    ensures r < |lines| ==> IsEnd(lines[r])
    decreases |lines| - at
  {
    if at < |lines| && !IsEnd(lines[at]) then FindEnd(lines, at + 1) else at
  }

  /** What becomes of the lines from `at` on: the lines kept and the rendered texts, in order. */
  function Processed(lines: seq<string>, at: nat, inFence: bool, render: Renderer): Result<seq<string>, Error>
    requires at <= |lines|
    decreases |lines| - at
  {
    if at == |lines| then Ok([])
    else
      var line := lines[at];
      if IsFence(line) then Before([line], Processed(lines, at + 1, !inFence, render))
      else if inFence || DirectiveOf(line).None? then Before([line], Processed(lines, at + 1, inFence, render))
      else
        var directive := DirectiveOf(line).value;
        match render(directive)
        case Err(reason) => Err(RenderFailed(directive, reason))
        case Ok(text) =>
          var end := FindEnd(lines, at + 1);
          if end == |lines| then Err(NotClosed(directive))
          else Before([line, TrimEnd(text), lines[end]], Processed(lines, end + 1, false, render))
  }

  function Before(out: seq<string>, more: Result<seq<string>, Error>): Result<seq<string>, Error> {
    match more case Ok(rest) => Ok(out + rest) case Err(e) => Err(e)
  }

  /** Some lines joined by line feeds. */
  function Join(lines: seq<string>): string {
    if lines == [] then "" else if |lines| == 1 then lines[0] else lines[0] + ['\n'] + Join(lines[1..])
  }

  function JoinedText(lines: seq<string>, newline: bool): string { Join(lines) + if newline then ['\n'] else [] }

  function ProcessedText(text: string, render: Renderer): Result<string, Error> {
    match Processed(Lines(text), 0, false, render)
    case Ok(out) => Ok(JoinedText(out, EndsWith(text, "\n")))
    case Err(e) => Err(e)
  }

  method Process(text: string, render: Renderer) returns (r: Result<string, Error>)
    ensures r == ProcessedText(text, render)
  {
    hide IsFence, IsEnd, DirectiveOf, TrimEnd, JoinedText, EndsWith, Lines;
    var out: seq<string> := [];
    var lines := Lines(text);
    var at := 0;
    var inFence := false;
    BeforeNone(Processed(lines, 0, false, render));
    while at < |lines|
      invariant at <= |lines|
      invariant Processed(lines, 0, false, render) == Before(out, Processed(lines, at, inFence, render))
    {
      ghost var was, rest := out, Processed(lines, at, inFence, render);
      var line := lines[at];
      out := out + [line];
      if IsFence(line) {
        BeforeTwice(was, [line], Processed(lines, at + 1, !inFence, render));
        inFence := !inFence;
        at := at + 1;
        continue;
      }
      if inFence || DirectiveOf(line).None? {
        BeforeTwice(was, [line], Processed(lines, at + 1, inFence, render));
        at := at + 1;
        continue;
      }
      var directive := DirectiveOf(line).value;
      var rendered := render(directive);
      if rendered.Err? { return Err(RenderFailed(directive, rendered.error)); }
      out := out + [TrimEnd(rendered.value)];
      ghost var open := at;
      at := at + 1;
      while at < |lines| && !IsEnd(lines[at])
        invariant open < at <= |lines|
        invariant FindEnd(lines, open + 1) == FindEnd(lines, at)
      {
        at := at + 1;
      }
      if at == |lines| { return Err(NotClosed(directive)); }
      out := out + [lines[at]];
      assert out == was + [line, TrimEnd(rendered.value), lines[at]];
      BeforeTwice(was, [line, TrimEnd(rendered.value), lines[at]], Processed(lines, at + 1, false, render));
      at := at + 1;
    }
    assert out + [] == out;
    return Ok(JoinedText(out, EndsWith(text, "\n")));
  }

  lemma BeforeNone(more: Result<seq<string>, Error>)
    ensures Before([], more) == more
  {
    if more.Ok? { assert [] + more.value == more.value; }
  }

  lemma BeforeTwice(a: seq<string>, b: seq<string>, more: Result<seq<string>, Error>)
    ensures Before(a, Before(b, more)) == Before(a + b, more)
  {
    if more.Ok? { assert a + (b + more.value) == a + b + more.value; }
  }
}
