/** What processing keeps: a file as a sequence of plain lines, fenced code and regions, and the
    fixpoint of rendering it again. */
module RegionsProofs {
  import opened Wrappers
  import opened Text
  import opened Regions

  datatype Block =
    | Plain(line: string)
    | Code(open: string, inner: seq<string>, close: Option<string>)
    | Region(open: string, body: seq<string>, end: string)

  /** A file whose regions are closed. A fence that is never closed runs to the end. */
  datatype Doc = Done | More(first: Block, rest: Doc)

  predicate BlockOk(b: Block) {
    match b
    case Plain(line) => !IsFence(line) && DirectiveOf(line).None?
    case Code(open, inner, close) =>
      && IsFence(open) && (forall k :: 0 <= k < |inner| ==> !IsFence(inner[k]))
      && (close.Some? ==> IsFence(close.value))
    case Region(open, body, end) =>
      && !IsFence(open) && DirectiveOf(open).Some?
      && (forall k :: 0 <= k < |body| ==> !IsEnd(body[k])) && IsEnd(end)
  }

  predicate DocOk(d: Doc) {
    d == Done || (BlockOk(d.first) && (Open(d.first) ==> d.rest == Done) && DocOk(d.rest))
  }

  predicate Open(b: Block) { b.Code? && b.close.None? }

  function Closing(close: Option<string>): seq<string> { if close.Some? then [close.value] else [] }

  function BlockLines(b: Block): seq<string> {
    match b
    case Plain(line) => [line]
    case Code(open, inner, close) => [open] + inner + Closing(close)
    case Region(open, body, end) => [open] + body + [end]
  }

  function Flat(d: Doc): seq<string> {
    if d == Done then [] else BlockLines(d.first) + Flat(d.rest)
  }

  function RenderedBlock(b: Block, render: Renderer): Result<seq<string>, Error>
    requires BlockOk(b)
  {
    if !b.Region? then Ok(BlockLines(b))
    else
      match render(DirectiveOf(b.open).value)
      case Err(reason) => Err(RenderFailed(DirectiveOf(b.open).value, reason))
      case Ok(text) => Ok([b.open, TrimEnd(text), b.end])
  }

  /** What processing makes of a file: only the bodies of its regions are replaced. */
  function Rendered(d: Doc, render: Renderer): Result<seq<string>, Error>
    requires DocOk(d)
  {
    if d == Done then Ok([])
    else
      match RenderedBlock(d.first, render)
      case Err(e) => Err(e)
      case Ok(out) => Before(out, Rendered(d.rest, render))
  }

  // ----- Processing is rendering the file's regions -----

  lemma {:induction false} InsideFence(lines: seq<string>, at: nat, inner: seq<string>, render: Renderer)
    requires at + |inner| <= |lines| && lines[at..at + |inner|] == inner
    requires forall k :: 0 <= k < |inner| ==> !IsFence(inner[k])
    ensures Processed(lines, at, true, render) == Before(inner, Processed(lines, at + |inner|, true, render))
    decreases |inner|
  {
    hide IsFence, IsEnd, DirectiveOf;
    if inner == [] {
      BeforeNone(Processed(lines, at, true, render));
    } else {
      assert lines[at] == lines[at..at + |inner|][0];
      assert lines[at + 1..at + |inner|] == inner[1..];
      InsideFence(lines, at + 1, inner[1..], render);
      BeforeTwice([inner[0]], inner[1..], Processed(lines, at + |inner|, true, render));
      assert [inner[0]] + inner[1..] == inner;
    }
  }

  lemma EndFound(lines: seq<string>, at: nat, end: nat)
    requires at <= end < |lines| && IsEnd(lines[end]) && forall k :: at <= k < end ==> !IsEnd(lines[k])
    ensures FindEnd(lines, at) == end
  {
  }

  /** A region from `at` to `end`: its markers are kept, what is between them is replaced. */
  lemma RegionStep(lines: seq<string>, at: nat, end: nat, render: Renderer)
    requires at < end < |lines| && !IsFence(lines[at]) && DirectiveOf(lines[at]).Some?
    requires (forall k :: at + 1 <= k < end ==> !IsEnd(lines[k])) && IsEnd(lines[end])
    ensures Processed(lines, at, false, render)
         == match render(DirectiveOf(lines[at]).value)
            case Err(reason) => Err(RenderFailed(DirectiveOf(lines[at]).value, reason))
            case Ok(text) =>
              Before([lines[at], TrimEnd(text), lines[end]], Processed(lines, end + 1, false, render))
  {
    hide IsFence, IsEnd, DirectiveOf, FindEnd, TrimEnd;
    EndFound(lines, at + 1, end);
  }

  /** Fenced code from `at` up to `end` is kept, whatever is inside. */
  lemma CodeStep(lines: seq<string>, at: nat, end: nat, inner: seq<string>, render: Renderer)
    requires at < end <= |lines| && IsFence(lines[at]) && lines[at + 1..end] == inner
    requires (forall k :: 0 <= k < |inner| ==> !IsFence(inner[k])) && (end < |lines| ==> IsFence(lines[end]))
    ensures Processed(lines, at, false, render)
         == if end == |lines| then Ok([lines[at]] + inner)
            else Before([lines[at]] + inner + [lines[end]], Processed(lines, end + 1, false, render))
  {
    hide IsFence, IsEnd, DirectiveOf, FindEnd;
    InsideFence(lines, at + 1, inner, render);
    BeforeTwice([lines[at]], inner, Processed(lines, end, true, render));
    if end < |lines| {
      BeforeTwice([lines[at]] + inner, [lines[end]], Processed(lines, end + 1, false, render));
    } else {
      assert [lines[at]] + inner + [] == [lines[at]] + inner;
    }
  }

  lemma BlockStands(lines: seq<string>, at: nat, block: seq<string>, rest: seq<string>)
    requires at <= |lines| && lines[at..] == block + rest
    ensures at + |block| <= |lines| && lines[at + |block|..] == rest
    ensures forall i, j :: 0 <= i <= j <= |block| ==> lines[at + i..at + j] == block[i..j]
    ensures forall k :: at <= k < at + |block| ==> lines[k] == block[k - at]
  {
    var all := block + rest;
    assert forall k :: 0 <= k < |all| ==> lines[at..][k] == all[k];
    assert forall k :: at <= k < |lines| ==> lines[k] == all[k - at];
  }

  lemma PlainBlock(lines: seq<string>, at: nat, b: Block, rest: seq<string>, render: Renderer)
    requires b.Plain? && BlockOk(b) && at <= |lines| && lines[at..] == BlockLines(b) + rest
    ensures at + 1 <= |lines| && Processed(lines, at, false, render) == Before([b.line], Processed(lines, at + 1, false, render))
  {
    hide IsFence, IsEnd, DirectiveOf, FindEnd, TrimEnd;
    BlockStands(lines, at, BlockLines(b), rest);
    assert lines[at] == BlockLines(b)[0];
  }

  lemma CodeBlock(lines: seq<string>, at: nat, b: Block, rest: seq<string>, render: Renderer)
    requires b.Code? && BlockOk(b) && at <= |lines| && lines[at..] == BlockLines(b) + rest && (Open(b) ==> rest == [])
    ensures at + |BlockLines(b)| <= |lines|
    ensures Processed(lines, at, false, render)
         == Before(BlockLines(b), Processed(lines, at + |BlockLines(b)|, false, render))
  {
    hide IsFence, IsEnd, DirectiveOf, FindEnd, TrimEnd;
    var all, end := BlockLines(b), at + |b.inner| + 1;
    BlockStands(lines, at, all, rest);
    assert lines[at] == all[0] == b.open;
    assert lines[at + 1..at + (|b.inner| + 1)] == all[1..|b.inner| + 1] == b.inner;
    if b.close.Some? {
      assert lines[end] == all[|b.inner| + 1] == b.close.value;
    } else {
      assert all == [b.open] + b.inner;
    }
    CodeStep(lines, at, end, b.inner, render);
  }

  lemma RegionBlock(lines: seq<string>, at: nat, b: Block, rest: seq<string>, render: Renderer)
    requires b.Region? && BlockOk(b) && at <= |lines| && lines[at..] == BlockLines(b) + rest
    ensures at + |BlockLines(b)| <= |lines|
    ensures Processed(lines, at, false, render)
         == match RenderedBlock(b, render)
            case Err(e) => Err(e)
            case Ok(out) => Before(out, Processed(lines, at + |BlockLines(b)|, false, render))
  {
    hide IsFence, IsEnd, DirectiveOf, FindEnd, TrimEnd, Processed;
    var all, end := BlockLines(b), at + |b.body| + 1;
    BlockStands(lines, at, all, rest);
    assert lines[at] == all[0] == b.open;
    assert lines[end] == all[|b.body| + 1] == b.end;
    forall k | at + 1 <= k < end ensures !IsEnd(lines[k]) {
      assert lines[k] == all[k - at] == b.body[k - at - 1];
    }
    RegionStep(lines, at, end, render);
  }

  lemma BlockStep(lines: seq<string>, at: nat, b: Block, rest: seq<string>, render: Renderer)
    requires BlockOk(b) && at <= |lines| && lines[at..] == BlockLines(b) + rest && (Open(b) ==> rest == [])
    ensures at + |BlockLines(b)| <= |lines| && lines[at + |BlockLines(b)|..] == rest
    ensures Processed(lines, at, false, render)
         == match RenderedBlock(b, render)
            case Err(e) => Err(e)
            case Ok(out) => Before(out, Processed(lines, at + |BlockLines(b)|, false, render))
  {
    hide IsFence, IsEnd, DirectiveOf, FindEnd, TrimEnd, Processed, BlockOk;
    BlockStands(lines, at, BlockLines(b), rest);
    match b
    case Plain(_) => PlainBlock(lines, at, b, rest, render);
    case Code(_, _, _) => CodeBlock(lines, at, b, rest, render);
    case Region(_, _, _) => RegionBlock(lines, at, b, rest, render);
  }

  /** On the lines of a file, processing renders its regions and keeps every other line. */
  lemma {:induction false} ProcessedIsRendered(lines: seq<string>, at: nat, d: Doc, render: Renderer)
    requires at <= |lines| && DocOk(d) && lines[at..] == Flat(d)
    ensures Processed(lines, at, false, render) == Rendered(d, render)
    decreases d
  {
    hide IsFence, IsEnd, DirectiveOf, FindEnd, TrimEnd, Processed, BlockOk, BlockLines, RenderedBlock;
    if d == Done {
      NothingLeft(lines, at, render);
    } else {
      BlockStep(lines, at, d.first, Flat(d.rest), render);
      ProcessedIsRendered(lines, at + |BlockLines(d.first)|, d.rest, render);
    }
  }

  lemma NothingLeft(lines: seq<string>, at: nat, render: Renderer)
    requires at <= |lines| && lines[at..] == []
    ensures Processed(lines, at, false, render) == Ok([])
  {
    assert |lines[at..]| == 0;
  }

  lemma FenceEnd(lines: seq<string>, at: nat) returns (end: nat)
    requires at <= |lines|
    ensures at <= end <= |lines| && (end < |lines| ==> IsFence(lines[end]))
    ensures forall k :: at <= k < end ==> !IsFence(lines[k])
  {
    hide IsFence;
    end := at;
    while end < |lines| && !IsFence(lines[end])
      invariant at <= end <= |lines| && forall k :: at <= k < end ==> !IsFence(lines[k])
    {
      end := end + 1;
    }
  }

  lemma RegionCloses(lines: seq<string>, at: nat, render: Renderer) returns (end: nat)
    requires at < |lines| && Processed(lines, at, false, render).Ok?
    requires !IsFence(lines[at]) && DirectiveOf(lines[at]).Some?
    ensures at < end < |lines| && IsEnd(lines[end]) && Processed(lines, end + 1, false, render).Ok?
    ensures forall k :: at + 1 <= k < end ==> !IsEnd(lines[k])
  {
    hide IsFence, IsEnd, DirectiveOf;
    end := FindEnd(lines, at + 1);
  }

  lemma MoreDoc(first: Block, rest: Doc, lines: seq<string>)
    requires BlockOk(first) && DocOk(rest) && (Open(first) ==> rest == Done) && lines == BlockLines(first) + Flat(rest)
    ensures DocOk(More(first, rest)) && Flat(More(first, rest)) == lines
  {
  }

  lemma Around<T>(lines: seq<T>, at: nat, end: nat)
    requires at < end <= |lines|
    ensures end < |lines| ==> lines[at..] == [lines[at]] + lines[at + 1..end] + [lines[end]] + lines[end + 1..]
    ensures end == |lines| ==> lines[at..] == [lines[at]] + lines[at + 1..end] + [] + []
  {
  }

  /** Every sequence of lines that is processed is the lines of a file. */
  lemma {:induction false} ProcessedIsDoc(lines: seq<string>, at: nat, render: Renderer) returns (d: Doc)
    requires at <= |lines| && Processed(lines, at, false, render).Ok?
    ensures DocOk(d) && Flat(d) == lines[at..]
    decreases |lines| - at
  {
    hide IsFence, IsEnd, DirectiveOf, TrimEnd, FindEnd, Processed, DocOk, Flat;
    NothingIsDoc();
    if at == |lines| {
      d := Done;
    } else if IsFence(lines[at]) {
      var end := FenceEnd(lines, at + 1);
      CodeStep(lines, at, end, lines[at + 1..end], render);
      var rest := Done;
      if end < |lines| { rest := ProcessedIsDoc(lines, end + 1, render); }
      var first := Code(lines[at], lines[at + 1..end], if end < |lines| then Some(lines[end]) else None);
      d := More(first, rest);
      Around(lines, at, end);
      MoreDoc(first, rest, lines[at..]);
    } else if DirectiveOf(lines[at]).None? {
      PlainStep(lines, at, render);
      var rest := ProcessedIsDoc(lines, at + 1, render);
      d := More(Plain(lines[at]), rest);
      MoreDoc(d.first, rest, lines[at..]);
    } else {
      var end := RegionCloses(lines, at, render);
      var rest := ProcessedIsDoc(lines, end + 1, render);
      d := More(Region(lines[at], lines[at + 1..end], lines[end]), rest);
      Around(lines, at, end);
      MoreDoc(d.first, rest, lines[at..]);
    }
  }

  lemma NothingIsDoc()
    ensures DocOk(Done) && Flat(Done) == []
  {
  }

  lemma PlainStep(lines: seq<string>, at: nat, render: Renderer)
    requires at < |lines| && !IsFence(lines[at]) && DirectiveOf(lines[at]).None?
    ensures Processed(lines, at, false, render) == Before([lines[at]], Processed(lines, at + 1, false, render))
  {
    hide IsFence, IsEnd, DirectiveOf, FindEnd, TrimEnd;
  }
}
