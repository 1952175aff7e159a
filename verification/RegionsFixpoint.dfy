/** When rendering the regions of a file a second time changes nothing. */
module RegionsFixpoint {
  import opened Wrappers
  import opened Text
  import opened Regions
  import opened RegionsProofs

  // ----- A carriage return at the end of a line -----

  lemma {:induction false} KeepEndPrefix(s: string, t: string, to: nat)
    requires to <= |s| && to <= |t| && s[..to] == t[..to]
    ensures KeepEnd(s, to) == KeepEnd(t, to)
  {
    if to > 0 {
      assert s[to - 1] == s[..to][to - 1] == t[..to][to - 1] == t[to - 1];
      assert s[..to - 1] == s[..to][..to - 1] == t[..to - 1];
      KeepEndPrefix(s, t, to - 1);
    }
  }

  lemma KeepEndStep(s: string, c: char)
    requires IsSpace(c)
    ensures KeepEnd(s + [c], |s| + 1) == KeepEnd(s + [c], |s|)
  {
  }

  /** White space at the end of a line matters to no marker. */
  lemma SpaceAtEnd(line: string, c: char)
    requires IsSpace(c)
    ensures Trim(line + [c]) == Trim(line)
    ensures TrimStart(line + [c]) == TrimStart(line) + [c] || TrimStart(line + [c]) == TrimStart(line) == ""
  {
    hide KeepEnd, IsSpace;
    var i, j := SkipSpaces(line), SkipSpaces(line + [c]);
    assert forall k :: 0 <= k < |line| ==> (line + [c])[k] == line[k];
    assert (line + [c])[|line|] == c;
    if i < |line| {
      assert j == i;
      var s := line[i..];
      assert (line + [c])[i..] == s + [c];
      assert s + [c] == TrimStart(line + [c]);
      assert (s + [c])[|s|] == c;
      KeepEndStep(s, c);
      KeepEndPrefix(s + [c], s, |s|);
      assert (s + [c])[..KeepEnd(s, |s|)] == s[..KeepEnd(s, |s|)];
    } else {
      assert j == |line| + 1;
      assert line[i..] == "" && (line + [c])[j..] == "";
    }
  }

  lemma StripKeepsMarkers(line: string)
    ensures IsFence(StripReturn(line)) == IsFence(line)
    ensures IsEnd(StripReturn(line)) == IsEnd(line)
    ensures DirectiveOf(StripReturn(line)) == DirectiveOf(line)
  {
    hide TrimStart, Trim, DirectiveIn;
    var s := StripReturn(line);
    if s != line {
      assert line == s + ['\r'];
      SpaceAtEnd(s, '\r');
      FenceAtEnd(TrimStart(s));
    }
  }

  lemma FenceAtEnd(s: string)
    ensures StartsWith(s + ['\r'], "```") == StartsWith(s, "```")
    ensures StartsWith(s + ['\r'], "~~~") == StartsWith(s, "~~~")
  {
    assert forall k :: 0 <= k < |s| ==> (s + ['\r'])[k] == s[k];
    assert (s + ['\r'])[|s|] == '\r';
  }

  // ----- Lines of joined texts -----

  lemma LinesStep(text: string, at: nat)
    requires at < |text| && text[at] == '\n' && '\n' !in text[..at]
    ensures Lines(text) == [StripReturn(text[..at])] + Lines(text[at + 1..])
  {
    hide Lines, StripReturn, FindChar;
    FirstFeed(text, at);
    LinesFeed(text);
  }

  lemma LinesFeed(text: string)
    requires FindChar(text, '\n') < |text|
    ensures var at := FindChar(text, '\n'); Lines(text) == [StripReturn(text[..at])] + Lines(text[at + 1..])
  {
    hide StripReturn, FindChar;
  }

  lemma FirstFeed(text: string, at: nat)
    requires at < |text| && text[at] == '\n' && '\n' !in text[..at]
    ensures FindChar(text, '\n') == at
  {
    assert forall k :: 0 <= k < at ==> text[k] == text[..at][k];
  }

  lemma LinesOne(line: string, more: string)
    requires '\n' !in line
    ensures Lines(line + ['\n'] + more) == [StripReturn(line)] + Lines(more)
  {
    hide Lines, StripReturn;
    var text := line + ['\n'] + more;
    assert text[..|line|] == line && text[|line| + 1..] == more;
    LinesStep(text, |line|);
  }

  lemma LinesLast(line: string)
    requires '\n' !in line && line != ""
    ensures Lines(line) == [line]
  {
    assert forall k :: 0 <= k < |line| ==> line[k] in line;
    assert FindChar(line, '\n') == |line|;
  }

  /** The lines of a text that goes on after a line feed. */
  lemma {:induction false} LinesAppend(text: string, more: string)
    ensures Lines(text + ['\n'] + more) == Lines(text + ['\n']) + Lines(more)
    decreases |text|
  {
    hide Lines, StripReturn;
    var at := FindChar(text, '\n');
    if at == |text| {
      LinesOne(text, more);
      LinesOne(text, "");
      assert text + ['\n'] + "" == text + ['\n'];
      assert Lines("") == [] by { NoText(); }
      assert [StripReturn(text)] + [] == [StripReturn(text)];
    } else {
      var line, rest := text[..at], text[at + 1..];
      LinesAppend(rest, more);
      LinesOne(line, rest + ['\n'] + more);
      LinesOne(line, rest + ['\n']);
      assert text + ['\n'] + more == line + ['\n'] + (rest + ['\n'] + more);
      assert text + ['\n'] == line + ['\n'] + (rest + ['\n']);
      assert [StripReturn(line)] + (Lines(rest + ['\n']) + Lines(more))
          == [StripReturn(line)] + Lines(rest + ['\n']) + Lines(more);
    }
  }

  lemma NoText()
    ensures Lines("") == []
  {
  }

  lemma JoinedCons(first: string, rest: seq<string>, newline: bool)
    ensures JoinedText([first] + rest, newline)
         == if rest != [] then first + ['\n'] + JoinedText(rest, newline)
            else first + if newline then ['\n'] else []
  {
    assert ([first] + rest)[1..] == rest;
    if rest != [] {
      var nl := if newline then ['\n'] else [];
      assert first + ['\n'] + Join(rest) + nl == first + ['\n'] + (Join(rest) + nl);
    }
  }

  // ----- The lines kept -----

  function BlockKept(b: Block): seq<string> {
    if b.Region? then [b.open, b.end] else BlockLines(b)
  }

  /** The lines of a file outside the bodies of its regions. */
  function KeptLines(d: Doc): seq<string> {
    if d == Done then [] else BlockKept(d.first) + KeptLines(d.rest)
  }

  /** Lines as they are read again: a line feed takes the carriage return before it. */
  function ReadAgain(lines: seq<string>, newline: bool): (r: seq<string>)
    ensures |r| == |lines|
  {
    seq(|lines|, k requires 0 <= k < |lines| => if k + 1 < |lines| || newline then StripReturn(lines[k]) else lines[k])
  }

  /** That no line that a line feed follows ends in a carriage return. */
  predicate NoReturns(lines: seq<string>, newline: bool) {
    forall k :: 0 <= k < |lines| && (k + 1 < |lines| || newline) ==> StripReturn(lines[k]) == lines[k]
  }

  function TotalLength(lines: seq<string>): nat {
    if lines == [] then 0 else |lines[0]| + TotalLength(lines[1..])
  }

  lemma ReadAgainAppend(a: seq<string>, b: seq<string>, newline: bool)
    ensures ReadAgain(a + b, newline) == ReadAgain(a, b != [] || newline) + ReadAgain(b, newline)
  {
  }

  lemma NoReturnsSame(lines: seq<string>, newline: bool)
    ensures NoReturns(lines, newline) <==> ReadAgain(lines, newline) == lines
  {
    if ReadAgain(lines, newline) == lines {
      forall k | 0 <= k < |lines| && (k + 1 < |lines| || newline) ensures StripReturn(lines[k]) == lines[k] {
        assert ReadAgain(lines, newline)[k] == lines[k];
      }
    }
  }

  lemma {:induction false} TotalAppend(a: seq<string>, b: seq<string>)
    ensures TotalLength(a + b) == TotalLength(a) + TotalLength(b)
  {
    if a == [] {
      assert a + b == b;
    } else {
      assert (a + b)[1..] == a[1..] + b;
      TotalAppend(a[1..], b);
    }
  }

  /** Read again, lines are no longer, and shorter when a carriage return was taken. */
  lemma {:induction false} ReadAgainShorter(lines: seq<string>, newline: bool)
    ensures TotalLength(ReadAgain(lines, newline)) <= TotalLength(lines)
    ensures !NoReturns(lines, newline) ==> TotalLength(ReadAgain(lines, newline)) < TotalLength(lines)
  {
    hide StripReturn;
    if lines != [] {
      ReadAgainAppend([lines[0]], lines[1..], newline);
      assert [lines[0]] + lines[1..] == lines;
      assert ReadAgain(lines, newline)[1..] == ReadAgain(lines[1..], newline);
      ReadAgainShorter(lines[1..], newline);
      if NoReturns(lines[1..], newline) && ReadAgain(lines, newline)[0] == lines[0] {
        forall k | 0 <= k < |lines| && (k + 1 < |lines| || newline) ensures StripReturn(lines[k]) == lines[k] {
          if k > 0 { assert lines[1..][k - 1] == lines[k]; }
        }
      }
    }
  }

  // ----- The file that is read the second time -----

  /** A block of the processed text: its lines read again, and the rendered body. */
  function Again(b: Block, newline: bool, render: Renderer): Block
    requires BlockOk(b) && RenderedBlock(b, render).Ok?
  {
    var again := ReadAgain(BlockKept(b), newline);
    match b
    case Plain(_) => Plain(again[0])
    case Code(_, inner, close) =>
      Code(again[0], again[1..1 + |inner|], if close.Some? then Some(again[1 + |inner|]) else None)
    case Region(open, _, _) => Region(again[0], Lines(TrimEnd(render(DirectiveOf(open).value).value) + ['\n']), again[1])
  }

  /** The file that the processed text holds. */
  function Redone(d: Doc, newline: bool, render: Renderer): Doc
    requires DocOk(d) && Rendered(d, render).Ok?
  {
    if d == Done then Done
    else More(Again(d.first, d.rest != Done || newline, render), Redone(d.rest, newline, render))
  }

  /** That no rendered text holds the end marker as a line. */
  ghost predicate RendersNoEnd(render: Renderer) {
    forall directive: string :: render(directive).Ok? ==>
      var lines := Lines(TrimEnd(render(directive).value) + ['\n']);
      forall k :: 0 <= k < |lines| ==> !IsEnd(lines[k])
  }

  lemma ReadAgainKeepsMarkers(lines: seq<string>, newline: bool)
    ensures forall k :: 0 <= k < |lines| ==>
              && IsFence(ReadAgain(lines, newline)[k]) == IsFence(lines[k])
              && IsEnd(ReadAgain(lines, newline)[k]) == IsEnd(lines[k])
              && DirectiveOf(ReadAgain(lines, newline)[k]) == DirectiveOf(lines[k])
  {
    hide IsFence, IsEnd, DirectiveOf, StripReturn;
    forall k | 0 <= k < |lines|
      ensures IsFence(ReadAgain(lines, newline)[k]) == IsFence(lines[k])
      ensures IsEnd(ReadAgain(lines, newline)[k]) == IsEnd(lines[k])
      ensures DirectiveOf(ReadAgain(lines, newline)[k]) == DirectiveOf(lines[k])
    {
      StripKeepsMarkers(lines[k]);
    }
  }

  lemma AgainOk(b: Block, newline: bool, render: Renderer)
    requires BlockOk(b) && RenderedBlock(b, render).Ok? && RendersNoEnd(render)
    ensures BlockOk(Again(b, newline, render)) && Open(Again(b, newline, render)) == Open(b)
  {
    hide IsFence, IsEnd, DirectiveOf, ReadAgain, Lines, TrimEnd, RendersNoEnd;
    var all, again := BlockKept(b), Again(b, newline, render);
    ReadAgainKeepsMarkers(all, newline);
    match b
    case Plain(_) =>
    case Code(_, _, _) =>
      forall k | 0 <= k < |again.inner| ensures !IsFence(again.inner[k]) {
        assert all[1 + k] == b.inner[k];
      }
    case Region(open, _, _) =>
      NoEndIn(render, DirectiveOf(open).value);
      assert again.open == ReadAgain(all, newline)[0] && again.end == ReadAgain(all, newline)[1];
      assert all[0] == open && all[1] == b.end;
      assert DirectiveOf(again.open).Some? && !IsFence(again.open) && IsEnd(again.end);
      assert again.body == Lines(TrimEnd(render(DirectiveOf(open).value).value) + ['\n']);
  }

  lemma {:induction false} RedoneOk(d: Doc, newline: bool, render: Renderer)
    requires DocOk(d) && Rendered(d, render).Ok? && RendersNoEnd(render)
    ensures DocOk(Redone(d, newline, render))
  {
    hide BlockOk, Open, RenderedBlock, RendersNoEnd, Again;
    if d != Done {
      AgainOk(d.first, d.rest != Done || newline, render);
      RedoneOk(d.rest, newline, render);
    }
  }

  lemma NoEndIn(render: Renderer, directive: string)
    requires RendersNoEnd(render) && render(directive).Ok?
    ensures var lines := Lines(TrimEnd(render(directive).value) + ['\n']);
            forall k :: 0 <= k < |lines| ==> !IsEnd(lines[k])
  {
  }

  lemma AgainKept(b: Block, newline: bool, render: Renderer)
    requires BlockOk(b) && RenderedBlock(b, render).Ok?
    ensures BlockKept(Again(b, newline, render)) == ReadAgain(BlockKept(b), newline)
  {
    hide BlockOk, Lines, TrimEnd, ReadAgain;
    var again := ReadAgain(BlockKept(b), newline);
    if b.Code? {
      assert again == [again[0]] + again[1..1 + |b.inner|] + Closing(Again(b, newline, render).close);
    }
  }

  lemma {:induction false} RedoneKept(d: Doc, newline: bool, render: Renderer)
    requires DocOk(d) && Rendered(d, render).Ok?
    ensures KeptLines(Redone(d, newline, render)) == ReadAgain(KeptLines(d), newline)
    ensures d == Done <==> KeptLines(d) == []
  {
    hide BlockOk, Open, RenderedBlock, Again, ReadAgain;
    if d == Done {
      assert |ReadAgain([], newline)| == 0;
    } else {
      AgainKept(d.first, d.rest != Done || newline, render);
      RedoneKept(d.rest, newline, render);
      ReadAgainAppend(BlockKept(d.first), KeptLines(d.rest), newline);
    }
  }

  // ----- The lines of the processed text -----

  /** The lines of some texts that end a file. */
  function EndLines(texts: seq<string>, newline: bool): seq<string> {
    if texts == [] then [] else Lines(JoinedText(texts, newline))
  }

  /** That some lines have no line feed in them, and the last is not empty if the file ends in it. */
  predicate LinesFit(lines: seq<string>, newline: bool) {
    && (forall k :: 0 <= k < |lines| ==> '\n' !in lines[k])
    && (newline || lines == [] || lines[|lines| - 1] != "")
  }

  lemma EndLinesCons(first: string, rest: seq<string>, newline: bool)
    requires '\n' !in first && (rest == [] && !newline ==> first != "")
    ensures EndLines([first] + rest, newline) == ReadAgain([first], rest != [] || newline) + EndLines(rest, newline)
  {
    hide Lines, StripReturn, Join;
    JoinedCons(first, rest, newline);
    if rest != [] {
      LinesOne(first, JoinedText(rest, newline));
    } else if newline {
      LinesOne(first, "");
      NoText();
      assert first + ['\n'] + "" == first + ['\n'];
    } else {
      LinesLast(first);
      assert first + [] == first;
    }
  }

  lemma {:induction false} EndLinesKept(lines: seq<string>, rest: seq<string>, newline: bool)
    requires LinesFit(lines, rest != [] || newline)
    ensures EndLines(lines + rest, newline) == ReadAgain(lines, rest != [] || newline) + EndLines(rest, newline)
    decreases |lines|
  {
    hide EndLines;
    if lines == [] {
      assert lines + rest == rest && ReadAgain(lines, rest != [] || newline) == [];
    } else {
      var first, more := lines[0], lines[1..];
      assert lines + rest == [first] + (more + rest) && lines == [first] + more;
      EndLinesCons(first, more + rest, newline);
      EndLinesKept(more, rest, newline);
      ReadAgainAppend([first], more, rest != [] || newline);
    }
  }

  lemma EndLinesText(text: string, rest: seq<string>, newline: bool)
    requires rest != []
    ensures EndLines([text] + rest, newline) == Lines(text + ['\n']) + EndLines(rest, newline)
  {
    hide Lines, Join;
    JoinedCons(text, rest, newline);
    LinesAppend(text, JoinedText(rest, newline));
  }

  lemma FitParts(a: seq<string>, b: seq<string>, newline: bool)
    requires LinesFit(a + b, newline)
    ensures LinesFit(a, b != [] || newline) && LinesFit(b, newline)
  {
    forall k | 0 <= k < |a| ensures '\n' !in a[k] { assert (a + b)[k] == a[k]; }
    forall k | 0 <= k < |b| ensures '\n' !in b[k] { assert (a + b)[|a| + k] == b[k]; }
    assert b == [] ==> a + b == a;
    assert b != [] ==> (a + b)[|a + b| - 1] == b[|b| - 1];
  }

  lemma RenderedNone(d: Doc, render: Renderer)
    requires DocOk(d) && Rendered(d, render).Ok?
    ensures Rendered(d, render).value == [] <==> d == Done
  {
    hide BlockOk;
  }

  /** The lines of a processed block, before more texts. */
  lemma AgainLines(b: Block, rest: seq<string>, newline: bool, render: Renderer)
    requires BlockOk(b) && RenderedBlock(b, render).Ok? && LinesFit(BlockKept(b), rest != [] || newline)
    ensures EndLines(RenderedBlock(b, render).value + rest, newline)
         == BlockLines(Again(b, rest != [] || newline, render)) + EndLines(rest, newline)
  {
    hide BlockOk, DirectiveOf, Lines, TrimEnd, EndLines, ReadAgain, LinesFit;
    var t := rest != [] || newline;
    if !b.Region? {
      EndLinesKept(BlockLines(b), rest, newline);
      AgainKept(b, t, render);
    } else {
      RegionLines(b, rest, newline, render);
    }
  }

  lemma ReadAgainTwo(open: string, end: string, newline: bool)
    ensures ReadAgain([open], true) == [ReadAgain([open, end], newline)[0]]
    ensures ReadAgain([end], newline) == [ReadAgain([open, end], newline)[1]]
  {
    hide StripReturn;
  }

  lemma RegionLines(b: Block, rest: seq<string>, newline: bool, render: Renderer)
    requires b.Region? && BlockOk(b) && RenderedBlock(b, render).Ok? && LinesFit(BlockKept(b), rest != [] || newline)
    ensures EndLines(RenderedBlock(b, render).value + rest, newline)
         == BlockLines(Again(b, rest != [] || newline, render)) + EndLines(rest, newline)
  {
    hide IsFence, IsEnd, DirectiveOf, Lines, TrimEnd, EndLines, ReadAgain, LinesFit;
    var t, text := rest != [] || newline, TrimEnd(render(DirectiveOf(b.open).value).value);
    assert BlockKept(b) == [b.open] + [b.end];
    FitParts([b.open], [b.end], t);
    var last := [b.end] + rest;
    assert [b.open, text, b.end] + rest == [b.open] + ([text] + last);
    EndLinesKept([b.open], [text] + last, newline);
    EndLinesText(text, last, newline);
    EndLinesKept([b.end], rest, newline);
    ReadAgainTwo(b.open, b.end, t);
    var again, ending := ReadAgain([b.open, b.end], t), EndLines(rest, newline);
    assert [again[0]] + (Lines(text + ['\n']) + ([again[1]] + ending)) == [again[0]] + Lines(text + ['\n']) + [again[1]] + ending;
  }

  /** The lines of the processed text are those of the file read again. */
  lemma {:induction false} ProcessedLines(d: Doc, newline: bool, render: Renderer)
    requires DocOk(d) && Rendered(d, render).Ok? && LinesFit(KeptLines(d), newline)
    ensures EndLines(Rendered(d, render).value, newline) == Flat(Redone(d, newline, render))
  {
    hide BlockOk, Open, BlockLines, BlockKept, RenderedBlock, Again, EndLines, LinesFit;
    if d == Done {
      NoTexts(newline);
    } else {
      FitParts(BlockKept(d.first), KeptLines(d.rest), newline);
      RedoneKept(d.rest, newline, render);
      RenderedNone(d.rest, render);
      AgainLines(d.first, Rendered(d.rest, render).value, newline, render);
      ProcessedLines(d.rest, newline, render);
    }
  }

  lemma NoTexts(newline: bool)
    ensures EndLines([], newline) == []
  {
  }

  // ----- The second run -----

  lemma {:induction false} JoinedLength(texts: seq<string>, newline: bool)
    ensures |JoinedText(texts, newline)|
         == TotalLength(texts) + (if texts == [] then 0 else |texts| - 1) + (if newline then 1 else 0)
  {
    if texts != [] {
      assert texts == [texts[0]] + texts[1..];
      JoinedCons(texts[0], texts[1..], newline);
      JoinedLength(texts[1..], newline);
    }
  }

  /** That texts made of the lines read again differ from those made of the lines as the lines do. */
  ghost predicate Shrinks(before: seq<string>, after: seq<string>, lines: seq<string>, again: seq<string>) {
    && |after| == |before|
    && TotalLength(after) + TotalLength(lines) == TotalLength(before) + TotalLength(again)
    && (again == lines ==> after == before)
  }

  lemma ShrinksAppend(
      a: seq<string>, a': seq<string>, b: seq<string>, b': seq<string>,
      l: seq<string>, l': seq<string>, m: seq<string>, m': seq<string>)
    requires Shrinks(a, a', l, l') && Shrinks(b, b', m, m') && |l| == |l'|
    ensures Shrinks(a + b, a' + b', l + m, l' + m')
  {
    TotalAppend(a, b);
    TotalAppend(a', b');
    TotalAppend(l, m);
    TotalAppend(l', m');
    if l' + m' == l + m {
      assert l' == (l' + m')[..|l|] && m' == (l' + m')[|l|..];
      assert l == (l + m)[..|l|] && m == (l + m)[|l|..];
    }
  }

  lemma ShrinksAround(open: string, end: string, open': string, end': string, text: string)
    ensures Shrinks([open, text, end], [open', text, end'], [open, end], [open', end'])
  {
    assert TotalLength([open, text, end]) == |open| + |text| + |end|
        && TotalLength([open', text, end']) == |open'| + |text| + |end'|
        && TotalLength([open, end]) == |open| + |end| && TotalLength([open', end']) == |open'| + |end'|
    by {
      LengthOf(open, text, end);
      LengthOf(open', text, end');
    }
    if [open', end'] == [open, end] { assert [open', end'][0] == open && [open', end'][1] == end; }
  }

  lemma LengthOf(a: string, b: string, c: string)
    ensures TotalLength([a, b, c]) == |a| + |b| + |c| && TotalLength([a, c]) == |a| + |c|
  {
    assert [a, b, c][1..] == [b, c] && [b, c][1..] == [c] && [c][1..] == [] && [a, c][1..] == [c];
    assert TotalLength([c]) == |c| && TotalLength([b, c]) == |b| + |c|;
  }

  lemma AgainShrinks(b: Block, newline: bool, render: Renderer)
    requires BlockOk(b) && RenderedBlock(b, render).Ok? && BlockOk(Again(b, newline, render))
    ensures RenderedBlock(Again(b, newline, render), render).Ok?
    ensures Shrinks(RenderedBlock(b, render).value, RenderedBlock(Again(b, newline, render), render).value,
                    BlockKept(b), ReadAgain(BlockKept(b), newline))
  {
    hide IsFence, IsEnd, DirectiveOf, Lines, TrimEnd, ReadAgain, Shrinks;
    var again := Again(b, newline, render);
    AgainKept(b, newline, render);
    if b.Region? {
      ReadAgainKeepsMarkers(BlockKept(b), newline);
      assert BlockKept(b)[0] == b.open;
      ShrinksAround(b.open, b.end, again.open, again.end, TrimEnd(render(DirectiveOf(b.open).value).value));
    } else {
      ShrinksSame(BlockKept(b), BlockKept(again));
    }
  }

  lemma ShrinksSame(lines: seq<string>, again: seq<string>)
    requires |again| == |lines|
    ensures Shrinks(lines, again, lines, again)
  {
  }

  /** The second run renders the same texts between the lines read again. */
  lemma {:induction false} RenderedTwice(d: Doc, newline: bool, render: Renderer)
    requires DocOk(d) && Rendered(d, render).Ok? && RendersNoEnd(render)
    ensures DocOk(Redone(d, newline, render)) && Rendered(Redone(d, newline, render), render).Ok?
    ensures Shrinks(Rendered(d, render).value, Rendered(Redone(d, newline, render), render).value,
                    KeptLines(d), ReadAgain(KeptLines(d), newline))
  {
    hide BlockOk, Open, BlockLines, BlockKept, RenderedBlock, Again, ReadAgain, RendersNoEnd, Shrinks;
    RedoneOk(d, newline, render);
    RedoneKept(d, newline, render);
    if d == Done {
      ShrinksNone();
    } else {
      var t := d.rest != Done || newline;
      RenderedTwice(d.rest, newline, render);
      RedoneKept(d.rest, newline, render);
      ReadAgainAppend(BlockKept(d.first), KeptLines(d.rest), newline);
      AgainOk(d.first, t, render);
      AgainShrinks(d.first, t, render);
      ShrinksAppend(RenderedBlock(d.first, render).value, RenderedBlock(Again(d.first, t, render), render).value,
                    Rendered(d.rest, render).value, Rendered(Redone(d.rest, newline, render), render).value,
                    BlockKept(d.first), ReadAgain(BlockKept(d.first), t),
                    KeptLines(d.rest), ReadAgain(KeptLines(d.rest), newline));
    }
  }

  lemma ShrinksNone()
    ensures Shrinks([], [], [], [])
  {
  }

  // ----- The fixpoint -----

  lemma {:induction false} LastLine(text: string)
    requires text != "" && text[|text| - 1] != '\n'
    ensures Lines(text) != [] && Lines(text)[|Lines(text)| - 1] != ""
    decreases |text|
  {
    var at := FindChar(text, '\n');
    if at < |text| { LastLine(text[at + 1..]); }
  }

  lemma BlockKeptFrom(b: Block)
    ensures BlockKept(b) != [] && BlockLines(b) != []
    ensures BlockKept(b)[|BlockKept(b)| - 1] == BlockLines(b)[|BlockLines(b)| - 1]
    ensures forall k :: 0 <= k < |BlockKept(b)| ==> BlockKept(b)[k] in BlockLines(b)
  {
    if b.Region? {
      assert BlockLines(b)[0] == b.open && BlockLines(b)[|b.body| + 1] == b.end;
    }
  }

  lemma {:induction false} KeptFromFlat(d: Doc)
    requires DocOk(d)
    ensures forall k :: 0 <= k < |KeptLines(d)| ==> KeptLines(d)[k] in Flat(d)
    ensures KeptLines(d) == [] <==> Flat(d) == []
    ensures Flat(d) != [] ==> KeptLines(d)[|KeptLines(d)| - 1] == Flat(d)[|Flat(d)| - 1]
  {
    hide BlockOk, Open, BlockLines, BlockKept;
    if d != Done {
      BlockKeptFrom(d.first);
      KeptFromFlat(d.rest);
    }
  }

  lemma KeptFit(text: string, d: Doc)
    requires DocOk(d) && Flat(d) == Lines(text)
    ensures LinesFit(KeptLines(d), EndsWith(text, ['\n']))
  {
    hide DocOk, KeptLines, Flat, Lines;
    KeptFromFlat(d);
    if text != "" && !EndsWith(text, ['\n']) {
      assert text[|text| - 1..] == [text[|text| - 1]];
      LastLine(text);
    } else if text == "" {
      NoText();
    }
  }

  /** The joined lines end in a line feed only if they are given one. */
  lemma {:induction false} JoinedEnds(texts: seq<string>, newline: bool)
    requires texts != [] ==> '\n' !in texts[|texts| - 1] && (newline || texts[|texts| - 1] != "")
    ensures EndsWith(JoinedText(texts, newline), ['\n']) == newline
  {
    var text := JoinedText(texts, newline);
    if newline {
      assert text[|text| - 1..] == ['\n'];
    } else if texts != [] {
      var first, rest := texts[0], texts[1..];
      assert texts == [first] + rest;
      JoinedCons(first, rest, newline);
      if rest == [] {
        assert text == first && text[|text| - 1] in text;
      } else {
        JoinedEnds(rest, newline);
        var tail := JoinedText(rest, newline);
        assert text == first + ['\n'] + tail;
        JoinedLength(rest, newline);
        assert |rest| == 1 ==> TotalLength(rest) >= |rest[0]| >= 1;
        assert text[|text| - 1] == tail[|tail| - 1];
        assert tail[|tail| - 1..] == [tail[|tail| - 1]] && text[|text| - 1..] == [text[|text| - 1]];
      }
    }
  }

  /** Processing the processed text again succeeds, and changes nothing if and only if no line
      outside the regions that a line feed follows ends in a carriage return. */
  lemma ProcessedTwice(text: string, render: Renderer, d: Doc)
    requires DocOk(d) && Flat(d) == Lines(text) && Rendered(d, render).Ok? && RendersNoEnd(render)
    ensures ProcessedText(text, render).Ok?
    ensures var once := ProcessedText(text, render).value;
            && ProcessedText(once, render).Ok?
            && (ProcessedText(once, render) == Ok(once) <==> NoReturns(KeptLines(d), EndsWith(text, ['\n'])))
  {
    hide DocOk, Flat, Rendered, KeptLines, Lines, RendersNoEnd, Processed, LinesFit, ReadAgain, NoReturns;
    var newline := EndsWith(text, ['\n']);
    FromFirst(Lines(text));
    ProcessedIsRendered(Lines(text), 0, d, render);
    KeptFit(text, d);
    var out := Rendered(d, render).value;
    var once, again := JoinedText(out, newline), Redone(d, newline, render);
    ProcessedLines(d, newline, render);
    OnceEnds(text, d, render);
    assert Lines(once) == Flat(again) by { OnceLines(text, d, render); }
    RenderedTwice(d, newline, render);
    FromFirst(Lines(once));
    ProcessedIsRendered(Lines(once), 0, again, render);
    var twice := Rendered(again, render).value;
    assert ProcessedText(once, render) == Ok(JoinedText(twice, newline));
    NoReturnsSame(KeptLines(d), newline);
    ReadAgainShorter(KeptLines(d), newline);
    JoinedLength(out, newline);
    JoinedLength(twice, newline);
  }

  lemma FromFirst<T>(lines: seq<T>)
    ensures lines[0..] == lines
  {
  }

  lemma {:induction false} RenderedLast(d: Doc, render: Renderer)
    requires DocOk(d) && Rendered(d, render).Ok?
    ensures var out := Rendered(d, render).value;
            && (out == [] <==> KeptLines(d) == [])
            && (out != [] ==> out[|out| - 1] == KeptLines(d)[|KeptLines(d)| - 1])
  {
    hide BlockOk, BlockLines, BlockKept, RenderedBlock, Open;
    if d != Done {
      BlockLast(d.first, render);
      RenderedLast(d.rest, render);
    }
  }

  lemma BlockLast(b: Block, render: Renderer)
    requires BlockOk(b) && RenderedBlock(b, render).Ok?
    ensures var out := RenderedBlock(b, render).value;
            out != [] && BlockKept(b) != [] && out[|out| - 1] == BlockKept(b)[|BlockKept(b)| - 1]
  {
    hide BlockOk;
  }

  lemma OnceEnds(text: string, d: Doc, render: Renderer)
    requires DocOk(d) && Flat(d) == Lines(text) && Rendered(d, render).Ok?
    ensures var newline := EndsWith(text, ['\n']);
            EndsWith(JoinedText(Rendered(d, render).value, newline), ['\n']) == newline
  {
    hide DocOk, Flat, Rendered, KeptLines, Lines;
    KeptFit(text, d);
    RenderedLast(d, render);
    JoinedEnds(Rendered(d, render).value, EndsWith(text, ['\n']));
  }

  lemma OnceLines(text: string, d: Doc, render: Renderer)
    requires DocOk(d) && Flat(d) == Lines(text) && Rendered(d, render).Ok?
    ensures var newline, out := EndsWith(text, ['\n']), Rendered(d, render).value;
            Lines(JoinedText(out, newline)) == EndLines(out, newline)
  {
    hide DocOk, Flat, Rendered, KeptLines;
    if Rendered(d, render).value == [] {
      RenderedLast(d, render);
      KeptFromFlat(d);
      assert Lines(text) == [];
      assert text == "";
    }
  }

  /** A text without carriage returns at the end of its lines is rendered once and for all. */
  lemma ProcessedOnceAndForAll(text: string, render: Renderer)
    requires ProcessedText(text, render).Ok? && RendersNoEnd(render)
    requires forall k :: 0 <= k < |Lines(text)| ==> StripReturn(Lines(text)[k]) == Lines(text)[k]
    ensures var once := ProcessedText(text, render).value; ProcessedText(once, render) == Ok(once)
  {
    hide DocOk, Flat, Rendered, Lines, RendersNoEnd, Processed;
    FromFirst(Lines(text));
    var d := ProcessedIsDoc(Lines(text), 0, render);
    ProcessedIsRendered(Lines(text), 0, d, render);
    KeptFromFlat(d);
    ProcessedTwice(text, render, d);
  }

  /** Without that condition it need not be: of two carriage returns before a line feed each run
      takes one. */
  lemma ReturnsAreLost(render: Renderer)
    requires RendersNoEnd(render)
    ensures var text := ['\r', '\r', '\n'];
            && ProcessedText(text, render).Ok?
            && ProcessedText(ProcessedText(text, render).value, render) != ProcessedText(text, render)
  {
    hide Lines, StripReturn, DocOk, ProcessedText, RendersNoEnd;
    var text, d := ['\r', '\r', '\n'], More(Plain(['\r']), Done);
    ReturnLine();
    assert Flat(d) == KeptLines(d) == [['\r']];
    assert text[|text| - 1..] == ['\n'];
    ProcessedTwice(text, render, d);
    assert KeptLines(d)[0] == ['\r'];
  }

  lemma ReturnLine()
    ensures Lines(['\r', '\r', '\n']) == [['\r']] && StripReturn(['\r']) == []
    ensures DocOk(More(Plain(['\r']), Done))
  {
    var text := ['\r', '\r', '\n'];
    assert text == ['\r', '\r'] + ['\n'] + [];
    LinesOne(['\r', '\r'], []);
    NoText();
    assert StripReturn(['\r', '\r']) == ['\r'];
    assert SkipSpaces(['\r']) == 1;
    assert TrimStart(['\r']) == [] && Trim(['\r']) == [];
  }
}
