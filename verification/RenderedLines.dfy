/** Rendered lines as the reader sees them: blanked, and read one line at a time. */
module RenderedLines {
  import opened Wrappers
  import opened Text
  import opened Words
  import opened Surface
  import opened SurfaceBlank
  import opened SurfaceReader
  import opened Render

  // ----- Blanked lines -----

  predicate CodeChar(c: char) { c != '\n' && c != '/' && c != '"' && c != '\'' && c != '#' }

  /** A line in which nothing starts a comment, a literal or a directive. */
  predicate CodeLine(line: string) { forall k :: 0 <= k < |line| ==> CodeChar(line[k]) }

  predicate OneLine(line: string) { forall k :: 0 <= k < |line| ==> line[k] != '\n' }

  /** A line that is a comment. */
  predicate CommentLine(line: string) {
    var at := SkipSpaces(line);
    OneLine(line) && at + 1 < |line| && line[at] == '/' && line[at + 1] == '/'
  }

  predicate RenderedLine(line: string) { CodeLine(line) || CommentLine(line) }

  function BlankLine(line: string): string {
    if CodeLine(line) then line else line[..SkipSpaces(line)] + Cleared(line[SkipSpaces(line)..])
  }

  function BlankLines(lines: seq<string>): (r: seq<string>)
    ensures |r| == |lines| && forall k :: 0 <= k < |r| ==> r[k] == BlankLine(lines[k])
  {
    seq(|lines|, k requires 0 <= k < |lines| => BlankLine(lines[k]))
  }

  lemma PlainLexeme(text: string, i: nat, strings: bool)
    requires i < |text| && CodeChar(text[i])
    ensures LexemeAt(text, i, strings) == Lexeme(i, i, i + 1) && Part(text, i, Lexeme(i, i, i + 1)) == [text[i]]
  {
    assert Cleared(text[i..i]) == "";
  }

  lemma CommentLexeme(text: string, i: nat, end: nat, strings: bool)
    requires i + 1 < end < |text| && text[i] == '/' && text[i + 1] == '/'
    requires text[end] == '\n' && forall k :: i <= k < end ==> text[k] != '\n'
    ensures LexemeAt(text, i, strings) == Lexeme(i, end, end)
    ensures Part(text, i, Lexeme(i, end, end)) == Cleared(text[i..end])
  {
    hide BlockEnd, LiteralAt, CharacterAt;
    assert FindChar(text, '\n', i) == end;
  }

  lemma LineEnd(text: string, end: nat, lineStart: bool, strings: bool)
    requires end < |text| && text[end] == '\n'
    ensures BlankedFrom(text, end, lineStart, strings) == Then("\n", BlankedFrom(text, end + 1, true, strings))
  {
    hide LexemeAt, Cleared, DirectiveName, Part;
    assert [text[end]] == "\n";
  }

  /** Code is left as it is, up to the end of its line. */
  lemma {:induction false} CodeBlanks(text: string, i: nat, end: nat, lineStart: bool, strings: bool)
    requires i <= end < |text| && text[end] == '\n' && forall k :: i <= k < end ==> CodeChar(text[k])
    ensures BlankedFrom(text, i, lineStart, strings)
         == Then(text[i..end] + "\n", BlankedFrom(text, end + 1, true, strings))
    decreases end - i
  {
    hide LexemeAt, Cleared, DirectiveName, Part, IsSpace, BlankedFrom, Then;
    if i == end {
      LineEnd(text, end, lineStart, strings);
      assert text[i..end] + "\n" == "\n";
    } else {
      BlankedStep(text, i, lineStart, strings);
      PlainLexeme(text, i, strings);
      var after := lineStart && IsSpace(text[i]);
      CodeBlanks(text, i + 1, end, after, strings);
      ThenTwice([text[i]], text[i + 1..end] + "\n", BlankedFrom(text, end + 1, true, strings));
      assert [text[i]] + (text[i + 1..end] + "\n") == text[i..end] + "\n";
    }
  }

  /** Of a comment line, the spaces before the comment are kept and the comment is cleared. */
  lemma {:induction false} CommentBlanks(text: string, i: nat, at: nat, end: nat, strings: bool)
    requires i <= at && at + 1 < end < |text| && text[end] == '\n' && text[at] == '/' && text[at + 1] == '/'
    requires (forall k :: i <= k < at ==> IsSpace(text[k])) && forall k :: i <= k < end ==> text[k] != '\n'
    ensures BlankedFrom(text, i, true, strings)
         == Then(text[i..at] + Cleared(text[at..end]) + "\n", BlankedFrom(text, end + 1, true, strings))
    decreases at - i
  {
    hide LexemeAt, Cleared, DirectiveName, Part, BlankedFrom, Then, IsSpace;
    BlankedStep(text, i, true, strings);
    if i == at {
      SlashIs();
      CommentLexeme(text, i, end, strings);
      LineEnd(text, end, false, strings);
      ThenTwice(Cleared(text[at..end]), "\n", BlankedFrom(text, end + 1, true, strings));
      assert text[i..at] + Cleared(text[at..end]) + "\n" == Cleared(text[at..end]) + "\n";
    } else {
      CommentBlanks(text, i + 1, at, end, strings);
      var rest := text[i + 1..at] + Cleared(text[at..end]) + "\n";
      ThenTwice([text[i]], rest, BlankedFrom(text, end + 1, true, strings));
      assert [text[i]] + rest == text[i..at] + Cleared(text[at..end]) + "\n";
    }
  }

  lemma SlashIs()
    ensures !IsSpace('/') && !IsSpace('#')
  {
  }

  /** A rendered line is blanked as a line of its own. */
  lemma LineBlanks(text: string, i: nat, line: string, strings: bool)
    requires RenderedLine(line) && i + |line| < |text| && text[i..i + |line|] == line && text[i + |line|] == '\n'
    ensures BlankedFrom(text, i, true, strings)
         == Then(BlankLine(line) + ['\n'], BlankedFrom(text, i + |line| + 1, true, strings))
  {
    hide BlankedFrom, Then, Cleared, CodeChar, IsSpace;
    var end := i + |line|;
    assert forall k :: i <= k < end ==> text[k] == line[k - i];
    assert "\n" == ['\n'];
    if CodeLine(line) {
      CodeBlanks(text, i, end, true, strings);
    } else {
      var at := SkipSpaces(line);
      CommentBlanks(text, i, i + at, end, strings);
      assert text[i..i + at] == line[..at] && text[i + at..end] == line[at..];
    }
  }

  /** Rendered lines are blanked line by line. */
  lemma {:induction false} LinesBlanked(text: string, i: nat, lines: seq<string>, strings: bool)
    requires i <= |text| && text[i..] == LinesText(lines) && forall k :: 0 <= k < |lines| ==> RenderedLine(lines[k])
    ensures BlankedFrom(text, i, true, strings) == Ok(LinesText(BlankLines(lines)))
    decreases |lines|
  {
    hide BlankedFrom, RenderedLine, BlankLine, BlankLines, LinesText, Then;
    if lines == [] {
      NoText(text, i, strings);
    } else {
      var line, rest := lines[0], lines[1..];
      LinesTextCons(line, rest);
      assert lines == [line] + rest;
      var next := i + |line| + 1;
      LineStands(text, i, line, LinesText(rest));
      LineBlanks(text, i, line, strings);
      LinesBlanked(text, next, rest, strings);
      BlankCons(line, rest);
      LinesTextCons(BlankLine(line), BlankLines(rest));
      ThenOk(BlankLine(line) + ['\n'], LinesText(BlankLines(rest)));
    }
  }

  lemma BlankCons(line: string, rest: seq<string>)
    ensures BlankLines([line] + rest) == [BlankLine(line)] + BlankLines(rest)
  {
    hide BlankLine;
  }

  lemma ThenOk(out: string, more: string)
    ensures Then(out, Ok(more)) == Ok(out + more)
  {
  }

  /** A line and the line feed after it, at the front of what is left of a text. */
  lemma LineStands(text: string, i: nat, line: string, rest: string)
    requires i <= |text| && text[i..] == line + ['\n'] + rest
    ensures var end := i + |line|;
            end < |text| && text[i..end] == line && text[end] == '\n' && text[end + 1..] == rest
  {
    hide StandsAt;
    assert text[i..] == line + (['\n'] + rest);
    StandsRest(text, line, ['\n'] + rest, i);
    StandsSlice(text, line, i);
    assert text[i + |line|..][0] == '\n' && text[i + |line|..][1..] == rest;
  }

  lemma NoText(text: string, i: nat, strings: bool)
    requires i <= |text| && text[i..] == LinesText([])
    ensures BlankedFrom(text, i, true, strings) == Ok(LinesText(BlankLines([])))
  {
    assert |text[i..]| == 0 && BlankLines([]) == [];
  }

  lemma LinesTextCons(line: string, rest: seq<string>)
    ensures LinesText([line] + rest) == line + ['\n'] + LinesText(rest)
  {
    assert ([line] + rest)[1..] == rest;
  }

  /** The reader sees blanked lines, with or without the contents of literals. */
  lemma RenderedBlanked(lines: seq<string>, strings: bool)
    requires forall k :: 0 <= k < |lines| ==> RenderedLine(lines[k])
    ensures Blanked(LinesText(lines), strings) == Ok(LinesText(BlankLines(lines)))
  {
    hide BlankedFrom, RenderedLine, BlankLine, LinesText;
    assert LinesText(lines)[0..] == LinesText(lines);
    LinesBlanked(LinesText(lines), 0, lines, strings);
  }

  lemma CommentIsWhite(line: string)
    requires CommentLine(line)
    ensures White(BlankLine(line)) && !CodeLine(line)
  {
    hide IsSpace, SkipSpaces, Cleared, ClearedChar;
    var at := SkipSpaces(line);
    assert !CodeChar(line[at]);
    var r := BlankLine(line);
    assert r == line[..at] + Cleared(line[at..]);
    forall k | 0 <= k < |r| ensures IsSpace(r[k]) {
      if k >= at { ClearedSpace(line[at..][k - at]); }
    }
  }

  lemma ClearedSpace(c: char)
    ensures IsSpace(ClearedChar(c))
  {
  }

  // ----- Lines read one at a time -----

  /** The depth after a text, of the brackets in which nothing ends. */
  function Brackets(t: string, d: nat): nat {
    if t == "" then d
    else if t[0] == '(' || t[0] == '[' then Brackets(t[1..], d + 1)
    else if t[0] == ')' || t[0] == ']' then Brackets(t[1..], Less(d))
    else Brackets(t[1..], d)
  }

  predicate NothingEnds(t: string) { forall k :: 0 <= k < |t| ==> !Ends(t[k]) }

  /** A text in which nothing ends and every bracket is closed. */
  predicate Neat(t: string) { NothingEnds(t) && Brackets(t, 0) == 0 }

  predicate Terminated(line: string) { line != "" && Ends(line[|line| - 1]) }

  predicate NeatLine(line: string) {
    if Terminated(line) then Neat(line[..|line| - 1]) else Neat(line)
  }

  /** What some lines declare, after what is `pending` on the lines before. */
  function ReadLines(
      file: string, lines: seq<string>, pending: string, stack: seq<Container>, out: Declarations)
    : Result<Declarations, ReadError>
    decreases |lines|
  {
    if lines == [] then Ok(out)
    else
      var line := lines[0];
      if Terminated(line) then
        var segment := pending + line[..|line| - 1];
        var ended := Ended(file, line[|line| - 1], segment, segment, stack, out);
        if ended.Err? then Err(ended.error) else ReadLines(file, lines[1..], "\n", ended.value.0, ended.value.1)
      else ReadLines(file, lines[1..], pending + line + "\n", stack, out)
  }

  /** A text in which nothing ends is passed over. */
  lemma {:induction false} TextPassed(
      file: string, content: string, i: nat, t: string, stack: seq<Container>, d: nat, start: nat, out: Declarations)
    requires start <= i && i + |t| <= |content| && content[i..i + |t|] == t && NothingEnds(t)
    ensures ReadFrom(file, content, content, i, stack, d, start, out)
         == ReadFrom(file, content, content, i + |t|, stack, Brackets(t, d), start, out)
    decreases |t|
  {
    hide ReadFrom, Ends;
    if t != "" {
      assert content[i] == content[i..i + |t|][0] == t[0];
      assert content[i + 1..i + 1 + |t[1..]|] == content[i..i + |t|][1..] == t[1..];
      ReadStep(file, content, content, i, stack, d, start, out);
      var e := if t[0] == '(' || t[0] == '[' then d + 1 else if t[0] == ')' || t[0] == ']' then Less(d) else d;
      TextPassed(file, content, i + 1, t[1..], stack, e, start, out);
    }
  }

  lemma LineFeedPassed(
      file: string, content: string, i: nat, stack: seq<Container>, start: nat, out: Declarations)
    requires start <= i < |content| && content[i] == '\n'
    ensures ReadFrom(file, content, content, i, stack, 0, start, out)
         == ReadFrom(file, content, content, i + 1, stack, 0, start, out)
  {
    hide Ended;
    ReadStep(file, content, content, i, stack, 0, start, out);
  }

  /** Neat lines are read one at a time. */
  lemma {:induction false} LinesRead(
      file: string, content: string, start: nat, i: nat, lines: seq<string>, stack: seq<Container>, out: Declarations)
    requires start <= i <= |content| && content[i..] == LinesText(lines)
    requires forall k :: 0 <= k < |lines| ==> NeatLine(lines[k])
    ensures ReadFrom(file, content, content, i, stack, 0, start, out)
         == ReadLines(file, lines, content[start..i], stack, out)
    decreases |lines|
  {
    hide ReadFrom, Ended, LinesText, NothingEnds, Brackets, Ends;
    if lines == [] {
      NothingLeft(content, i);
      ReadStep(file, content, content, i, stack, 0, start, out);
    } else {
      var line, rest := lines[0], lines[1..];
      assert lines == [line] + rest;
      LinesTextCons(line, rest);
      var end := i + |line|;
      LineStands(content, i, line, LinesText(rest));
      assert NeatLine(line);
      if Terminated(line) {
        var last := end - 1;
        LineCut(content, i, line);
        TextPassed(file, content, i, line[..|line| - 1], stack, 0, start, out);
        ReadStep(file, content, content, last, stack, 0, start, out);
        assert content[start..last] == content[start..i] + line[..|line| - 1];
        EndsNoBracket(content[last]);
        var ended := Ended(file, content[last], content[start..last], content[start..last], stack, out);
        if ended.Ok? {
          LineFeedPassed(file, content, end, ended.value.0, end, ended.value.1);
          LinesRead(file, content, end, end + 1, rest, ended.value.0, ended.value.1);
          assert content[end..end + 1] == "\n";
        }
      } else {
        TextPassed(file, content, i, line, stack, 0, start, out);
        LineFeedPassed(file, content, end, stack, start, out);
        LinesRead(file, content, start, end + 1, rest, stack, out);
        assert content[start..end + 1] == content[start..i] + line + "\n";
      }
    }
  }

  /** A line that stands in a text stands there without its last character. */
  lemma LineCut(content: string, i: nat, line: string)
    requires i + |line| <= |content| && line != [] && content[i..i + |line|] == line
    ensures var last := i + |line| - 1; content[i..last] == line[..|line| - 1] && content[last] == line[|line| - 1]
  {
    var last := i + |line| - 1;
    assert content[i..i + |line|][|line| - 1] == content[last];
    forall k | 0 <= k < last - i ensures content[i..last][k] == line[..|line| - 1][k] {
      assert content[i..i + |line|][k] == content[i + k];
    }
  }

  lemma EndsNoBracket(c: char)
    requires Ends(c)
    ensures c != '(' && c != '[' && c != ')' && c != ']'
  {
  }

  lemma NothingLeft(content: string, i: nat)
    requires i <= |content| && content[i..] == LinesText([])
    ensures i == |content|
  {
    assert |content[i..]| == 0;
  }

  /** What the reader makes of rendered lines. */
  lemma RenderedRead(file: string, lines: seq<string>)
    requires forall k :: 0 <= k < |lines| ==> RenderedLine(lines[k]) && NeatLine(BlankLine(lines[k]))
    ensures Read(file, LinesText(lines)) == ReadLines(file, BlankLines(lines), "", [], Declarations([], [], []))
  {
    hide ReadFrom, Blanked, BlankLine, LinesText, RenderedLine, NeatLine;
    RenderedBlanked(lines, false);
    RenderedBlanked(lines, true);
    var content := LinesText(BlankLines(lines));
    assert content[0..] == content && content[0..0] == "";
    LinesRead(file, content, 0, 0, BlankLines(lines), [], Declarations([], [], []));
  }
}
