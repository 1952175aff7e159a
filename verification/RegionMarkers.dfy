/** The lines that open and close the regions of a Markdown file, as they are written. */
module RegionMarkers {
  import opened Wrappers
  import opened Text
  import opened Words
  import opened Regions

  /** Any text is what is left of it when trimmed, with white space around it. */
  lemma TrimIs(s: string) returns (before: string, after: string)
    ensures White(before) && White(after) && s == before + Trim(s) + after
    ensures Trim(s) == "" || Trimmed(Trim(s))
  {
    var start := TrimStart(s);
    var from := SkipSpaces(s);
    var end := KeepEnd(start, |start|);
    before, after := s[..from], start[end..];
    assert start == Trim(s) + after;
    assert s == before + start;
    if end > 0 { assert Trim(s)[0] == start[0] == s[from] && Trim(s)[end - 1] == start[end - 1]; }
  }

  lemma TextTrimmed(before: string, s: string, after: string)
    requires White(before) && White(after) && (s == "" || Trimmed(s))
    ensures Trim(before + s + after) == s
  {
    hide IsSpace, Trim;
    if s == "" {
      WhiteAppend(before, after);
      assert before + s + after == before + after;
      WhiteTrimmed(before + after);
    } else {
      TrimAround(before, s, after);
    }
  }

  lemma WhiteTrimmed(s: string)
    requires White(s)
    ensures Trim(s) == ""
  {
    hide IsSpace;
    assert SkipSpaces(s) == |s|;
  }

  /** That a line is a text with white space around it. */
  ghost predicate IsAround(line: string, s: string) {
    exists before, after :: White(before) && White(after) && line == before + s + after
  }

  lemma AroundIs(line: string, s: string)
    requires s == "" || Trimmed(s)
    ensures Trim(line) == s <==> IsAround(line, s)
  {
    hide Trim, White;
    var before, after := TrimIs(line);
    if IsAround(line, s) {
      var b, a :| White(b) && White(a) && line == b + s + a;
      TextTrimmed(b, s, a);
    }
  }

  /** A region is closed by a line that is the end marker, and by no other. */
  lemma EndWritten(line: string)
    ensures IsEnd(line) <==> IsAround(line, "<!-- end -->")
  {
    AroundIs(line, "<!-- end -->");
  }

  /** A line opens or closes a fenced code block if and only if it starts, behind any white space,
      with three backquotes or three tildes. */
  lemma FenceWritten(line: string)
    ensures IsFence(line) <==> exists before, more :: White(before) && (line == before + ("```" + more) || line == before + ("~~~" + more))
  {
    assert "```"[0] == '`' && "~~~"[0] == '~' && !IsSpace('`') && !IsSpace('~');
    hide IsSpace;
    var from := SkipSpaces(line);
    var start := line[from..];
    if IsFence(line) {
      var mark := if StartsWith(start, "```") then "```" else "~~~";
      assert White(line[..from]) && start == mark + start[3..];
      assert line == line[..from] + (mark + start[3..]);
    }
    forall before, more | White(before) && (line == before + ("```" + more) || line == before + ("~~~" + more))
      ensures IsFence(line)
    {
      FenceFound(line, before, more);
    }
  }

  lemma FenceFound(line: string, before: string, more: string)
    requires White(before) && (line == before + ("```" + more) || line == before + ("~~~" + more))
    ensures IsFence(line)
  {
    assert "```"[0] == '`' && "~~~"[0] == '~' && !IsSpace('`') && !IsSpace('~');
    hide IsSpace;
    assert line[0..|before|] == before;
    SkipIs(line, 0, |before|);
    assert StartsWith(line[|before|..], "```") || StartsWith(line[|before|..], "~~~");
  }

  /** That a text is the directive of a table or of a snippet. */
  predicate IsDirective(s: string) { Trimmed(s) && (StartsWith(s, "table:") || StartsWith(s, "snippet:")) }

  /** That a line is a directive within the marks of a comment. */
  ghost predicate Marks(line: string, directive: string) {
    exists before, left, right, after ::
      && White(before) && White(left) && White(right) && White(after)
      && line == before + ("<!--" + (left + directive + right) + "-->") + after
  }

  /** A line opens a region if and only if it is a directive within the marks of a comment, and that
      is the directive the renderer is given. */
  lemma DirectiveWritten(line: string, directive: string)
    ensures DirectiveOf(line) == Some(directive) <==> IsDirective(directive) && Marks(line, directive)
  {
    hide IsSpace, White, Trim, DirectiveIn, Trimmed;
    if DirectiveOf(line) == Some(directive) {
      var before, after := TrimIs(line);
      var left, right := DirectiveInside(Trim(line), directive);
      assert line == before + ("<!--" + (left + directive + right) + "-->") + after;
    }
    if IsDirective(directive) && Marks(line, directive) {
      var before, left, right, after :|
        && White(before) && White(left) && White(right) && White(after)
        && line == before + ("<!--" + (left + directive + right) + "-->") + after;
      var marked := "<!--" + (left + directive + right) + "-->";
      MarkedTrimmed(left + directive + right);
      TextTrimmed(before, marked, after);
      DirectiveMarked(left, directive, right);
    }
  }

  lemma MarkedTrimmed(inside: string)
    ensures Trimmed("<!--" + inside + "-->")
  {
    var s := "<!--" + inside + "-->";
    assert s[0] == '<' && s[|s| - 1] == '>';
  }

  lemma DirectiveInside(trimmed: string, directive: string) returns (left: string, right: string)
    requires DirectiveIn(trimmed) == Some(directive)
    ensures White(left) && White(right) && IsDirective(directive)
    ensures trimmed == "<!--" + (left + directive + right) + "-->"
  {
    hide IsSpace, White, Trim, Trimmed;
    var inner := trimmed[4..|trimmed| - 3];
    left, right := TrimIs(inner);
    assert trimmed == "<!--" + trimmed[4..];
    assert trimmed[4..] == inner + "-->";
    assert directive != "" by { assert "table:"[0] == 't' && "snippet:"[0] == 's'; }
  }

  lemma DirectiveMarked(left: string, directive: string, right: string)
    requires White(left) && White(right) && IsDirective(directive)
    ensures DirectiveIn("<!--" + (left + directive + right) + "-->") == Some(directive)
  {
    hide IsSpace, White, Trim, Trimmed;
    var inner := left + directive + right;
    var s := "<!--" + inner + "-->";
    assert s[4..] == inner + "-->" && s[4..|s| - 3] == inner;
    TextTrimmed(left, directive, right);
  }
}
