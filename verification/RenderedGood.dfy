/** The rendered lines are comments, which the reader clears, or code, of which nothing is cleared. */
module RenderedGood {
  import opened Text
  import opened Words
  import opened Header
  import opened Render
  import opened SurfaceReader
  import opened RenderedLines
  import opened TypeTexts
  import opened ReadBack
  import opened MembersBack

  predicate GoodLine(line: string) { RenderedLine(line) && NeatLine(BlankLine(line)) }

  predicate Good(lines: seq<string>) { forall k :: 0 <= k < |lines| ==> GoodLine(lines[k]) }

  /** Lines of which the reader sees only white space. */
  predicate Unseen(lines: seq<string>) {
    forall k :: 0 <= k < |lines| ==> GoodLine(lines[k]) && White(BlankLine(lines[k]))
  }

  lemma GoodAppend(a: seq<string>, b: seq<string>)
    requires Good(a) && Good(b)
    ensures Good(a + b)
  {
  }

  lemma UnseenAppend(a: seq<string>, b: seq<string>)
    requires Unseen(a) && Unseen(b)
    ensures Unseen(a + b)
  {
  }

  lemma UnseenGood(a: seq<string>)
    requires Unseen(a)
    ensures Good(a)
  {
  }

  // ----- Comments -----

  lemma {:induction false} WhiteBrackets(t: string)
    requires White(t)
    ensures Brackets(t, 0) == 0
    decreases |t|
  {
    hide White, IsSpace;
    if t != "" {
      WhiteFirst(t);
      WhiteBrackets(t[1..]);
    }
  }

  lemma WhiteFirst(t: string)
    requires White(t) && t != ""
    ensures White(t[1..]) && NoBracket(t[0])
  {
  }

  lemma WhiteNeat(line: string)
    requires White(line)
    ensures NeatLine(line) && !Terminated(line)
  {
    hide Brackets;
    WhiteBrackets(line);
  }

  lemma CommentGood(line: string)
    requires CommentLine(line)
    ensures GoodLine(line) && White(BlankLine(line))
  {
    hide CommentLine, White, BlankLine, NeatLine, Terminated;
    CommentIsWhite(line);
    WhiteNeat(BlankLine(line));
  }

  lemma EmptyGood()
    ensures GoodLine("") && White(BlankLine("")) && Unseen([""])
  {
  }

  lemma OneAppend(a: string, b: string)
    requires OneLine(a) && OneLine(b)
    ensures OneLine(a + b)
  {
  }

  /** A line that starts with `//` after spaces is a comment. */
  lemma SlashesComment(indent: string, text: string)
    requires (indent == "" || indent == "    ") && OneLine(text) && StartsWith(text, "//")
    ensures CommentLine(indent + text)
  {
    hide IsSpace;
    NoWhite();
    SlashIs();
    var line := indent + text;
    OneAppend(indent, text);
    assert "//"[0] == '/' && "//"[1] == '/';
    assert line[|indent|] == text[0] == '/' && line[|indent| + 1] == text[1] == '/';
    assert line[0..|indent|] == indent;
    SkipIs(line, 0, |indent|);
  }

  lemma {:induction false} HeadingOneLine(line: string)
    requires OneLine(line)
    ensures OneLine(WithoutHeading(line))
    decreases |line|
  {
    if StartsWith(line, "# ") { HeadingOneLine(line[2..]); }
  }

  lemma TrimOneLine(line: string)
    requires OneLine(line)
    ensures OneLine(Trim(line))
  {
    hide SkipSpaces, KeepEnd;
    var rest := TrimStart(line);
    assert forall k :: 0 <= k < |rest| ==> rest[k] == line[SkipSpaces(line) + k];
  }

  predicate OneLines(lines: seq<string>) { forall k :: 0 <= k < |lines| ==> OneLine(lines[k]) }

  lemma {:induction false} JoinOneLine(ws: seq<string>)
    requires OneLines(ws)
    ensures OneLine(JoinWords(ws))
    decreases |ws|
  {
    hide OneLine;
    if |ws| > 1 {
      JoinOneLine(ws[..|ws| - 1]);
      SpaceOneLine();
      OneAppend(JoinWords(ws[..|ws| - 1]), " ");
      OneAppend(JoinWords(ws[..|ws| - 1]) + " ", ws[|ws| - 1]);
    } else if ws == [] {
      SpaceOneLine();
    }
  }

  lemma SpaceOneLine()
    ensures OneLine(" ") && OneLine("")
  {
  }

  lemma XmlCharOneLine(c: char)
    requires c != '\n'
    ensures OneLine(XmlChar(c))
  {
  }

  lemma {:induction false} XmlOneLine(text: string)
    requires OneLine(text)
    ensures OneLine(Xml(text))
    decreases |text|
  {
    hide XmlChar;
    if text != "" {
      XmlCharOneLine(text[0]);
      XmlOneLine(text[1..]);
      OneAppend(XmlChar(text[0]), Xml(text[1..]));
    }
  }

  lemma {:induction false} ParagraphsOneLine(doc: seq<string>, k: nat, paragraph: seq<string>)
    requires k <= |doc| && OneLines(doc) && OneLines(paragraph)
    ensures OneLines(Paragraphs(doc, k, paragraph))
    decreases |doc| - k
  {
    hide OneLine, WithoutHeading, Trim, JoinWords;
    JoinOneLine(paragraph);
    if k < |doc| {
      if Trim(doc[k]) == "" {
        ParagraphsOneLine(doc, k + 1, []);
      } else {
        TrimOneLine(doc[k]);
        HeadingOneLine(Trim(doc[k]));
        ParagraphsOneLine(doc, k + 1, paragraph + [WithoutHeading(Trim(doc[k]))]);
      }
    }
  }

  /** A comment with a text in it. */
  lemma TagComment(indent: string, open: string, text: string, close: string)
    requires (indent == "" || indent == "    ") && OneLine(open) && OneLine(text) && OneLine(close) && StartsWith(open, "//")
    ensures GoodLine(indent + open + text + close) && White(BlankLine(indent + open + text + close))
  {
    hide OneLine, CommentLine, GoodLine, White, BlankLine;
    var all := open + text + close;
    OneAppend(open, text);
    OneAppend(open + text, close);
    StartsLonger(open, text + close);
    assert open + (text + close) == all;
    SlashesComment(indent, all);
    assert indent + open + text + close == indent + all;
    CommentGood(indent + all);
  }

  lemma StartsLonger(open: string, more: string)
    requires StartsWith(open, "//")
    ensures StartsWith(open + more, "//")
  {
  }

  lemma TagsAre()
    ensures OneLine("/// <summary>") && StartsWith("/// <summary>", "//") && OneLine("</summary>")
    ensures OneLine("/// <para>") && StartsWith("/// <para>", "//") && OneLine("</para>")
    ensures OneLine("/// <remarks>") && StartsWith("/// <remarks>", "//")
    ensures OneLine("/// </remarks>") && StartsWith("/// </remarks>", "//")
  {
  }

  /** A documentation comment is unseen. */
  lemma DocUnseen(indent: string, doc: seq<string>, fallback: string)
    requires (indent == "" || indent == "    ") && OneLines(doc) && OneLine(fallback)
    ensures Unseen(DocLines(indent, doc, fallback))
  {
    hide OneLine, GoodLine, White, BlankLine, Paragraphs, DocLines, Xml, StartsWith, Remarks;
    TagsAre();
    DocIs(indent, doc, fallback);
    var paragraphs := Paragraphs(doc, 0, []);
    ParagraphsOneLine(doc, 0, []);
    if paragraphs != [] { XmlOneLine(paragraphs[0]); }
    TagComment(indent, "/// <summary>", if paragraphs == [] then fallback else Xml(paragraphs[0]), "</summary>");
    SpaceOneLine();
    TagComment(indent, "/// <remarks>", "", "");
    TagComment(indent, "/// </remarks>", "", "");
    assert indent + "/// <remarks>" + "" + "" == indent + "/// <remarks>";
    assert indent + "/// </remarks>" + "" + "" == indent + "/// </remarks>";
    if |paragraphs| > 1 {
      RemarksUnseen(indent, paragraphs[1..]);
    }
  }

  lemma RemarksUnseen(indent: string, paragraphs: seq<string>)
    requires (indent == "" || indent == "    ") && OneLines(paragraphs)
    ensures Unseen(Remarks(indent, paragraphs))
  {
    hide OneLine, GoodLine, White, BlankLine, Xml, StartsWith;
    TagsAre();
    forall k | 0 <= k < |paragraphs|
      ensures GoodLine(Remarks(indent, paragraphs)[k]) && White(BlankLine(Remarks(indent, paragraphs)[k]))
    {
      XmlOneLine(paragraphs[k]);
      TagComment(indent, "/// <para>", Xml(paragraphs[k]), "</para>");
    }
  }

  // ----- Code -----

  /** A text in which nothing ends, opens, closes or is cleared. */
  predicate Calm(s: string) { forall k :: 0 <= k < |s| ==> CodeChar(s[k]) && !Ends(s[k]) && NoBracket(s[k]) }

  lemma CalmAppend(a: string, b: string)
    requires Calm(a) && Calm(b)
    ensures Calm(a + b)
  {
  }

  /** Letters, full stops and spaces. */
  predicate SpelledOut(s: string) { forall k :: 0 <= k < |s| ==> IsLetter(s[k]) || s[k] == '.' || s[k] == ' ' }

  lemma SpelledCalm(s: string)
    requires SpelledOut(s)
    ensures Calm(s)
  {
  }

  lemma CalmType(t: string)
    requires TypeChars(t)
    ensures Calm(t)
  {
  }

  lemma CalmName(n: string)
    requires NameText(n)
    ensures Calm(n) && CodeLine(n)
  {
  }

  lemma {:induction false} BracketsAppend(a: string, b: string, d: nat)
    ensures Brackets(a + b, d) == Brackets(b, Brackets(a, d))
    decreases |a|
  {
    if a == "" {
      assert a + b == b;
    } else {
      assert (a + b)[1..] == a[1..] + b;
      var e := if a[0] == '(' || a[0] == '[' then d + 1 else if a[0] == ')' || a[0] == ']' then Less(d) else d;
      BracketsAppend(a[1..], b, e);
    }
  }

  lemma {:induction false} BracketsCalm(t: string, d: nat)
    requires Calm(t)
    ensures Brackets(t, d) == d
    decreases |t|
  {
    if t != "" { BracketsCalm(t[1..], d); }
  }

  lemma CalmNeat(t: string)
    requires Calm(t)
    ensures Neat(t) && CodeLine(t) && NothingEnds(t)
  {
    hide Brackets;
    BracketsCalm(t, 0);
  }

  /** Code may be put together, and put in brackets. */
  lemma NeatAppend(a: string, b: string)
    requires Neat(a) && CodeLine(a) && Neat(b) && CodeLine(b)
    ensures Neat(a + b) && CodeLine(a + b)
  {
    hide Brackets, Ends, CodeChar;
    BracketsAppend(a, b, 0);
  }

  lemma NeatBracketed(open: string, t: string, close: string)
    requires Calm(t) && ((open == "(" && close == ")") || (open == "[" && close == "]"))
    ensures Neat(open + t + close) && CodeLine(open + t + close)
  {
    hide Calm, Brackets, Neat, CodeChar, Ends;
    OpensCloses(open, close);
    CalmNeat(t);
    BracketsAppend(open, t, 0);
    BracketsCalm(t, 1);
    BracketsAppend(open + t, close, 0);
    NeatIs(open + t + close);
  }

  lemma NeatIs(t: string)
    requires NothingEnds(t) && Brackets(t, 0) == 0
    ensures Neat(t)
  {
  }

  lemma OpensCloses(open: string, close: string)
    requires (open == "(" && close == ")") || (open == "[" && close == "]")
    ensures Brackets(open, 0) == 1 && Brackets(close, 1) == 0
    ensures NothingEnds(open) && NothingEnds(close) && CodeLine(open) && CodeLine(close)
  {
    assert open[1..] == "" && close[1..] == "";
  }

  /** Code that is neat is a good line, with or without a terminator after it. */
  lemma CodeGood(body: string)
    requires Neat(body) && CodeLine(body)
    ensures GoodLine(body) && BlankLine(body) == body && !Terminated(body)
  {
    hide Brackets;
  }

  lemma EndGood(body: string, c: char)
    requires Neat(body) && CodeLine(body) && Ends(c)
    ensures var line := body + [c];
            GoodLine(line) && BlankLine(line) == line && Terminated(line) && line[..|line| - 1] == body
  {
    hide Brackets;
  }
}
