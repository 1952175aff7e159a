/** What blanking does with the comments and literals of a C# text: what stands between their ends
    is cleared, so nothing in it reads as structure. */
module SurfaceLiterals {
  import opened Wrappers
  import opened Text
  import opened Words
  import opened SurfaceBlank

  /** That a literal or a comment stands from `i` to `next` and is cleared between `from` and
      `stop`: what is left of the text is left of what is after it, behind its ends. */
  ghost predicate IsCleared(text: string, i: nat, from: nat, stop: nat, next: nat) {
    && i < |text| && i <= from <= stop <= next <= |text|
    && LexemeAt(text, i, true) == Lexeme(from, stop, next)
  }

  /** What is cleared is spaces and line breaks: no brace, semicolon or quote is left of it. */
  lemma ClearedIsBlank(text: string, i: nat, from: nat, stop: nat, next: nat, lineStart: bool)
    requires i < |text| && IsCleared(text, i, from, stop, next) && !IsSpace(text[i]) && !(text[i] == '#' && lineStart)
    ensures BlankedFrom(text, i, lineStart, true)
         == Then(text[i..from] + Cleared(text[from..stop]) + text[stop..next], BlankedFrom(text, next, false, true))
    ensures forall c :: c in Cleared(text[from..stop]) ==> c == ' ' || c == '\n' || c == '\r'
  {
    hide LexemeAt, DirectiveName, Cleared, BlankedFrom;
    BlankedStep(text, i, lineStart, true);
    LineFeedSpace();
    forall c | c in Cleared(text[from..stop]) ensures c == ' ' || c == '\n' || c == '\r' {
      var k :| 0 <= k < |Cleared(text[from..stop])| && Cleared(text[from..stop])[k] == c;
    }
  }

  lemma LineFeedSpace()
    ensures IsSpace('\n')
  {
  }

  // ----- Regular and character literals -----

  /** A piece of the contents of a literal: a character, or a backslash and any character. */
  datatype Piece = Plain(c: char) | Escaped(c: char)

  predicate PiecesOk(pieces: seq<Piece>, quote: char) {
    forall k :: 0 <= k < |pieces| && pieces[k].Plain? ==>
      pieces[k].c != quote && pieces[k].c != '\\' && pieces[k].c != '\n'
  }

  function Written(pieces: seq<Piece>): string {
    if pieces == [] then ""
    else (if pieces[0].Plain? then [pieces[0].c] else ['\\', pieces[0].c]) + Written(pieces[1..])
  }

  /** Contents written in pieces end at the first quote or line feed after them. */
  lemma {:induction false} PiecesEnd(text: string, k: nat, pieces: seq<Piece>, quote: char, end: char)
    requires PiecesOk(pieces, quote) && StandsAt(text, Written(pieces) + [end], k) && (end == quote || end == '\n')
    requires quote != '\\' && quote != '\n'
    ensures LiteralEnd(text, k, quote) == k + |Written(pieces)|
    decreases |pieces|
  {
    if pieces == [] {
      assert (Written(pieces) + [end])[0] == end;
      assert text[k + 0] == end;
    } else {
      var first := if pieces[0].Plain? then [pieces[0].c] else ['\\', pieces[0].c];
      var rest := Written(pieces[1..]) + [end];
      assert Written(pieces) + [end] == first + rest;
      StandsSplit(text, first, rest, k);
      assert text[k + 0] == first[0];
      PiecesEnd(text, k + |first|, pieces[1..], quote, end);
    }
  }

  /** Contents that end at a quote are written in pieces. */
  lemma {:induction false} EndPieces(text: string, k: nat, quote: char) returns (pieces: seq<Piece>)
    requires LiteralEnd(text, k, quote) < |text| && text[LiteralEnd(text, k, quote)] == quote && quote != '\\'
    ensures PiecesOk(pieces, quote) && StandsAt(text, Written(pieces) + [quote], k)
    decreases |text| - k
  {
    hide StandsAt, Written;
    if k < |text| && text[k] != quote && text[k] != '\n' {
      var first, next := if text[k] == '\\' then Escaped(if k + 1 < |text| then text[k + 1] else ' ') else Plain(text[k]),
        if text[k] == '\\' then k + 2 else k + 1;
      var rest := EndPieces(text, next, quote);
      pieces := [first] + rest;
      WrittenCons(first, rest);
      var start := if first.Plain? then [first.c] else ['\\', first.c];
      assert Written(pieces) + [quote] == start + (Written(rest) + [quote]);
      PieceStands(text, k, first, next);
      StandsJoin(text, start, Written(rest) + [quote], k);
    } else {
      pieces := [];
      QuoteStands(text, k, quote);
    }
  }

  lemma PieceStands(text: string, k: nat, first: Piece, next: nat)
    requires k < |text| && next <= |text|
    requires if text[k] == '\\' then next == k + 2 && k + 1 < |text| && first == Escaped(text[k + 1]) else next == k + 1 && first == Plain(text[k])
    ensures StandsAt(text, if first.Plain? then [first.c] else ['\\', first.c], k)
  {
  }

  lemma QuoteStands(text: string, k: nat, quote: char)
    requires k < |text| && text[k] == quote
    ensures StandsAt(text, Written([]) + [quote], k)
  {
  }

  lemma WrittenCons(first: Piece, rest: seq<Piece>)
    ensures Written([first] + rest) == (if first.Plain? then [first.c] else ['\\', first.c]) + Written(rest)
  {
    assert ([first] + rest)[1..] == rest;
  }

  lemma StandsJoin(s: string, a: string, b: string, i: nat)
    requires StandsAt(s, a, i) && StandsAt(s, b, i + |a|)
    ensures StandsAt(s, a + b, i)
  {
    forall k | 0 <= k < |a + b| ensures s[i + k] == (a + b)[k] {
      if k >= |a| { assert s[i + |a| + (k - |a|)] == b[k - |a|]; }
    }
  }

  lemma OneQuote(text: string, i: nat)
    requires i < |text| && text[i] == '"' && (i + 1 == |text| || text[i + 1] != '"')
    ensures Quotes(text, i) == 1
  {
  }

  lemma TwoQuotes(text: string, i: nat)
    requires i + 1 < |text| && text[i] == text[i + 1] == '"' && (i + 2 == |text| || text[i + 2] != '"')
    ensures Quotes(text, i) == 2
  {
    OneQuote(text, i + 1);
  }

  /** How many quotes stand at a quote, up to two. */
  lemma FewQuotes(text: string, i: nat)
    requires i < |text| && text[i] == '"'
    requires i + 1 < |text| && text[i + 1] == '"' ==> i + 2 == |text| || text[i + 2] != '"'
    ensures Quotes(text, i) < 3
  {
    hide Quotes;
    if i + 1 < |text| && text[i + 1] == '"' { TwoQuotes(text, i); } else { OneQuote(text, i); }
  }

  /** A regular literal that is written at `i` is cleared exactly between its quotes. An empty one
      has no quote after it, or three would open a raw literal. */
  lemma RegularIsCleared(text: string, i: nat, pieces: seq<Piece>)
    requires PiecesOk(pieces, '"') && StandsAt(text, "\"" + (Written(pieces) + "\""), i) && !IsVerbatim(text, i)
    requires pieces == [] && i + 2 < |text| ==> text[i + 2] != '"'
    ensures var stop := i + 1 + |Written(pieces)|; IsCleared(text, i, i + 1, stop, stop + 1)
  {
    hide StandsAt, LiteralEnd, Quotes, IsVerbatim;
    var contents := Written(pieces);
    StandsSplit(text, "\"", contents + "\"", i);
    StandsSplit(text, contents, "\"", i + 1);
    CharAt(text, "\"", i);
    CharAt(text, "\"", i + 1 + |contents|);
    FirstOfContents(text, pieces, i + 1);
    FewQuotes(text, i);
    PiecesEnd(text, i + 1, pieces, '"', '"');
  }

  lemma CharAt(text: string, s: string, i: nat)
    requires StandsAt(text, s, i) && s != ""
    ensures i < |text| && text[i] == s[0]
  {
    assert text[i + 0] == s[0];
  }

  lemma FirstOfContents(text: string, pieces: seq<Piece>, k: nat)
    requires PiecesOk(pieces, '"') && StandsAt(text, Written(pieces), k)
    ensures pieces != [] ==> k < |text| && text[k] != '"'
    ensures pieces == [] ==> |Written(pieces)| == 0
  {
    if pieces != [] {
      CharAt(text, Written(pieces), k);
    }
  }

  /** A character literal is cleared exactly between its quotes. */
  lemma CharacterIsCleared(text: string, i: nat, pieces: seq<Piece>)
    requires PiecesOk(pieces, '\'') && StandsAt(text, ['\''] + (Written(pieces) + ['\'']), i)
    ensures var stop := i + 1 + |Written(pieces)|; IsCleared(text, i, i + 1, stop, stop + 1)
  {
    hide StandsAt, LiteralEnd;
    var contents := Written(pieces);
    StandsSplit(text, ['\''], contents + ['\''], i);
    StandsSplit(text, contents, ['\''], i + 1);
    CharAt(text, ['\''], i);
    CharAt(text, ['\''], i + 1 + |contents|);
    PiecesEnd(text, i + 1, pieces, '\'', '\'');
  }

  // ----- Verbatim literals -----

  /** Contents as a verbatim literal has them: a quote is written twice. */
  function Doubled(contents: string): string {
    if contents == "" then ""
    else (if contents[0] == '"' then "\"\"" else [contents[0]]) + Doubled(contents[1..])
  }

  /** Doubled contents end at the first single quote after them. */
  lemma {:induction false} DoubledEnds(text: string, k: nat, contents: string)
    requires StandsAt(text, Doubled(contents) + "\"", k)
    requires k + |Doubled(contents)| + 1 < |text| ==> text[k + |Doubled(contents)| + 1] != '"'
    ensures VerbatimEnd(text, k) == k + |Doubled(contents)|
    decreases |contents|
  {
    if contents == "" {
      assert Doubled(contents) + "\"" == "\"";
      CharAt(text, "\"", k);
    } else {
      var first := if contents[0] == '"' then "\"\"" else [contents[0]];
      var rest := Doubled(contents[1..]) + "\"";
      assert Doubled(contents) + "\"" == first + rest;
      StandsSplit(text, first, rest, k);
      assert text[k + 0] == first[0] && (contents[0] == '"' ==> text[k + 1] == first[1]);
      DoubledEnds(text, k + |first|, contents[1..]);
    }
  }

  /** That a verbatim literal of some contents stands at `i`, with no quote after it. */
  ghost predicate VerbatimStands(text: string, i: nat, contents: string) {
    && StandsAt(text, "\"" + (Doubled(contents) + "\""), i) && IsVerbatim(text, i)
    && (i + |Doubled(contents)| + 2 < |text| ==> text[i + |Doubled(contents)| + 2] != '"')
  }

  /** A verbatim literal is cleared exactly between its quotes if and only if its contents do not
      start with a quote: the quotes of one that do are taken for those of a raw literal. */
  lemma VerbatimIsCleared(text: string, i: nat, contents: string)
    requires i < |text| && VerbatimStands(text, i, contents)
    ensures var stop := i + 1 + |Doubled(contents)|;
            IsCleared(text, i, i + 1, stop, stop + 1) <==> (contents == "" || contents[0] != '"')
  {
    hide StandsAt, VerbatimEnd, Quotes, IsVerbatim, RawEnd;
    var d := Doubled(contents);
    StandsSplit(text, "\"", d + "\"", i);
    StandsSplit(text, d, "\"", i + 1);
    CharAt(text, "\"", i);
    CharAt(text, "\"", i + 1 + |d|);
    if contents == "" || contents[0] != '"' {
      if contents != "" {
        assert d == [contents[0]] + Doubled(contents[1..]);
        CharAt(text, d, i + 1);
      }
      FewQuotes(text, i);
      DoubledEnds(text, i + 1, contents);
    } else {
      var more := Doubled(contents[1..]);
      assert d == "\"\"" + more;
      StandsSplit(text, "\"\"", more, i + 1);
      ManyQuotes(text, i);
    }
  }

  lemma ManyQuotes(text: string, i: nat)
    requires i < |text| && text[i] == '"' && StandsAt(text, "\"\"", i + 1)
    ensures Quotes(text, i) >= 3
  {
    assert "\"\""[0] == '"' && "\"\""[1] == '"';
    assert text[i + 1 + 0] == '"' && text[i + 1 + 1] == '"';
  }

  /** So a verbatim literal of a quote and a brace is read on to the end of the text: what stands
      after it is cleared as well. */
  lemma VerbatimMisread()
    ensures var text := ['@', '"', '"', '"', '{', '"', ';'];
            VerbatimStands(text, 1, ['"', '{']) && LexemeAt(text, 1, true).stop == |text|
  {
    var text := ['@', '"', '"', '"', '{', '"', ';'];
    DoubledCons('{', "");
    DoubledCons('"', ['{']);
    assert ['{'] + "" == ['{'] && ['"'] + ['{'] == ['"', '{'] && "\"\"" + ['{'] == ['"', '"', '{'];
    assert "\"" + (Doubled(['"', '{']) + "\"") == ['"', '"', '"', '{', '"'];
    assert Quotes(text, 4) == 0 && Quotes(text, 3) == 1 && Quotes(text, 2) == 2 && Quotes(text, 1) == 3;
    NoRun(text);
  }

  lemma DoubledCons(c: char, rest: string)
    ensures Doubled([c] + rest) == (if c == '"' then "\"\"" else [c]) + Doubled(rest)
    ensures Doubled("") == ""
  {
    assert ([c] + rest)[1..] == rest;
  }

  lemma NoRun(text: string)
    requires text == ['@', '"', '"', '"', '{', '"', ';']
    ensures RawEnd(text, 4, 3) == 7
  {
    var three := Repeat('"', 3);
    assert !StandsAt(text, three, 4) by { assert text[4 + 0] != three[0]; }
    assert !StandsAt(text, three, 5) && !StandsAt(text, three, 6);
    assert RawEnd(text, 7, 3) == 7 && RawEnd(text, 6, 3) == 7 && RawEnd(text, 5, 3) == 7;
  }

  // ----- Raw literals -----

  lemma {:induction false} QuotesRun(text: string, k: nat, n: nat)
    requires k + n <= |text| && (forall j :: k <= j < k + n ==> text[j] == '"') && (k + n < |text| ==> text[k + n] != '"')
    ensures Quotes(text, k) == n
    decreases n
  {
    if n > 0 { QuotesRun(text, k + 1, n - 1); }
  }

  lemma {:induction false} RunFound(text: string, k: nat, stop: nat, quotes: nat)
    requires k <= stop <= |text| && StandsAt(text, Repeat('"', quotes), stop)
    requires forall j :: k <= j < stop ==> !StandsAt(text, Repeat('"', quotes), j)
    ensures RawEnd(text, k, quotes) == stop
    decreases stop - k
  {
    hide StandsAt;
    if k < stop { RunFound(text, k + 1, stop, quotes); }
  }

  /** A raw literal of three quotes or more is cleared exactly between them: its contents neither
      start nor end with a quote and hold no run of so many. */
  lemma RawIsCleared(text: string, i: nat, quotes: nat, contents: string)
    requires quotes >= 3 && contents != "" && contents[0] != '"' && contents[|contents| - 1] != '"'
    requires forall k :: 0 <= k < |contents| ==> !StandsAt(contents, Repeat('"', quotes), k)
    requires StandsAt(text, Repeat('"', quotes) + (contents + Repeat('"', quotes)), i)
    ensures var from := i + quotes; IsCleared(text, i, from, from + |contents|, from + |contents| + quotes)
  {
    hide StandsAt, RawEnd, Quotes, IsVerbatim;
    var run, from := Repeat('"', quotes), i + quotes;
    var stop := from + |contents|;
    StandsSplit(text, run, contents + run, i);
    StandsSplit(text, contents, run, from);
    CharAt(text, run, i);
    CharAt(text, contents, from);
    RunStands(text, i, quotes);
    QuotesRun(text, i, quotes);
    forall j | from <= j < stop ensures !StandsAt(text, run, j) {
      NoRunInside(text, from, contents, quotes, j);
    }
    StandsEnds(text, run, stop);
    RunFound(text, from, stop, quotes);
  }

  lemma StandsEnds(text: string, s: string, i: nat)
    requires StandsAt(text, s, i)
    ensures i + |s| <= |text|
  {
  }

  lemma RunStands(text: string, i: nat, quotes: nat)
    requires StandsAt(text, Repeat('"', quotes), i)
    ensures i + quotes <= |text| && forall j :: i <= j < i + quotes ==> text[j] == '"'
  {
    forall j | i <= j < i + quotes ensures text[j] == '"' {
      assert text[i + (j - i)] == Repeat('"', quotes)[j - i];
    }
  }

  lemma NoRunInside(text: string, from: nat, contents: string, quotes: nat, j: nat)
    requires StandsAt(text, contents, from) && from <= j < from + |contents| && quotes > 0
    requires contents[|contents| - 1] != '"' && !StandsAt(contents, Repeat('"', quotes), j - from)
    ensures !StandsAt(text, Repeat('"', quotes), j)
  {
    var run, k, last := Repeat('"', quotes), j - from, |contents| - 1;
    if k + quotes <= |contents| {
      var m :| 0 <= m < quotes && contents[k + m] != run[m];
      assert text[from + (k + m)] == contents[k + m];
      assert text[j + m] != run[m];
    } else {
      assert text[from + last] == contents[last];
      assert text[j + (last - k)] != run[last - k];
    }
  }

  // ----- Comments -----

  /** A line comment is cleared to the end of its line. */
  lemma LineCommentIsCleared(text: string, i: nat, end: nat)
    requires StandsAt(text, "//", i) && i <= end <= |text| && (end < |text| ==> text[end] == '\n')
    requires forall k :: i <= k < end ==> text[k] != '\n'
    ensures IsCleared(text, i, i, end, end)
  {
    assert "//"[0] == '/' && "//"[1] == '/';
    assert text[i + 0] == '/' && text[i + 1] == '/';
    assert FindChar(text, '\n', i) == end;
  }

  lemma {:induction false} CommentEnds(text: string, k: nat, contents: string)
    requires StandsAt(text, contents + "*/", k)
    requires forall j :: 0 <= j < |contents| - 1 ==> !(contents[j] == '*' && contents[j + 1] == '/')
    ensures BlockEnd(text, k) == k + |contents| + 2
    decreases |contents|
  {
    if contents == "" {
      assert contents + "*/" == "*/" && "*/"[0] == '*' && "*/"[1] == '/';
      assert text[k + 0] == "*/"[0] && text[k + 1] == "*/"[1];
    } else {
      var rest := contents[1..];
      assert contents + "*/" == [contents[0]] + (rest + "*/");
      StandsSplit(text, [contents[0]], rest + "*/", k);
      CharAt(text, [contents[0]], k);
      CharAt(text, rest + "*/", k + 1);
      assert (rest + "*/")[0] == if rest == "" then '*' else rest[0];
      assert forall j :: 0 <= j < |rest| ==> rest[j] == contents[j + 1];
      CommentEnds(text, k + 1, rest);
    }
  }

  /** A block comment is cleared up to its end, over line breaks. */
  lemma BlockCommentIsCleared(text: string, i: nat, contents: string)
    requires StandsAt(text, "/*" + (contents + "*/"), i)
    requires forall j :: 0 <= j < |contents| - 1 ==> !(contents[j] == '*' && contents[j + 1] == '/')
    ensures var end := i + |contents| + 4; IsCleared(text, i, i, end, end)
  {
    hide StandsAt, BlockEnd, FindChar;
    StandsSplit(text, "/*", contents + "*/", i);
    SlashStar(text, i);
    CommentEnds(text, i + 2, contents);
  }

  lemma SlashStar(text: string, i: nat)
    requires StandsAt(text, "/*", i)
    ensures i + 1 < |text| && text[i] == '/' && text[i + 1] == '*'
  {
    assert text[i + 0] == "/*"[0] && text[i + 1] == "/*"[1];
  }

  // ----- What is not closed -----

  /** A regular or a character literal that is not closed on its line ends with the line. */
  lemma OpenLiteralEnds(text: string, i: nat, pieces: seq<Piece>, quote: char)
    requires quote == '"' || quote == '\''
    requires PiecesOk(pieces, quote) && StandsAt(text, [quote] + (Written(pieces) + ['\n']), i)
    requires quote == '"' ==> !IsVerbatim(text, i) && pieces != []
    ensures var end := i + 1 + |Written(pieces)|; IsCleared(text, i, i + 1, end, end)
  {
    hide StandsAt, LiteralEnd, Quotes, IsVerbatim;
    var contents := Written(pieces);
    StandsSplit(text, [quote], contents + ['\n'], i);
    StandsSplit(text, contents, ['\n'], i + 1);
    CharAt(text, [quote], i);
    CharAt(text, ['\n'], i + 1 + |contents|);
    if quote == '"' {
      FirstOfContents(text, pieces, i + 1);
      FewQuotes(text, i);
    }
    PiecesEnd(text, i + 1, pieces, quote, '\n');
  }

  /** A block comment that is not closed is cleared to the end of the text. */
  lemma OpenCommentEnds(text: string, i: nat)
    requires StandsAt(text, "/*", i) && forall k :: i + 2 <= k < |text| - 1 ==> !(text[k] == '*' && text[k + 1] == '/')
    ensures IsCleared(text, i, i, |text|, |text|)
  {
    hide BlockEnd, StandsAt;
    SlashStar(text, i);
    NeverClosed(text, i + 2);
  }

  lemma {:induction false} NeverClosed(text: string, k: nat)
    requires k <= |text| && forall j :: k <= j < |text| - 1 ==> !(text[j] == '*' && text[j + 1] == '/')
    ensures BlockEnd(text, k) == |text|
    decreases |text| - k
  {
    if k < |text| { NeverClosed(text, k + 1); }
  }

  lemma EndsInOne(s: string, c: char)
    ensures EndsWith(s, [c]) <==> s != "" && s[|s| - 1] == c
  {
    assert s != "" ==> s[|s| - 1..] == [s[|s| - 1]];
  }

  lemma EndsInTwo(s: string, c: char, d: char)
    ensures EndsWith(s, [c, d]) <==> |s| >= 2 && s[|s| - 2] == c && s[|s| - 1] == d
  {
    assert |s| >= 2 ==> s[|s| - 2..] == [s[|s| - 2], s[|s| - 1]];
  }

  /** A literal is verbatim if an at sign stands before its quote, or an at sign and a dollar sign. */
  lemma VerbatimMarked(text: string, i: nat)
    requires i < |text|
    ensures IsVerbatim(text, i) <==> EndsWith(text[..i], ['@']) || EndsWith(text[..i], ['@', '$'])
  {
    hide EndsWith;
    EndsInOne(text[..i], '@');
    EndsInTwo(text[..i], '@', '$');
  }

  // ----- Contents kept -----

  /** Where literals are kept, the same is passed over and nothing of it is cleared; comments are
      cleared all the same. */
  lemma LiteralsAreKept(text: string, i: nat, from: nat, stop: nat, next: nat)
    requires IsCleared(text, i, from, stop, next)
    ensures text[i] == '"' || text[i] == '\'' ==> LexemeAt(text, i, false) == Lexeme(i, i, next)
    ensures text[i] != '"' && text[i] != '\'' ==> LexemeAt(text, i, false) == Lexeme(from, stop, next)
  {
    hide FindChar, BlockEnd, LiteralAt, CharacterAt;
  }

  // ----- Directives -----

  lemma {:induction false} LettersAre(s: string, at: nat, name: string)
    requires at + |name| <= |s| && s[at..at + |name|] == name && (forall k :: 0 <= k < |name| ==> IsLetter(name[k]))
    requires at + |name| < |s| ==> !IsLetter(s[at + |name|])
    ensures LettersEnd(s, at) == at + |name|
    decreases |name|
  {
    hide IsLetter;
    if name != "" {
      assert s[at] == s[at..at + |name|][0] == name[0];
      assert s[at + 1..at + 1 + |name[1..]|] == s[at..at + |name|][1..] == name[1..];
      LettersAre(s, at + 1, name[1..]);
    }
  }

  lemma DirectiveNamed(white: string, name: string, more: string)
    requires White(white) && name != "" && (forall k :: 0 <= k < |name| ==> IsLetter(name[k]))
    requires more == "" || !IsLetter(more[0])
    ensures DirectiveName(white + (name + more)) == name
  {
    LetterPlain(name[0]);
    hide IsSpace, IsLetter;
    var line := white + (name + more);
    assert line[0..|white|] == white && line[|white|] == name[0];
    SkipIs(line, 0, |white|);
    var s := line[|white|..];
    assert s == name + more && s[0..0 + |name|] == name;
    assert more != "" ==> s[|name|] == more[0];
    LettersAre(s, 0, name);
  }

  lemma LetterPlain(c: char)
    requires IsLetter(c)
    ensures !IsSpace(c)
  {
  }

  /** A directive line is cleared to its end, but `#if`, `#elif` and `#else` are refused, with the number
      of their line. */
  lemma DirectiveLine(text: string, i: nat, white: string, name: string, more: string, end: nat, strings: bool)
    requires i < end <= |text| && text[i..end] == "#" + (white + (name + more)) && (end < |text| ==> text[end] == '\n')
    requires forall k :: i <= k < end ==> text[k] != '\n'
    requires White(white) && name != "" && (forall k :: 0 <= k < |name| ==> IsLetter(name[k])) && (more == "" || !IsLetter(more[0]))
    ensures BlankedFrom(text, i, true, strings)
         == if name == "if" || name == "elif" || name == "else" then
              Err(SurfaceBlank.Directive(Count(text[..i], '\n') + 1, name))
            else Then(Cleared(text[i..end]), BlankedFrom(text, end, true, strings))
  {
    HashPlain();
    hide IsSpace, DirectiveName, IsLetter, Cleared;
    var line := white + (name + more);
    assert text[i] == text[i..end][0] == '#';
    assert text[i + 1..end] == text[i..end][1..] == line;
    assert FindChar(text, '\n', i) == end;
    DirectiveNamed(white, name, more);
  }

  lemma HashPlain()
    ensures !IsSpace('#') && '#' != '\n'
  {
  }
}
