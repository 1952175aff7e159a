/** The directives of a header as they are written, and what a processed one does: which group of a
    conditional is kept, and what is left in the table of macros. */
module Directives {
  import opened Wrappers
  import opened Text
  import opened Words
  import C = Condition
  import opened Preprocess
  import opened PreprocessGroups

  // ----- The text of a directive -----

  /** That no comment starts in a text. */
  predicate NoComment(s: string, at: nat := 0) {
    forall k :: at <= k < |s| - 1 ==> s[k] == '/' ==> s[k + 1] != '/' && s[k + 1] != '*'
  }

  predicate NoMark(s: string) { forall k :: 0 <= k < |s| ==> s[k] != '/' && s[k] != '*' }

  /** What stands after the `#`: a word, and white space before what follows it. */
  function Spelled(inside: string, word: string, gap: string, rest: string, after: string): string {
    inside + (word + gap + rest) + after
  }

  /** That a line is `#`, a word and what follows the word, with any white space around them. */
  ghost predicate Written(text: string, word: string, rest: string) {
    exists before, inside, gap, after ::
      && White(before) && White(inside) && White(gap) && White(after) && (gap == "" <==> rest == "")
      && text == before + ("#" + Spelled(inside, word, gap, rest, after))
  }

  /** What a directive may be followed by: nothing, or a text without comments and without white
      space around it. */
  predicate IsRest(rest: string) { rest == "" || (Trimmed(rest) && NoComment(rest)) }

  predicate Letters(word: string) { word != "" && forall k :: 0 <= k < |word| ==> 'a' <= word[k] <= 'z' }

  lemma WhiteNoMark(s: string)
    requires White(s)
    ensures NoMark(s) && '#' !in s
  {
    assert !IsSpace('/') && !IsSpace('*') && !IsSpace('#');
    hide IsSpace;
  }

  lemma LettersPlain(word: string)
    requires Letters(word)
    ensures NoMark(word) && IsWord(word) && Trimmed(word)
  {
  }

  lemma NoMarkAppend(a: string, b: string)
    requires NoMark(a) && NoMark(b)
    ensures NoMark(a + b)
  {
  }

  lemma NoCommentAround(a: string, s: string, b: string)
    requires NoMark(a) && NoComment(s) && NoMark(b)
    ensures NoComment(a + s + b)
  {
    var t := a + s + b;
    forall k | 0 <= k < |t| - 1 && t[k] == '/' ensures t[k + 1] != '/' && t[k + 1] != '*' {
      assert |a| <= k < |a| + |s| && t[k] == s[k - |a|];
      if k + 1 < |a| + |s| {
        assert t[k + 1] == s[k - |a| + 1];
      } else {
        assert t[k + 1] == b[k + 1 - |a| - |s|];
      }
    }
  }

  lemma NothingStripped(s: string, at: nat)
    requires at <= |s| && NoComment(s, at)
    ensures StripComments(s, at) == s[at..]
  {
    assert "//"[0] == '/' && "//"[1] == '/' && "/*"[0] == '/' && "/*"[1] == '*';
    forall k | at <= k <= |s| ensures !StandsAt(s, "//", k) && !StandsAt(s, "/*", k) {
      if k + 2 <= |s| { assert s[k + 0] == s[k] && s[k + 1] == s[k + 1]; }
    }
  }

  /** How a directive is read: its word and what follows the word. */
  lemma DirectiveRead(text: string, word: string, rest: string)
    requires Written(text, word, rest) && Letters(word) && IsRest(rest)
    ensures var start := TrimStart(text);
            && start != [] && start[0] == '#'
            && var directive := Trim(StripComments(start[1..]));
               var at := FindSpace(directive);
               && directive[..at] == word
               && rest == if at < |directive| then Trim(directive[at + 1..]) else ""
  {
    hide IsSpace, TrimStart, Trim, StripComments, NoComment, Trimmed, White, Letters, Spelled;
    var before, inside, gap, after :|
      && White(before) && White(inside) && White(gap) && White(after) && (gap == "" <==> rest == "")
      && text == before + ("#" + Spelled(inside, word, gap, rest, after));
    var spelled := Spelled(inside, word, gap, rest, after);
    Starts(text, before, spelled);
    SpelledRead(inside, word, gap, rest, after);
    LettersPlain(word);
    WordSplit(word, gap, rest);
  }

  lemma SpelledRead(inside: string, word: string, gap: string, rest: string, after: string)
    requires White(inside) && White(gap) && White(after) && Letters(word) && IsRest(rest) && (gap == "" <==> rest == "")
    ensures Trim(StripComments(Spelled(inside, word, gap, rest, after))) == word + gap + rest
  {
    hide IsSpace, Trim, StripComments, Trimmed, White, Letters;
    var spelled := Spelled(inside, word, gap, rest, after);
    SpelledPlain(inside, word, gap, rest, after);
    NothingStripped(spelled, 0);
    assert spelled[0..] == spelled;
    LettersPlain(word);
    DirectiveTrimmed(word, gap, rest);
    TrimAround(inside, word + gap + rest, after);
  }

  lemma Starts(text: string, before: string, more: string)
    requires White(before) && text == before + ("#" + more)
    ensures TrimStart(text) == "#" + more && (TrimStart(text))[1..] == more && (TrimStart(text))[0] == '#'
  {
    assert text[0..|before|] == before && text[|before|] == '#';
    SkipIs(text, 0, |before|);
    assert text[|before|..] == "#" + more;
  }

  lemma SpelledPlain(inside: string, word: string, gap: string, rest: string, after: string)
    requires White(inside) && White(gap) && White(after) && Letters(word) && IsRest(rest)
    ensures NoComment(Spelled(inside, word, gap, rest, after))
  {
    hide White, Letters, IsSpace, NoComment, NoMark, Trimmed;
    WhiteNoMark(inside);
    WhiteNoMark(gap);
    WhiteNoMark(after);
    LettersPlain(word);
    NoMarkAppend(inside, word);
    NoMarkAppend(inside + word, gap);
    EmptyPlain();
    NoCommentAround(inside + word + gap, rest, after);
    assert Spelled(inside, word, gap, rest, after) == inside + word + gap + rest + after;
  }

  lemma EmptyPlain()
    ensures NoComment("")
  {
  }

  lemma DirectiveTrimmed(word: string, gap: string, rest: string)
    requires Trimmed(word) && (gap == "" <==> rest == "") && (rest == "" || Trimmed(rest))
    ensures Trimmed(word + gap + rest)
  {
    hide IsSpace;
    var t := word + gap + rest;
    assert t[0] == word[0];
    assert t[|t| - 1] == if rest == "" then word[|word| - 1] else rest[|rest| - 1];
  }

  lemma WordSplit(word: string, gap: string, rest: string)
    requires IsWord(word) && White(gap) && (gap == "" <==> rest == "") && (rest == "" || Trimmed(rest))
    ensures var directive := word + gap + rest;
            var at := FindSpace(directive);
            at == |word| && directive[..at] == word && rest == if at < |directive| then Trim(directive[at + 1..]) else ""
  {
    hide IsSpace, Trim;
    var directive := word + gap + rest;
    assert forall k :: 0 <= k < |word| ==> directive[k] == word[k];
    if rest != "" {
      assert directive[|word|] == gap[0];
      assert directive[|word| + 1..] == gap[1..] + rest + "";
      assert White(gap[1..]);
      TrimAround(gap[1..], rest, "");
    }
  }

  // ----- Comments -----

  /** That a comment may start after a text: nothing of one is in it or at its end. */
  predicate BeforeComment(s: string) { NoComment(s) && (s == "" || s[|s| - 1] != '/') }

  /** A directive ends before a line comment. */
  lemma LineCommentDropped(before: string, s: string, comment: string)
    requires White(before) && BeforeComment(s)
    ensures DirectiveOf(before + ("#" + (s + ("//" + comment)))) == DirectiveOf(before + ("#" + s))
  {
    hide IsSpace, White, StripComments, Trim, TrimStart;
    Starts(before + ("#" + s), before, s);
    Starts(before + ("#" + (s + ("//" + comment))), before, s + ("//" + comment));
    NothingStripped(s, 0);
    assert s[0..] == s;
    StripLine(s, comment);
  }

  lemma StripLine(s: string, comment: string)
    requires BeforeComment(s)
    ensures StripComments(s + ("//" + comment)) == s
  {
    var all, at := s + ("//" + comment), |s|;
    assert all[at] == '/' && all[at + 1] == '/';
    CommentFound(all, s);
    assert StandsAt(all, "//", at) && !StandsAt(all, "/*", at);
    assert Find(all, "//") == Some(at);
    assert all[0..at] == s;
  }

  /** No comment starts inside such a text. */
  lemma CommentFound(all: string, s: string)
    requires BeforeComment(s) && |s| + 2 <= |all| && all[..|s|] == s
    ensures forall k :: 0 <= k < |s| ==> !StandsAt(all, "//", k) && !StandsAt(all, "/*", k)
    ensures StandsAt(all, "//", |s|) <==> all[|s|] == '/' && all[|s| + 1] == '/'
    ensures StandsAt(all, "/*", |s|) <==> all[|s|] == '/' && all[|s| + 1] == '*'
  {
    assert "//"[0] == '/' && "//"[1] == '/' && "/*"[0] == '/' && "/*"[1] == '*';
    assert all[|s| + 0] == all[|s|];
    forall k | 0 <= k < |s| ensures !StandsAt(all, "//", k) && !StandsAt(all, "/*", k) {
      assert all[k + 0] == all[..|s|][k] == s[k];
      if k + 1 < |s| { assert all[k + 1] == all[..|s|][k + 1] == s[k + 1]; }
    }
  }

  /** That the end of a block comment is in a text. */
  predicate Closes(s: string) { exists k :: 0 <= k < |s| - 1 && s[k] == '*' && s[k + 1] == '/' }

  function Commented(s: string, comment: string, more: string): string { s + ("/*" + comment + "*/" + more) }

  function Spaced(s: string, more: string): string { s + " " + more }

  /** A block comment in a directive stands for one space. */
  lemma BlockCommentIsSpace(before: string, s: string, comment: string, more: string)
    requires White(before) && BeforeComment(s) && NoComment(more) && !Closes(comment + "*")
    ensures DirectiveOf(before + ("#" + Commented(s, comment, more))) == DirectiveOf(before + ("#" + Spaced(s, more)))
  {
    hide IsSpace, White, StripComments, Trim, TrimStart, Closes, NoComment, BeforeComment, Commented, Spaced;
    var comments, spaced := Commented(s, comment, more), Spaced(s, more);
    Starts(before + ("#" + comments), before, comments);
    Starts(before + ("#" + spaced), before, spaced);
    BlockFound(s, comment, more);
    StripBlock(comments, s, |s| + 2 + |comment|, more);
    SpacePlain(s, more);
    NothingStripped(spaced, 0);
    assert spaced[0..] == spaced;
  }

  lemma SpacePlain(s: string, more: string)
    requires BeforeComment(s) && NoComment(more)
    ensures NoComment(Spaced(s, more))
  {
    var t := Spaced(s, more);
    forall k | 0 <= k < |t| - 1 && t[k] == '/' ensures t[k + 1] != '/' && t[k + 1] != '*' {
      if k < |s| - 1 {
        assert t[k] == s[k] && t[k + 1] == s[k + 1];
      } else if k >= |s| {
        assert t[k] == more[k - |s| - 1] && t[k + 1] == more[k - |s|];
      }
    }
  }

  lemma StripBlock(all: string, s: string, close: nat, more: string)
    requires |s| + 2 <= close && close + 2 + |more| == |all| && all[..|s|] == s && all[close + 2..] == more && NoComment(more)
    requires Find(all, "/*") == Some(|s|) && Find(all, "*/", |s| + 2) == Some(close)
    requires Find(all, "//").Some? ==> Find(all, "//").value > |s|
    ensures StripComments(all) == Spaced(s, more)
  {
    hide *;
    NoMoreComments(all, close + 2, more);
    NothingStripped(all, close + 2);
    BlockStripped(all, |s|, close);
    assert all[0..|s|] == s;
    SpacedIs(s, more);
  }

  lemma SpacedIs(s: string, more: string)
    ensures Spaced(s, more) == s + " " + more
  {
  }

  lemma BlockStripped(all: string, open: nat, close: nat)
    requires open + 2 <= |all| && close + 2 <= |all|
    requires Find(all, "/*") == Some(open) && Find(all, "*/", open + 2) == Some(close)
    requires Find(all, "//").Some? ==> Find(all, "//").value > open
    ensures StripComments(all) == all[0..open] + " " + StripComments(all, close + 2)
  {
    hide StandsAt, Find, StripComments;
    StripStep(all, 0);
  }

  /** One step of the stripping. */
  lemma StripStep(s: string, at: nat)
    requires at <= |s|
    ensures var line, block := Find(s, "//", at), Find(s, "/*", at);
            block.Some? && (line.None? || block.value <= line.value) && block.value + 2 <= |s| && Find(s, "*/", block.value + 2).Some?
            ==> Find(s, "*/", block.value + 2).value + 2 <= |s|
                && StripComments(s, at) == s[at..block.value] + " " + StripComments(s, Find(s, "*/", block.value + 2).value + 2)
  {
  }

  /** Where the first comment starts and ends. */
  lemma BlockFound(s: string, comment: string, more: string)
    requires BeforeComment(s) && !Closes(comment + "*")
    ensures var all, close := Commented(s, comment, more), |s| + 2 + |comment|;
            && |all| == close + 2 + |more| && all[..|s|] == s && all[close + 2..] == more
            && Find(all, "/*") == Some(|s|) && Find(all, "*/", |s| + 2) == Some(close)
            && (Find(all, "//").Some? ==> Find(all, "//").value > |s|)
  {
    hide *;
    CommentedShape(s, comment, more);
    var all := Commented(s, comment, more);
    OpenFound(all, s);
    CloseFound(all, |s| + 2, |s| + 2 + |comment|, comment + "*");
  }

  lemma CommentedShape(s: string, comment: string, more: string)
    ensures var all, at, close := Commented(s, comment, more), |s|, |s| + 2 + |comment|;
            && |all| == close + 2 + |more| && all[..at] == s && all[close + 2..] == more
            && all[at] == '/' && all[at + 1] == '*' && all[close] == '*' && all[close + 1] == '/'
            && all[at + 2..close + 1] == comment + "*"
  {
  }

  lemma OpenFound(all: string, s: string)
    requires BeforeComment(s) && |s| + 2 <= |all| && all[..|s|] == s && all[|s|] == '/' && all[|s| + 1] == '*'
    ensures Find(all, "/*") == Some(|s|) && (Find(all, "//").Some? ==> Find(all, "//").value > |s|)
  {
    hide BeforeComment;
    CommentFound(all, s);
    hide StandsAt;
    var line := Find(all, "//");
    assert line.Some? ==> line.value != |s|;
  }

  lemma CloseFound(all: string, from: nat, close: nat, inside: string)
    requires from <= close < |all| - 1 && all[from..close + 1] == inside && !Closes(inside)
    requires all[close] == '*' && all[close + 1] == '/'
    ensures Find(all, "*/", from) == Some(close)
  {
    assert "*/"[0] == '*' && "*/"[1] == '/';
    assert StandsAt(all, "*/", close);
    forall k | from <= k < close ensures !StandsAt(all, "*/", k) {
      assert all[k + 0] == all[from..close + 1][k - from] && all[k + 1] == all[from..close + 1][k + 1 - from];
    }
  }

  /** A block comment that is not closed on its line ends the directive. */
  lemma OpenCommentEnds(before: string, s: string, comment: string)
    requires White(before) && BeforeComment(s) && !Closes(comment)
    ensures DirectiveOf(before + ("#" + (s + ("/*" + comment)))) == DirectiveOf(before + ("#" + Spaced(s, "")))
  {
    hide IsSpace, White, StripComments, Trim, TrimStart, Closes, NoComment, BeforeComment, Spaced;
    var comments, spaced := s + ("/*" + comment), Spaced(s, "");
    Starts(before + ("#" + comments), before, comments);
    Starts(before + ("#" + spaced), before, spaced);
    StripOpen(s, comment);
    EmptyPlain();
    SpacePlain(s, "");
    NothingStripped(spaced, 0);
    assert spaced[0..] == spaced;
  }

  lemma StripOpen(s: string, comment: string)
    requires BeforeComment(s) && !Closes(comment)
    ensures StripComments(s + ("/*" + comment)) == Spaced(s, "")
  {
    hide BeforeComment;
    var all, at := s + ("/*" + comment), |s|;
    assert all[at] == '/' && all[at + 1] == '*' && all[at + 2..] == comment;
    CommentFound(all, s);
    assert Find(all, "/*") == Some(at);
    NoClose(all, at + 2, comment);
    assert all[0..at] == s && s + " " + "" == s + " ";
  }

  lemma NoClose(all: string, from: nat, comment: string)
    requires from <= |all| && all[from..] == comment && !Closes(comment)
    ensures Find(all, "*/", from) == None
  {
    assert "*/"[0] == '*' && "*/"[1] == '/';
    forall k | from <= k <= |all| ensures !StandsAt(all, "*/", k) {
      if k + 2 <= |all| {
        assert all[k + 0] == comment[k - from] && all[k + 1] == comment[k - from + 1];
      }
    }
  }

  lemma NoMoreComments(all: string, at: nat, more: string)
    requires at <= |all| && all[at..] == more && NoComment(more)
    ensures NoComment(all, at)
  {
    forall k | at <= k < |all| - 1 && all[k] == '/' ensures all[k + 1] != '/' && all[k + 1] != '*' {
      assert all[k] == more[k - at] && all[k + 1] == more[k - at + 1];
    }
  }

  // ----- The directives -----

  /** Each directive is read as what its word says, with what follows the word. */
  lemma WordsRead(text: string, word: string, rest: string)
    requires Written(text, word, rest) && Letters(word) && IsRest(rest)
    ensures word == "if" ==> DirectiveOf(text) == If(rest)
    ensures word == "ifdef" ==> DirectiveOf(text) == Ifdef(rest)
    ensures word == "ifndef" ==> DirectiveOf(text) == Ifndef(rest)
    ensures word == "elif" ==> DirectiveOf(text) == Elif(rest)
    ensures word == "else" ==> DirectiveOf(text) == Else
    ensures word == "endif" ==> DirectiveOf(text) == Endif
    ensures word == "define" ==> DirectiveOf(text) == Define(rest)
    ensures word == "undef" ==> DirectiveOf(text) == Undef(rest)
    ensures word == "error" ==> DirectiveOf(text) == ErrorLine
    ensures word in {"pragma", "include", "line", "warning"} ==> DirectiveOf(text) == Other
  {
    hide IsSpace, Written, TrimStart, Trim, StripComments, Letters, IsRest;
    DirectiveRead(text, word, rest);
  }

  lemma WordsAreLetters()
    ensures Letters("if") && Letters("ifdef") && Letters("ifndef") && Letters("elif") && Letters("else")
    ensures Letters("endif") && Letters("define") && Letters("undef") && Letters("error")
  {
  }

  // ----- Names -----

  lemma IdentifierPlain(name: string)
    requires IsIdentifier(name)
    ensures IsWord(name) && Trimmed(name) && IsRest(name) && MacroName(name) == Ok(name)
  {
    assert forall k :: 0 <= k < |name| ==> name[k] in name;
    assert AreWords([name]);
    SplitOfJoined([name]);
  }

  /** The names that every compiler of the standard defines. */
  predicate IsPredefined(name: string) {
    name == "__STDC__" || name == "__STDC_HOSTED__" || name == "__STDC_VERSION__"
  }

  /** `#ifdef` of a name asks if the name is defined, `#ifndef` if it is not. */
  lemma NameTested(text: string, word: string, name: string, macros: Macros)
    requires IsIdentifier(name) && Written(text, word, name) && word in {"ifdef", "ifndef"}
    ensures var defined := name in macros || IsPredefined(name);
            && Opens(DirectiveOf(text))
            && Enters(DirectiveOf(text), macros) == Ok(if word == "ifdef" then defined else !defined)
  {
    hide Written, MacroName, IsRest, IsIdentifier, DirectiveOf;
    WordsAreLetters();
    IdentifierPlain(name);
    WordsRead(text, word, name);
  }

  /** `#if` and `#elif` ask if the value of their condition is not 0. */
  lemma ConditionTested(text: string, word: string, condition: string, macros: Macros)
    requires Written(text, word, condition) && IsRest(condition) && word in {"if", "elif"}
    ensures word == "if" ==> Opens(DirectiveOf(text))
    ensures word == "elif" ==> DirectiveOf(text).Elif?
    ensures Enters(DirectiveOf(text), macros)
         == (match C.Evaluate(condition, macros, []) case Ok(v) => Ok(v != 0) case Err(e) => Err(BadCondition(e)))
  {
    hide Written, IsRest, C.Evaluate, DirectiveOf;
    WordsAreLetters();
    WordsRead(text, word, condition);
  }

  lemma EndRead(text: string)
    requires Written(text, "endif", "")
    ensures DirectiveOf(text).Endif?
  {
    hide Written;
    WordsAreLetters();
    WordsRead(text, "endif", "");
  }

  lemma ElseRead(text: string)
    requires Written(text, "else", "")
    ensures DirectiveOf(text).Else?
  {
    hide Written;
    WordsAreLetters();
    WordsRead(text, "else", "");
  }

  // ----- Conditionals -----

  /** What the machine makes of a conditional that keeps one of its groups: the text kept of it,
      between the line breaks of what stands before and after it. */
  function KeptBetween(s: State, before: seq<Line>, body: Items, behind: seq<Line>, more: seq<Line>): Result<string, Error>
    requires ItemsOk(body)
  {
    match Kept(body, s.macros)
    case Ok((text, after)) => Run(State(s.out + (Blank(before) + text + Blank(behind)), after, s.stack), more)
    case Err(e) => Err(e)
  }

  /** What it makes of one that keeps none: the line breaks. */
  function Dropped(s: State, lines: seq<Line>, more: seq<Line>): Result<string, Error> {
    Run(s.(out := s.out + Blank(lines)), more)
  }

  /** A conditional of one group keeps it if it is entered. */
  lemma OneGroup(s: State, open: Line, body: Items, close: Line, more: seq<Line>, entered: bool)
    requires Active(s.stack) && ItemsOk(body) && DirectiveOf(close.text).Endif? && Opens(DirectiveOf(open.text))
    requires Enters(DirectiveOf(open.text), s.macros) == Ok(entered)
    ensures Run(s, [open] + Flat(body) + [close] + more)
         == if entered then KeptBetween(s, [open], body, [close], more)
            else Dropped(s, [open] + Flat(body) + [close], more)
  {
    hide Run, DirectiveOf, Enters, Blank, Kept, Breaks;
    var g := Group(open, body, NoGroup);
    assert FlatGroups(g) == [open] + Flat(body) by { assert FlatGroups(NoGroup) == []; }
    RunGroups(s, s.stack, g, close, more);
    BlankOne(open);
    BlankOne(close);
    BlankNone();
    if entered {
      if Kept(body, s.macros).Ok? {
        var text := Kept(body, s.macros).value.0;
        assert s.out + (Breaks(open) + text + "") + Breaks(close) == s.out + (Breaks(open) + text + Breaks(close));
      }
    } else {
      BlankAppend([open] + Flat(body), [close]);
      BlankAppend([open], Flat(body));
      assert s.out + (Breaks(open) + Blank(Flat(body)) + "") + Breaks(close)
          == s.out + (Breaks(open) + Blank(Flat(body)) + Breaks(close));
    }
  }

  lemma BlankNone()
    ensures Blank([]) == ""
  {
  }

  /** An `#ifdef` or `#ifndef` keeps its group if and only if its name is defined, or is not. */
  lemma NameDecides(s: State, word: string, name: string, open: Line, body: Items, close: Line, more: seq<Line>)
    requires Active(s.stack) && IsIdentifier(name) && ItemsOk(body) && word in {"ifdef", "ifndef"}
    requires Written(open.text, word, name) && Written(close.text, "endif", "")
    ensures var defined := name in s.macros || name in {"__STDC__", "__STDC_HOSTED__", "__STDC_VERSION__"};
            Run(s, [open] + Flat(body) + [close] + more)
            == if defined == (word == "ifdef") then KeptBetween(s, [open], body, [close], more)
               else Dropped(s, [open] + Flat(body) + [close], more)
  {
    hide Written, DirectiveOf, Enters, Run, Blank, Kept, KeptBetween, Dropped;
    NameTested(open.text, word, name, s.macros);
    EndRead(close.text);
    var defined := name in s.macros || IsPredefined(name);
    OneGroup(s, open, body, close, more, if word == "ifdef" then defined else !defined);
  }

  /** The lines of an `#if`, an `#elif` and an `#else` with their groups. */
  datatype Chain = Chain(head: Line, first: Items, second: Line, middle: Items, third: Line, last: Items, close: Line)

  predicate ChainOk(c: Chain) {
    && ItemsOk(c.first) && ItemsOk(c.middle) && ItemsOk(c.last)
    && Opens(DirectiveOf(c.head.text)) && DirectiveOf(c.second.text).Elif? && DirectiveOf(c.third.text).Else?
    && DirectiveOf(c.close.text).Endif?
  }

  function AfterFirst(c: Chain): seq<Line> { [c.second] + Flat(c.middle) + ([c.third] + Flat(c.last)) + [c.close] }

  function BeforeMiddle(c: Chain): seq<Line> { [c.head] + Flat(c.first) + [c.second] }

  function AfterMiddle(c: Chain): seq<Line> { [c.third] + Flat(c.last) + [c.close] }

  function BeforeLast(c: Chain): seq<Line> { [c.head] + Flat(c.first) + ([c.second] + Flat(c.middle)) + [c.third] }

  function ChainLines(c: Chain): seq<Line> { [c.head] + Flat(c.first) + AfterFirst(c) }

  function LastGroup(c: Chain): Groups { Group(c.third, c.last, NoGroup) }

  function OtherGroups(c: Chain): Groups { Group(c.second, c.middle, LastGroup(c)) }

  lemma ChainFlat(c: Chain)
    ensures FlatGroups(LastGroup(c)) == [c.third] + Flat(c.last)
    ensures FlatGroups(OtherGroups(c)) == [c.second] + Flat(c.middle) + ([c.third] + Flat(c.last))
    ensures FlatGroups(Group(c.head, c.first, OtherGroups(c))) + [c.close] == ChainLines(c)
  {
    hide Flat;
    assert FlatGroups(NoGroup) == [];
    assert FlatGroups(LastGroup(c)) == [c.third] + Flat(c.last) + [];
    assert FlatGroups(OtherGroups(c)) == [c.second] + Flat(c.middle) + FlatGroups(LastGroup(c));
    assert FlatGroups(Group(c.head, c.first, OtherGroups(c))) == [c.head] + Flat(c.first) + FlatGroups(OtherGroups(c));
  }

  lemma ChainBlank(c: Chain)
    ensures Blank(AfterFirst(c)) == Blank(FlatGroups(OtherGroups(c))) + Breaks(c.close)
    ensures Blank(BeforeMiddle(c)) == Breaks(c.head) + Blank(Flat(c.first)) + Breaks(c.second)
    ensures Blank(AfterMiddle(c)) == Blank(FlatGroups(LastGroup(c))) + Breaks(c.close)
    ensures Blank(BeforeLast(c)) == Breaks(c.head) + Blank(Flat(c.first)) + (Breaks(c.second) + Blank(Flat(c.middle)) + Breaks(c.third))
  {
    hide Flat, Blank, FlatGroups, Breaks;
    ChainFlat(c);
    BlankOne(c.head);
    BlankOne(c.second);
    BlankOne(c.third);
    BlankOne(c.close);
    BlankAppend(FlatGroups(OtherGroups(c)), [c.close]);
    BlankAppend([c.head] + Flat(c.first), [c.second]);
    BlankAppend([c.head], Flat(c.first));
    BlankAppend(FlatGroups(LastGroup(c)), [c.close]);
    BlankAppend([c.head] + Flat(c.first) + ([c.second] + Flat(c.middle)), [c.third]);
    BlankAppend([c.head] + Flat(c.first), [c.second] + Flat(c.middle));
    BlankAppend([c.second], Flat(c.middle));
  }

  /** Of a chain the first group whose test holds is kept, or else the last, and no other. */
  lemma OneOfChain(s: State, c: Chain, more: seq<Line>, first: bool, second: Result<bool, Problem>)
    requires Active(s.stack) && ChainOk(c) && Enters(DirectiveOf(c.head.text), s.macros) == Ok(first)
    requires Enters(DirectiveOf(c.second.text), s.macros) == second
    ensures Run(s, ChainLines(c) + more)
         == if first then KeptBetween(s, [c.head], c.first, AfterFirst(c), more)
            else if second.Err? then Err(Error(c.second.number, second.error))
            else if second.value then KeptBetween(s, BeforeMiddle(c), c.middle, AfterMiddle(c), more)
            else KeptBetween(s, BeforeLast(c), c.last, [c.close], more)
  {
    hide Run, DirectiveOf, Blank, Kept, Breaks, FlatGroups, Flat, KeptBetween, KeptGroups, Surrounded;
    hide ChainLines, AfterFirst, BeforeMiddle, AfterMiddle, BeforeLast, OtherGroups, LastGroup;
    BranchesOfChain(c);
    ChainFlat(c);
    ChainBlank(c);
    BlankOne(c.head);
    BlankOne(c.close);
    GroupsEnd(s, Group(c.head, c.first, OtherGroups(c)), c.close, more);
    ChainKept(c, s.macros, first, second);
    var skipped := Breaks(c.head) + Blank(Flat(c.first));
    if first {
      Between(s, [c.head], c.first, AfterFirst(c), Blank(FlatGroups(OtherGroups(c))), c.close, more);
    } else if second.Ok? && second.value {
      Between(s, BeforeMiddle(c), c.middle, AfterMiddle(c), Blank(FlatGroups(LastGroup(c))), c.close, more);
    } else if second.Ok? {
      assert Blank([c.close]) == "" + Breaks(c.close);
      Between(s, BeforeLast(c), c.last, [c.close], "", c.close, more);
    }
  }

  lemma BranchesOfChain(c: Chain)
    requires ChainOk(c)
    ensures BranchesOk(LastGroup(c)) && BranchesOk(OtherGroups(c))
  {
    hide ItemsOk, DirectiveOf;
    assert BranchesOk(NoGroup);
  }

  function Surrounded(before: string, kept: Result<(string, Macros), Error>, behind: string): Result<(string, Macros), Error> {
    match kept case Ok((text, after)) => Ok((before + text + behind, after)) case Err(e) => Err(e)
  }

  lemma SurroundedThen(before: string, between: string, kept: Result<(string, Macros), Error>, behind: string)
    ensures Then(before, Surrounded(between, kept, behind)) == Surrounded(before + between, kept, behind)
  {
    if kept.Ok? {
      assert before + (between + kept.value.0 + behind) == before + between + kept.value.0 + behind;
    }
  }

  /** What is kept of one group. */
  lemma GroupKept(g: Groups, macros: Macros, entered: Result<bool, Problem>)
    requires g.Group? && (Opens(DirectiveOf(g.head.text)) || IsBranch(g.head)) && ItemsOk(g.body) && BranchesOk(g.others)
    requires Enters(DirectiveOf(g.head.text), macros) == entered
    ensures KeptGroups(g, macros)
         == if entered.Err? then Err(Error(g.head.number, entered.error))
            else if entered.value then Surrounded(Breaks(g.head), Kept(g.body, macros), Blank(FlatGroups(g.others)))
            else Then(Breaks(g.head) + Blank(Flat(g.body)), KeptGroups(g.others, macros))
  {
    hide DirectiveOf, Enters, Blank, Breaks, Flat, FlatGroups;
  }

  lemma ChainKept(c: Chain, macros: Macros, first: bool, second: Result<bool, Problem>)
    requires ChainOk(c) && Enters(DirectiveOf(c.head.text), macros) == Ok(first)
    requires Enters(DirectiveOf(c.second.text), macros) == second
    requires BranchesOk(LastGroup(c)) && BranchesOk(OtherGroups(c))
    ensures var skipped, middle := Breaks(c.head) + Blank(Flat(c.first)), Breaks(c.second) + Blank(Flat(c.middle));
            KeptGroups(Group(c.head, c.first, OtherGroups(c)), macros)
            == if first then Surrounded(Breaks(c.head), Kept(c.first, macros), Blank(FlatGroups(OtherGroups(c))))
               else if second.Err? then Err(Error(c.second.number, second.error))
               else if second.value then
                 Surrounded(skipped + Breaks(c.second), Kept(c.middle, macros), Blank(FlatGroups(LastGroup(c))))
               else Surrounded(skipped + (middle + Breaks(c.third)), Kept(c.last, macros), "")
  {
    hide DirectiveOf, Blank, Breaks, Flat, FlatGroups, KeptGroups, Surrounded, Kept, BranchesOk, ItemsOk;
    GroupKept(Group(c.head, c.first, OtherGroups(c)), macros, Ok(first));
    if !first {
      GroupKept(OtherGroups(c), macros, second);
      var skipped := Breaks(c.head) + Blank(Flat(c.first));
      SurroundedThen(skipped, Breaks(c.second), Kept(c.middle, macros), Blank(FlatGroups(LastGroup(c))));
      if second.Ok? && !second.value {
        var middle := Breaks(c.second) + Blank(Flat(c.middle));
        NoMoreGroups();
        GroupKept(LastGroup(c), macros, Ok(true));
        SurroundedThen(middle, Breaks(c.third), Kept(c.last, macros), "");
        SurroundedThen(skipped, middle + Breaks(c.third), Kept(c.last, macros), "");
      }
    }
  }

  lemma NoMoreGroups()
    ensures Blank(FlatGroups(NoGroup)) == "" && BranchesOk(NoGroup)
  {
  }

  /** Goes on after the end of a conditional. */
  function Ended(s: State, kept: Result<(string, Macros), Error>, close: Line, more: seq<Line>): Result<string, Error> {
    match kept
    case Ok((text, macros)) => Run(State(s.out + text + Breaks(close), macros, s.stack), more)
    case Err(e) => Err(e)
  }

  lemma GroupsEnd(s: State, g: Groups, close: Line, more: seq<Line>)
    requires Active(s.stack) && DirectiveOf(close.text).Endif?
    requires g.Group? && Opens(DirectiveOf(g.head.text)) && ItemsOk(g.body) && BranchesOk(g.others)
    ensures Run(s, FlatGroups(g) + [close] + more) == Ended(s, KeptGroups(g, s.macros), close, more)
  {
    hide Run, DirectiveOf, KeptGroups, FlatGroups, Breaks;
    RunGroups(s, s.stack, g, close, more);
  }

  lemma Between(s: State, before: seq<Line>, body: Items, behind: seq<Line>, after: string, close: Line, more: seq<Line>)
    requires ItemsOk(body) && Blank(behind) == after + Breaks(close)
    ensures KeptBetween(s, before, body, behind, more)
         == Ended(s, Surrounded(Blank(before), Kept(body, s.macros), after), close, more)
  {
    hide Kept, Blank, Run, Breaks;
    if Kept(body, s.macros).Ok? {
      var text := Kept(body, s.macros).value.0;
      assert s.out + (Blank(before) + text + after) + Breaks(close) == s.out + (Blank(before) + text + (after + Breaks(close)));
    }
  }

  /** Of `#if`, `#elif` and `#else` groups, the first whose condition is not 0 is kept, or else the
      last; the second condition is looked at only if the first is 0. */
  lemma ConditionsDecide(s: State, c: Chain, more: seq<Line>, first: string, second: string, v: int)
    requires Active(s.stack) && ItemsOk(c.first) && ItemsOk(c.middle) && ItemsOk(c.last) && IsRest(first) && IsRest(second)
    requires Written(c.head.text, "if", first) && Written(c.second.text, "elif", second)
    requires Written(c.third.text, "else", "") && Written(c.close.text, "endif", "")
    requires C.Evaluate(first, s.macros, []) == Ok(v)
    ensures var w := C.Evaluate(second, s.macros, []);
            Run(s, ChainLines(c) + more)
            == if v != 0 then KeptBetween(s, [c.head], c.first, AfterFirst(c), more)
               else if w.Err? then Err(Error(c.second.number, BadCondition(w.error)))
               else if w.value != 0 then KeptBetween(s, BeforeMiddle(c), c.middle, AfterMiddle(c), more)
               else KeptBetween(s, BeforeLast(c), c.last, [c.close], more)
  {
    hide Written, DirectiveOf, Enters, Run, KeptBetween, C.Evaluate, ChainLines, AfterFirst, BeforeMiddle, AfterMiddle, BeforeLast;
    ConditionTested(c.head.text, "if", first, s.macros);
    ConditionTested(c.second.text, "elif", second, s.macros);
    ElseRead(c.third.text);
    EndRead(c.close.text);
    OneOfChain(s, c, more, v != 0, Enters(DirectiveOf(c.second.text), s.macros));
  }

  // ----- What is refused -----

  /** A line that continues or closes a conditional needs an open one. */
  lemma NothingOpen(s: State, line: Line, word: string, condition: string, more: seq<Line>)
    requires s.stack == [] && IsRest(condition) && Written(line.text, word, condition) && word in {"elif", "else", "endif"}
    ensures Run(s, [line] + more) == Err(Error(line.number, NoOpenIf))
  {
    hide Run, DirectiveOf, Written, Breaks, IsRest, Enters;
    WordsAreLetters();
    WordsRead(line.text, word, condition);
    RunStep(s, line, more);
  }

  /** A conditional that is never closed is refused at the end. */
  lemma NeverEnds(s: State)
    ensures Run(s, []) == if s.stack == [] then Ok(s.out) else Err(Error(0, NeverClosed))
  {
  }

  /** A name is asked for, and no more than one. */
  lemma OneName(s: State, line: Line, word: string, rest: string, more: seq<Line>)
    requires Active(s.stack) && IsRest(rest) && Written(line.text, word, rest) && word in {"ifdef", "ifndef", "undef"}
    requires |SplitWhitespace(rest)| != 1 || !IsIdentifier(SplitWhitespace(rest)[0])
    ensures Run(s, [line] + more) == Err(Error(line.number, NotOneMacroName))
  {
    hide Run, DirectiveOf, Written, Breaks, IsRest, SplitWhitespace, IsIdentifier;
    WordsAreLetters();
    WordsRead(line.text, word, rest);
    RunStep(s, line, more);
  }

  // ----- Other lines -----

  /** A line of code is kept as it is in a processed group. */
  lemma CodeKept(s: State, line: Line, more: seq<Line>)
    requires Active(s.stack) && (Trim(line.text) == "" || Trim(line.text)[0] != '#')
    ensures Run(s, [line] + more) == Run(s.(out := s.out + line.text + Breaks(line)), more)
  {
    hide Run, StripComments, Breaks;
    var start := TrimStart(line.text);
    assert start == [] || start[0] != '#' by { CodeStart(line.text); }
    RunStep(s, line, more);
  }

  lemma CodeStart(text: string)
    requires Trim(text) == "" || Trim(text)[0] != '#'
    ensures TrimStart(text) == "" || TrimStart(text)[0] != '#'
  {
    assert !IsSpace('#');
  }

  /** `#define` of a name: the name stands for what follows it, whatever it stood for. */
  lemma NameDefinedAs(s: State, line: Line, name: string, gap: string, value: string, more: seq<Line>)
    requires Active(s.stack) && IsIdentifier(name) && White(gap) && (gap == "" <==> value == "")
    requires IsRest(value) && Written(line.text, "define", name + gap + value)
    ensures Run(s, [line] + more)
         == Run(State(s.out + Breaks(line), s.macros[name := C.ObjectLike(value)], s.stack), more)
  {
    hide *;
    var rest := name + gap + value;
    DefineRead(line.text, name, gap, value);
    DefinedAs(name, gap, value, s.macros);
    DefinitionStep(s, line, rest, more);
  }

  lemma DefineRead(text: string, name: string, gap: string, value: string)
    requires IsIdentifier(name) && White(gap) && (gap == "" <==> value == "")
    requires IsRest(value) && Written(text, "define", name + gap + value)
    ensures DirectiveOf(text) == Define(name + gap + value)
  {
    hide DirectiveOf, Written, Trimmed, NoComment, White, IsSpace, IsIdentifier;
    WordsAreLetters();
    IdentifierPlain(name);
    DirectiveTrimmed(name, gap, value);
    DefinitionPlain(name, gap, value);
    WordsRead(text, "define", name + gap + value);
  }

  lemma DefinedAs(name: string, gap: string, value: string, macros: Macros)
    requires IsIdentifier(name) && White(gap) && (gap == "" <==> value == "") && IsRest(value)
    ensures Defined(name + gap + value, macros) == macros[name := C.ObjectLike(value)]
  {
    hide NoComment, White, IsSpace, IsIdentifier, FindSpace, Trim;
    IdentifierPlain(name);
    WordSplit(name, gap, value);
    IdentifierNoMark(name);
    assert FindChar(name, '(') == |name|;
  }

  lemma DefinitionStep(s: State, line: Line, rest: string, more: seq<Line>)
    requires Active(s.stack) && DirectiveOf(line.text) == Define(rest)
    ensures Run(s, [line] + more) == Run(State(s.out + Breaks(line), Defined(rest, s.macros), s.stack), more)
  {
    hide Run, DirectiveOf, Breaks, Defined;
    RunStep(s, line, more);
    assert s.out + "" == s.out;
  }

  lemma IdentifierNoMark(name: string)
    requires IsIdentifier(name)
    ensures NoMark(name) && '(' !in name
  {
    assert forall k :: 0 <= k < |name| ==> name[k] in name;
  }

  lemma DefinitionPlain(name: string, gap: string, value: string)
    requires IsIdentifier(name) && White(gap) && (value == "" || NoComment(value))
    ensures NoComment(name + gap + value)
  {
    hide NoComment, White, IsSpace, IsIdentifier;
    IdentifierNoMark(name);
    WhiteNoMark(gap);
    NoMarkAppend(name, gap);
    EmptyPlain();
    NoMarkNone();
    NoCommentAround(name + gap, value, "");
    assert name + gap + value + "" == name + gap + value;
  }

  lemma NoMarkNone()
    ensures NoMark("")
  {
  }

  /** `#define` of a name with a parenthesis right after it: a function-like macro. */
  lemma NameTakesArguments(s: State, line: Line, name: string, tail: string, more: seq<Line>)
    requires Active(s.stack) && IsIdentifier(name) && IsRest(name + ("(" + tail))
    requires Written(line.text, "define", name + ("(" + tail))
    ensures Run(s, [line] + more)
         == Run(State(s.out + Breaks(line), s.macros[name := C.FunctionLike], s.stack), more)
  {
    hide Run, DirectiveOf, Written, Breaks, IsRest, IsSpace, IsIdentifier;
    WordsAreLetters();
    var rest := name + ("(" + tail);
    WordsRead(line.text, "define", rest);
    ArgumentsFound(name, tail);
    RunStep(s, line, more);
    assert s.out + "" == s.out;
  }

  lemma ArgumentsFound(name: string, tail: string)
    requires IsIdentifier(name)
    ensures var rest := name + ("(" + tail);
            var first := rest[..FindSpace(rest)];
            FindChar(first, '(') == |name| < |first| && first[..|name|] == name
  {
    IdentifierNoMark(name);
    IdentifierPlain(name);
    hide IsSpace, IsIdentifier;
    var rest := name + ("(" + tail);
    assert forall k :: 0 <= k < |name| ==> rest[k] == name[k] && name[k] in name;
    assert rest[|name|] == '(';
    assert !IsSpace('(') by { ParenthesisPlain(); }
    assert FindSpace(rest) > |name|;
  }

  lemma ParenthesisPlain()
    ensures !IsSpace('(')
  {
  }

  /** `#undef` of a name takes it out of the macros. */
  lemma NameUndefined(s: State, line: Line, name: string, more: seq<Line>)
    requires Active(s.stack) && IsIdentifier(name) && Written(line.text, "undef", name)
    ensures Run(s, [line] + more) == Run(State(s.out + Breaks(line), s.macros - {name}, s.stack), more)
  {
    hide Run, DirectiveOf, Written, Breaks, IsRest, IsIdentifier, MacroName;
    WordsAreLetters();
    IdentifierPlain(name);
    WordsRead(line.text, "undef", name);
    RunStep(s, line, more);
    assert s.out + "" == s.out;
  }

  /** `#error` in a processed group stops. */
  lemma ErrorStops(s: State, line: Line, rest: string, more: seq<Line>)
    requires Active(s.stack) && IsRest(rest) && Written(line.text, "error", rest)
    ensures Run(s, [line] + more) == Err(Error(line.number, ErrorDirective))
  {
    hide Run, DirectiveOf, Written, Breaks, IsRest;
    WordsAreLetters();
    WordsRead(line.text, "error", rest);
    RunStep(s, line, more);
  }

  /** Of a directive of another word only the line breaks are kept. */
  lemma OthersIgnored(s: State, line: Line, word: string, rest: string, more: seq<Line>)
    requires IsRest(rest) && Written(line.text, word, rest) && word in {"pragma", "include", "line", "warning"}
    ensures Run(s, [line] + more) == Run(s.(out := s.out + Breaks(line)), more)
  {
    hide Run, DirectiveOf, Written, Breaks, IsRest;
    WordsRead(line.text, word, rest);
    RunStep(s, line, more);
    assert s.out + "" == s.out;
  }

  // ----- Continuations -----

  /** The lines of a text cut by backslashes: each but the last ends in one. */
  function Cut(parts: seq<string>, last: string): seq<string> {
    if parts == [] then [last] else [parts[0] + "\\"] + Cut(parts[1..], last)
  }

  function Joined(parts: seq<string>, last: string): string {
    if parts == [] then last else parts[0] + Joined(parts[1..], last)
  }

  lemma SpliceStep(lines: seq<string>, at: nat, text: string)
    requires at < |lines| && text != "" && text[|text| - 1] == '\\'
    ensures Splice(lines, at, text) == Splice(lines, at + 1, text[..|text| - 1] + lines[at])
  {
  }

  /** A line that was cut is one line again, with as many breaks as it was cut into. */
  lemma {:induction false} CutIsSpliced(lines: seq<string>, at: nat, done: string, parts: seq<string>, last: string)
    requires at + |parts| < |lines| && lines[at..at + |parts| + 1] == Cut(parts, last)
    requires last != "" && last[|last| - 1] != '\\'
    ensures Splice(lines, at + 1, done + lines[at]) == (done + Joined(parts, last), at + |parts| + 1)
    decreases |parts|
  {
    var cut := lines[at..at + |parts| + 1];
    assert lines[at] == cut[0];
    if parts == [] {
      assert (done + last)[|done + last| - 1] == last[|last| - 1];
    } else {
      hide Splice;
      var line := done + lines[at];
      assert line[|line| - 1] == '\\' && line[..|line| - 1] == done + parts[0];
      assert lines[at + 1..at + |parts| + 1] == cut[1..] == Cut(parts[1..], last);
      SpliceStep(lines, at + 1, line);
      CutIsSpliced(lines, at + 1, done + parts[0], parts[1..], last);
      assert done + parts[0] + Joined(parts[1..], last) == done + Joined(parts, last);
    }
  }

  /** So such a line stands for one line of the machine. */
  lemma CutLine(lines: seq<string>, at: nat, parts: seq<string>, last: string)
    requires at + |parts| < |lines| && lines[at..at + |parts| + 1] == Cut(parts, last)
    requires last != "" && last[|last| - 1] != '\\'
    ensures Spliced(lines, at) == [Line(at + 1, Joined(parts, last), |parts| + 1)] + Spliced(lines, at + |parts| + 1)
  {
    hide Splice;
    CutIsSpliced(lines, at, "", parts, last);
    assert "" + lines[at] == lines[at] && "" + Joined(parts, last) == Joined(parts, last);
  }
}
