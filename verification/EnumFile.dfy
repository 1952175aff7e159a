/** How the reader takes a file with an enum: written out with comments, explicit and implicit
    values, it is read back, and beside a header that declares it so the comparison is silent. */
module EnumFile {
  import opened Wrappers
  import opened Text
  import opened Words
  import opened Header
  import opened Render
  import opened Surface
  import opened SurfaceReader
  import opened RenderedLines
  import opened RenderedGood
  import opened TypeTexts
  import opened ReadBack
  import opened HeadsBack
  import opened EnumsBack
  import opened StructsBack
  import opened RoundTrip
  import opened EnumMirrors
  import Check = SurfaceCheck

  // ----- The head -----

  /** Words that may stand before `enum`: none of them opens a type. */
  predicate IsFront(front: seq<string>) {
    && front != []
    && forall k :: 0 <= k < |front| ==>
         AllWordChars(front[k]) && front[k] !in {"class", "struct", "enum", "interface", "record"}
  }

  /** The words of an enum's head: with a colon before its underlying type, if that is written. */
  function HeadWordsOf(front: seq<string>, name: string, ty: Option<string>): seq<string> {
    front + (["enum", name] + if ty.Some? then [":", ty.value] else [])
  }

  predicate IsHead(front: seq<string>, name: string, ty: Option<string>) {
    IsFront(front) && AllWordChars(name) && (ty.Some? ==> AllWordChars(ty.value))
  }

  lemma NoKeyword(word: string)
    ensures word in {"class", "struct", "enum", "interface", "record"} <==> IsTypeKeyword(word)
  {
    var k := TYPE_KEYWORDS;
    assert k[0] == "class" && k[1] == "struct" && k[2] == "enum" && k[3] == "interface" && k[4] == "record";
  }

  lemma EnumWord()
    ensures AllWordChars("enum") && IsTypeKeyword("enum") && "enum" != "struct" && IsWord(":")
  {
    NoKeyword("enum");
  }

  lemma HeadAreWords(front: seq<string>, name: string, ty: Option<string>)
    requires IsHead(front, name, ty)
    ensures AreWords(HeadWordsOf(front, name, ty))
  {
    hide AllWordChars, IsWord;
    var ws := HeadWordsOf(front, name, ty);
    EnumWord();
    FunctionWord(name);
    FunctionWord("enum");
    if ty.Some? { FunctionWord(ty.value); }
    forall k | 0 <= k < |ws| ensures IsWord(ws[k]) {
      if k < |front| {
        FunctionWord(front[k]);
      } else {
        var tail := ["enum", name] + if ty.Some? then [":", ty.value] else [];
        assert ws[k] == tail[k - |front|];
      }
    }
  }

  /** Word characters and spaces. */
  predicate Worded(s: string) { forall k :: 0 <= k < |s| ==> IsWordChar(s[k]) || s[k] == ' ' }

  lemma {:induction false} JoinWorded(ws: seq<string>)
    requires forall k :: 0 <= k < |ws| ==> AllWordChars(ws[k])
    ensures Worded(JoinWords(ws))
    decreases |ws|
  {
    hide IsWordChar;
    if |ws| > 1 { JoinWorded(ws[..|ws| - 1]); }
  }

  lemma WordedPlain(s: string)
    requires Worded(s)
    ensures Calm(s) && '(' !in s && ':' !in s && '[' !in s && '=' !in s
  {
  }

  /** The words of a head, and what is between them. */
  lemma HeadSpelled(front: seq<string>, name: string, ty: Option<string>)
    requires IsHead(front, name, ty)
    ensures var plain := JoinWords(front + ["enum", name]);
            && Worded(plain) && plain != "" && Trimmed(plain)
            && JoinWords(HeadWordsOf(front, name, ty)) == if ty.None? then plain else plain + " " + (":" + " " + ty.value)
  {
    hide JoinWords, AllWordChars, Trimmed;
    var named := front + ["enum", name];
    EnumWord();
    forall k | 0 <= k < |named| ensures AllWordChars(named[k]) {
      if k >= |front| { assert named[k] == ["enum", name][k - |front|]; }
    }
    JoinWorded(named);
    HeadAreWords(front, name, None);
    assert HeadWordsOf(front, name, None) == named by { assert ["enum", name] + [] == ["enum", name]; }
    JoinTrimmed(named);
    TrimmedSome(JoinWords(named));
    if ty.Some? {
      JoinAppend(named, [":", ty.value]);
      assert HeadWordsOf(front, name, ty) == named + [":", ty.value];
      JoinFirst(":", [ty.value]);
      JoinOne(ty.value);
      assert [":"] + [ty.value] == [":", ty.value];
    }
  }

  lemma TrimmedSome(s: string)
    requires Trimmed(s)
    ensures s != ""
  {
  }

  /** What the reader finds in a head. */
  lemma HeadFound(front: seq<string>, name: string, ty: Option<string>)
    requires IsHead(front, name, ty)
    ensures var text := JoinWords(HeadWordsOf(front, name, ty)); var colon := FindChar(text, ':');
            && Trimmed(text) && text[0] != '[' && FindChar(text, '(') == |text| && Calm(text)
            && SplitWhitespace(text) == HeadWordsOf(front, name, ty)
            && (ty.None? <==> colon == |text|) && (ty.Some? ==> Trim(text[colon + 1..]) == ty.value)
  {
    hide JoinWords, AllWordChars, Trimmed, SplitWhitespace, Trim, Calm, Worded, FindChar, AreWords;
    var words := HeadWordsOf(front, name, ty);
    var text, plain := JoinWords(words), JoinWords(front + ["enum", name]);
    HeadAreWords(front, name, ty);
    SplitOfJoined(words);
    JoinTrimmed(words);
    HeadSpelled(front, name, ty);
    WordedPlain(plain);
    if ty.None? {
      NoneFound(plain, ':');
      NoneFound(plain, '(');
      FirstNot(plain, '[');
    } else {
      var tail := " " + (":" + " " + ty.value);
      TypeWord(ty.value);
      ColonFound(plain, ty.value);
      WordedPlain(ty.value);
      CalmColon();
      CalmAppend(plain, " ");
      CalmAppend(plain + " ", ":" + " ");
      CalmAppend(plain + " " + (":" + " "), ty.value);
      assert text == plain + " " + (":" + " ") + ty.value;
      assert '(' !in text;
      NoneFound(text, '(');
      FirstNot(plain, '[');
      assert text[0] == plain[0];
    }
  }

  lemma CalmColon()
    ensures Calm(":" + " ") && Calm(" ")
  {
  }

  lemma TypeWord(ty: string)
    requires AllWordChars(ty)
    ensures Worded(ty) && Trimmed(ty)
  {
    assert IsWordChar(ty[0]) && IsWordChar(ty[|ty| - 1]);
  }

  lemma FirstNot(s: string, c: char)
    requires s != "" && c !in s
    ensures s[0] != c
  {
  }

  lemma NoneFound(s: string, c: char)
    requires c !in s
    ensures FindChar(s, c) == |s|
  {
    assert forall k :: 0 <= k < |s| ==> s[k] in s;
  }

  lemma ColonFound(plain: string, ty: string)
    requires ':' !in plain && Trimmed(ty)
    ensures var text := plain + " " + (":" + " " + ty);
            && FindChar(text, ':') == |plain| + 1 < |text| && Trim(text[|plain| + 2..]) == ty
  {
    hide Trim, Trimmed, IsSpace;
    var text := plain + " " + (":" + " " + ty);
    assert text[|plain| + 1] == ':' && text[|plain|] == ' ';
    assert forall k :: 0 <= k < |plain| ==> text[k] == plain[k] && plain[k] in plain;
    assert text[|plain| + 2..] == " " + ty + "";
    NoWhite();
    TrimAround(" ", ty, "");
  }

  /** The head of an enum opens it, with its name and its underlying type, or `int` without one. */
  lemma EnumOpened(file: string, before: string, front: seq<string>, name: string, ty: Option<string>, out: Declarations)
    requires White(before) && IsHead(front, name, ty)
    ensures var segment := before + JoinWords(HeadWordsOf(front, name, ty)) + "\n";
            var underlying := if ty.Some? then ty.value else "int";
            Opened(file, segment, segment, out)
            == Ok((EnumBody(|out.enums|), out.(enums := out.enums + [CsEnum(file, name, underlying, [])])))
  {
    hide White, AllWordChars, SplitFrom, Trimmed, SplitWhitespace, FindChar, JoinWords, Trim, Calm, KeywordAt;
    var words := HeadWordsOf(front, name, ty);
    var text := JoinWords(words);
    var segment := before + text + "\n";
    HeadFound(front, name, ty);
    NoWhite();
    assert segment[0..] == segment;
    DeclarationLeft(segment, 0, before, text, "\n");
    assert text[..|text|] == text;
    EnumKeyword(front, name, ty);
  }

  lemma EnumKeyword(front: seq<string>, name: string, ty: Option<string>)
    requires IsHead(front, name, ty)
    ensures var words := HeadWordsOf(front, name, ty);
            && KeywordAt(words, 0) == |front| && |front| + 1 < |words| && words[|front|] == "enum" && words[|front|] != "struct"
            && words[|front| + 1][..IdentifierEnd(words[|front| + 1])] == name != ""
  {
    hide AllWordChars;
    var words := HeadWordsOf(front, name, ty);
    EnumWord();
    assert words[|front|] == "enum" && words[|front| + 1] == name;
    forall j | 0 <= j < |front| ensures !IsTypeKeyword(words[j]) {
      assert words[j] == front[j];
      NoKeyword(front[j]);
    }
    hide IsTypeKeyword;
    KeywordFound(words, 0, |front|);
    FunctionWord(name);
    assert name[..|name|] == name;
    NameSome(name);
  }

  lemma NameSome(name: string)
    requires AllWordChars(name)
    ensures name != ""
  {
  }

  // ----- The members -----

  /** A member on a line of its own, behind comments and indented. */
  datatype Entry = Entry(comments: seq<string>, indent: string, name: string, value: Option<Assigned>)

  predicate EntryOk(e: Entry) {
    && Unseen(e.comments) && White(e.indent) && Calm(e.indent) && MemberOk(Member(e.indent, e.name, e.value, ""))
    && (e.value.Some? ==> Calm(e.value.value.left) && Calm(e.value.value.right))
  }

  function EntryLine(e: Entry): string { e.indent + Declared(Member("", e.name, e.value, "")) + "," }

  function EntryLines(es: seq<Entry>): seq<string> {
    if es == [] then [] else es[0].comments + [EntryLine(es[0])] + EntryLines(es[1..])
  }

  /** What the reader sees of lines that are cleared. */
  function Cleared(lines: seq<string>): string {
    if lines == [] then "" else BlankLine(lines[0]) + "\n" + Cleared(lines[1..])
  }

  /** The members as they stand in the body of the enum. */
  function MembersOf(es: seq<Entry>): (r: seq<Member>)
    ensures |r| == |es|
    ensures forall k :: 0 <= k < |r| ==> r[k] == Member("\n" + Cleared(es[k].comments) + es[k].indent, es[k].name, es[k].value, "")
  {
    seq(|es|, k requires 0 <= k < |es| => Member("\n" + Cleared(es[k].comments) + es[k].indent, es[k].name, es[k].value, ""))
  }

  lemma {:induction false} ClearedWhite(lines: seq<string>)
    requires Unseen(lines)
    ensures White(Cleared(lines))
  {
    hide White, GoodLine, BlankLine;
    NoWhite();
    if lines != [] {
      ClearedWhite(lines[1..]);
      WhiteAppend(BlankLine(lines[0]), "\n");
      WhiteAppend(BlankLine(lines[0]) + "\n", Cleared(lines[1..]));
    }
  }

  lemma MembersAreOk(es: seq<Entry>)
    requires forall k :: 0 <= k < |es| ==> EntryOk(es[k])
    ensures forall k :: 0 <= k < |es| ==> MemberOk(MembersOf(es)[k])
  {
    hide White, Calm, AllWordChars, CsNumeralOk, Unseen;
    NoWhite();
    forall k | 0 <= k < |es| ensures MemberOk(MembersOf(es)[k]) {
      assert EntryOk(es[k]);
      ClearedWhite(es[k].comments);
      WhiteAppend("\n", Cleared(es[k].comments));
      WhiteAppend("\n" + Cleared(es[k].comments), es[k].indent);
    }
  }

  /** Cleared lines are passed over. */
  lemma {:induction false} ClearedStep(
      file: string, lines: seq<string>, rest: seq<string>, pending: string, stack: seq<Container>, out: Declarations)
    requires Unseen(lines)
    ensures ReadLines(file, BlankLines(lines) + rest, pending, stack, out)
         == ReadLines(file, rest, pending + Cleared(lines), stack, out)
    decreases |lines|
  {
    hide ReadLines, White, GoodLine, BlankLine, Terminated;
    if lines == [] {
      assert BlankLines(lines) + rest == rest && pending + "" == pending;
    } else {
      var line, more := lines[0], lines[1..];
      assert lines == [line] + more;
      BlankAppend([line], more);
      BlankOne(line);
      assert BlankLines(lines) + rest == [BlankLine(line)] + (BlankLines(more) + rest);
      WhiteNeat(BlankLine(line));
      PlainStep(file, BlankLine(line), BlankLines(more) + rest, pending, stack, out);
      ClearedStep(file, more, rest, pending + BlankLine(line) + "\n", stack, out);
      assert pending + BlankLine(line) + "\n" + Cleared(more) == pending + Cleared(lines);
    }
  }

  lemma NumeralCalm(n: CsNumeral)
    requires CsNumeralOk(n)
    ensures Calm(CsText(n))
  {
    hide IsWordChar, Unseparated;
    SeparatedPlain(n);
    assert forall k :: 0 <= k < |n.numeral.suffix| ==> IsWordChar(n.numeral.suffix[k]) by { SuffixesAreWords(n.numeral.suffix); }
    forall k | 0 <= k < |n.digits| ensures CodeChar(n.digits[k]) && !Ends(n.digits[k]) && NoBracket(n.digits[k]) {
      WordCalm(n.digits[k]);
    }
    forall k | 0 <= k < |n.numeral.suffix|
      ensures var c := n.numeral.suffix[k]; CodeChar(c) && !Ends(c) && NoBracket(c)
    {
      WordCalm(n.numeral.suffix[k]);
    }
    CalmAppend(n.digits, n.numeral.suffix);
    CalmMinus();
    CalmAppend(if n.negative then "-" else "", n.digits + n.numeral.suffix);
  }

  lemma SuffixesAreWords(s: string)
    requires forall k :: 0 <= k < |s| ==> s[k] == 'u' || s[k] == 'U' || s[k] == 'l' || s[k] == 'L'
    ensures forall k :: 0 <= k < |s| ==> IsWordChar(s[k])
  {
  }

  lemma WordCalm(c: char)
    requires IsWordChar(c)
    ensures CodeChar(c) && !Ends(c) && NoBracket(c)
  {
  }

  lemma CalmMinus()
    ensures Calm("-") && Calm("") && Calm("=") && Calm(",")
  {
  }

  lemma EntryNeat(e: Entry)
    requires EntryOk(e)
    ensures Neat(EntryLine(e)) && CodeLine(EntryLine(e))
  {
    hide Calm, Neat, CodeLine, AllWordChars, White, CsText, CsNumeralOk;
    CalmMinus();
    WordsCalm(e.name);
    CalmAppend(e.indent, e.name);
    var d := Declared(Member("", e.name, e.value, ""));
    if e.value.Some? {
      var v := e.value.value;
      NumeralCalm(v.numeral);
      CalmAppend(e.name, v.left);
      CalmAppend(e.name + v.left, "=");
      CalmAppend(v.right, CsText(v.numeral));
      CalmAppend(e.name + v.left + "=", v.right + CsText(v.numeral));
    }
    CalmAppend(e.indent, d);
    CalmAppend(e.indent + d, ",");
    CalmNeat(EntryLine(e));
  }

  /** The lines of one member. */
  lemma EntryStep(
      file: string, e: Entry, tail: seq<string>, pending: string, stack: seq<Container>, out: Declarations)
    requires EntryOk(e)
    ensures Good(e.comments + [EntryLine(e)])
    ensures ReadLines(file, BlankLines(e.comments + [EntryLine(e)]) + tail, pending, stack, out)
         == ReadLines(file, tail, pending + Cleared(e.comments) + EntryLine(e) + "\n", stack, out)
  {
    hide ReadLines, White, GoodLine, BlankLine, Terminated, Neat, CodeLine, EntryOk, Declared, Unseen, Cleared;
    EntryParts(e);
    BlankAppend(e.comments, [EntryLine(e)]);
    assert BlankLines(e.comments + [EntryLine(e)]) + tail == BlankLines(e.comments) + (BlankLines([EntryLine(e)]) + tail);
    ClearedStep(file, e.comments, BlankLines([EntryLine(e)]) + tail, pending, stack, out);
    CodeStep(file, EntryLine(e), tail, pending + Cleared(e.comments), stack, out);
    UnseenGood(e.comments);
    GoodAppend(e.comments, [EntryLine(e)]);
  }

  lemma NoEntries()
    ensures Listed(MemberTexts(MembersOf([])) + ["\n"]) == "\n" && BlankLines(EntryLines([])) == []
  {
    assert MemberTexts(MembersOf([])) + ["\n"] == ["\n"] == ["\n"] + [];
    ListedCons("\n", []);
  }

  /** The lines of the members leave the members, a comma after each, before what comes next. */
  lemma {:induction false} EntriesStep(
      file: string, es: seq<Entry>, rest: seq<string>, pending: string, stack: seq<Container>, out: Declarations)
    requires forall k :: 0 <= k < |es| ==> EntryOk(es[k])
    ensures Good(EntryLines(es))
    ensures ReadLines(file, BlankLines(EntryLines(es)) + rest, pending + "\n", stack, out)
         == ReadLines(file, rest, pending + Listed(MemberTexts(MembersOf(es)) + ["\n"]), stack, out)
    decreases |es|
  {
    hide ReadLines, GoodLine, BlankLine, EntryOk, EntryLine, Cleared, Listed, MembersOf, MemberTexts;
    if es == [] {
      NoEntries();
      assert [] + rest == rest;
    } else {
      var e, more := es[0], es[1..];
      assert es == [e] + more;
      var first, lines := e.comments + [EntryLine(e)], EntryLines(more);
      BlankAppend(first, lines);
      assert BlankLines(first + lines) + rest == BlankLines(first) + (BlankLines(lines) + rest);
      EntryStep(file, e, BlankLines(lines) + rest, pending + "\n", stack, out);
      EntriesStep(file, more, rest, pending + "\n" + Cleared(e.comments) + EntryLine(e), stack, out);
      EntryListed(e, more, pending);
      GoodAppend(first, lines);
    }
  }

  lemma EntryParts(e: Entry)
    requires EntryOk(e)
    ensures Unseen(e.comments) && Neat(EntryLine(e)) && CodeLine(EntryLine(e))
  {
    EntryNeat(e);
  }

  lemma EntryListed(e: Entry, more: seq<Entry>, pending: string)
    ensures pending + "\n" + Cleared(e.comments) + EntryLine(e) + Listed(MemberTexts(MembersOf(more)) + ["\n"])
         == pending + Listed(MemberTexts(MembersOf([e] + more)) + ["\n"])
  {
    hide Listed, Cleared;
    var m := Member("\n" + Cleared(e.comments) + e.indent, e.name, e.value, "");
    var rest := MemberTexts(MembersOf(more)) + ["\n"];
    assert MembersOf([e] + more) == [m] + MembersOf(more);
    assert MemberTexts([m] + MembersOf(more)) == [MemberText(m)] + MemberTexts(MembersOf(more));
    assert MemberTexts(MembersOf([e] + more)) + ["\n"] == [MemberText(m)] + rest;
    ListedCons(MemberText(m), rest);
    EntryText(e, m);
    assert pending + "\n" + Cleared(e.comments) + EntryLine(e) + Listed(rest) == pending + (MemberText(m) + "," + Listed(rest));
  }

  lemma EntryText(e: Entry, m: Member)
    requires m == Member("\n" + Cleared(e.comments) + e.indent, e.name, e.value, "")
    ensures MemberText(m) + "," == "\n" + Cleared(e.comments) + EntryLine(e)
  {
    hide Cleared;
    var d := Declared(m);
    assert d == Declared(Member("", e.name, e.value, ""));
    assert MemberText(m) == "\n" + Cleared(e.comments) + e.indent + d;
  }

  // ----- The file -----

  /** A file of one enum: its namespace, comments and empty lines, the head, and the members in braces. */
  function FileLines(space: string, lead: seq<string>, head: string, es: seq<Entry>): seq<string> {
    [space + [';']] + (lead + ([head] + (["{"] + (EntryLines(es) + ["}"]))))
  }

  predicate FileOk(space: string, lead: seq<string>, front: seq<string>, name: string, ty: Option<string>, es: seq<Entry>) {
    Calm(space) && Unseen(lead) && IsHead(front, name, ty) && forall k :: 0 <= k < |es| ==> EntryOk(es[k])
  }

  function Underlying(ty: Option<string>): string { if ty.Some? then ty.value else "int" }

  /** What is read of such a file: the one enum with its values, or the first of them that overflows. */
  function EnumRead(file: string, name: string, ty: Option<string>, es: seq<Entry>): Result<Declarations, ReadError> {
    match Counted(file, name, MembersOf(es), 0)
    case Err(e) => Err(e)
    case Ok(values) => Ok(Declarations([], [], [CsEnum(file, name, Underlying(ty), values)]))
  }

  lemma BodyEnds(file: string, name: string, ty: Option<string>, es: seq<Entry>, pending: string)
    requires forall k :: 0 <= k < |es| ==> EntryOk(es[k])
    requires pending == Listed(MemberTexts(MembersOf(es)) + ["\n"])
    ensures var out := Declarations([], [], [CsEnum(file, name, Underlying(ty), [])]);
            var read := EnumRead(file, name, ty, es);
            Ended(file, '}', pending, pending, [EnumBody(0)], out)
            == if read.Err? then Err(read.error) else Ok(([], read.value))
  {
    hide EnumMembersOf, Counted, MembersOf, MemberTexts, EntryOk, Listed;
    NoWhite();
    AllMembersOk(es);
    MembersRead(file, name, MembersOf(es), ["\n"]);
    var values := Counted(file, name, MembersOf(es), 0);
    if values.Ok? {
      assert [CsEnum(file, name, Underlying(ty), [])][0 := CsEnum(file, name, Underlying(ty), values.value)]
          == [CsEnum(file, name, Underlying(ty), values.value)];
    }
  }

  lemma AllMembersOk(es: seq<Entry>)
    requires forall k :: 0 <= k < |es| ==> EntryOk(es[k])
    ensures forall k :: 0 <= k < |MembersOf(es)| ==> MemberOk(MembersOf(es)[k])
  {
    MembersAreOk(es);
  }

  /** From the opening brace to the end. */
  lemma BodyRead(file: string, name: string, ty: Option<string>, es: seq<Entry>)
    requires forall k :: 0 <= k < |es| ==> EntryOk(es[k])
    ensures Good(EntryLines(es) + ["}"])
    ensures ReadLines(file, BlankLines(EntryLines(es) + ["}"]), "\n", [EnumBody(0)],
                      Declarations([], [], [CsEnum(file, name, Underlying(ty), [])]))
         == EnumRead(file, name, ty, es)
  {
    hide ReadLines, GoodLine, BlankLine, EntryOk, Listed, MembersOf, MemberTexts, Neat, CodeLine, EntryLines, EnumRead;
    var out := Declarations([], [], [CsEnum(file, name, Underlying(ty), [])]);
    var body := Listed(MemberTexts(MembersOf(es)) + ["\n"]);
    BlankAppend(EntryLines(es), ["}"]);
    EntriesStep(file, es, BlankLines(["}"]), "", [EnumBody(0)], out);
    assert "" + "\n" == "\n" && "" + body == body && body + "" == body;
    NothingNeat();
    assert "" + ['}'] == "}";
    CodeEnds(file, "", '}', [], body, [EnumBody(0)], out);
    assert BlankLines(["}"]) + [] == BlankLines(["}"]);
    BodyEnds(file, name, ty, es, body);
    NothingMore(file);
    GoodAppend(EntryLines(es), ["}"]);
  }

  lemma NothingNeat()
    ensures Neat("") && CodeLine("")
  {
    assert Calm("");
    CalmNeat("");
  }

  lemma NothingMore(file: string)
    ensures forall stack, out :: ReadLines(file, [], "\n", stack, out) == Ok(out)
  {
  }

  /** A file of one enum is read as that enum. */
  lemma EnumFileRead(
      file: string, space: string, lead: seq<string>, front: seq<string>, name: string, ty: Option<string>, es: seq<Entry>)
    requires FileOk(space, lead, front, name, ty, es)
    ensures Read(file, LinesText(FileLines(space, lead, JoinWords(HeadWordsOf(front, name, ty)), es)))
         == EnumRead(file, name, ty, es)
  {
    hide Read, ReadLines, GoodLine, BlankLine, EntryOk, Neat, CodeLine, EntryLines, EnumRead, White, Calm, Opened, JoinWords, LinesText;
    hide AllWordChars, Cleared, HeadWordsOf, IsHead;
    var head := JoinWords(HeadWordsOf(front, name, ty));
    var none, body := Declarations([], [], []), EntryLines(es) + ["}"];
    var opening := ["{"] + body;
    var behind := lead + ([head] + opening);
    HeadIsCode(front, name, ty);
    NothingNeat();
    CalmNeat(space);
    BlankAppend([space + [';']], behind);
    BlankAppend(lead, [head] + opening);
    BlankAppend([head], opening);
    BlankAppend(["{"], body);
    BodyRead(file, name, ty, es);
    CodeEnds(file, space, ';', BlankLines(behind), "", [], none);
    TopEnds(file, "" + space, none);
    ClearedStep(file, lead, BlankLines([head] + opening), "\n", [], none);
    ClearedWhite(lead);
    NoWhite();
    WhiteAppend("\n", Cleared(lead));
    var before := "\n" + Cleared(lead);
    CodeStep(file, head, BlankLines(opening), before, [], none);
    assert "" + ['{'] == "{";
    CodeEnds(file, "", '{', BlankLines(body), before + head + "\n", [], none);
    assert before + head + "\n" + "" == before + head + "\n";
    HeadOpens(file, before, front, name, ty);
    UnseenGood(lead);
    GoodAppend(["{"], body);
    GoodAppend([head], opening);
    GoodAppend(lead, [head] + opening);
    GoodAppend([space + [';']], behind);
    GoodRead(file, FileLines(space, lead, head, es));
  }

  lemma HeadIsCode(front: seq<string>, name: string, ty: Option<string>)
    requires IsHead(front, name, ty)
    ensures var head := JoinWords(HeadWordsOf(front, name, ty)); Neat(head) && CodeLine(head)
  {
    hide JoinWords, Calm, Neat, CodeLine;
    HeadFound(front, name, ty);
    CalmNeat(JoinWords(HeadWordsOf(front, name, ty)));
  }

  lemma HeadOpens(file: string, before: string, front: seq<string>, name: string, ty: Option<string>)
    requires White(before) && IsHead(front, name, ty)
    ensures var segment := before + JoinWords(HeadWordsOf(front, name, ty)) + "\n";
            Ended(file, '{', segment, segment, [], Declarations([], [], []))
            == Ok(([EnumBody(0)], Declarations([], [], [CsEnum(file, name, Underlying(ty), [])])))
  {
    hide JoinWords, Opened, White, IsHead, HeadWordsOf;
    EnumOpened(file, before, front, name, ty, Declarations([], [], []));
    assert [] + [EnumBody(0)] == [EnumBody(0)];
    assert [] + [CsEnum(file, name, Underlying(ty), [])] == [CsEnum(file, name, Underlying(ty), [])];
  }

  // ----- Beside the rendered mirror -----

  /** The type an enum of a header is backed by, in C#. */
  function Backing(e: Enum): Option<string> { if e.underlying.None? then Some("int") else Primitive(e.underlying.value) }

  lemma OneEnumAgrees(h: Header, e: Enum, mirror: CsEnum)
    requires h.enums == [e] && mirror.name == e.name && MembersMirror(e.name, e.variants, mirror.members)
    requires Backing(e).Some? && CanonicalOf(Backing(e).value) == CanonicalOf(mirror.underlying)
    ensures EnumsAgree(h, Declarations([], [], [mirror]))
  {
    hide MembersMirror, CanonicalOf, Check.EnumProblems, Check.EnumOnce, Check.EnumDiffers;
    var d := Declarations([], [], [mirror]);
    UnderlyingIs(h, 0);
    assert Check.Only(d.enums, Check.EnumName, e.name, 0);
    assert IsItsMirror(h, d, e, 0);
    MirrorHasNoProblem(h, d, e, 0, mirror.members);
    assert forall p :: !Check.EnumDiffers(h, d, e, p);
    Check.EnumPart(h, d, e);
    assert h.enums[0] in h.enums;
  }

  /** The rendered mirror of a header with an enum, and a file of that enum whose members are the
      enum's without its name before them, agree with the header: the comparison reports nothing. */
  lemma MirrorAndEnumAgree(
      generated: string, h: Header, text: string, e: Enum, file: string, space: string, lead: seq<string>,
      front: seq<string>, ty: Option<string>, es: seq<Entry>, values: seq<(string, int)>)
    requires Acyclic(h) && HeaderOk(h) && Texted(Rendered(h)) == Ok(text) && h.enums == [e]
    requires FileOk(space, lead, front, e.name, ty, es) && Counted(file, e.name, MembersOf(es), 0) == Ok(values)
    requires MembersMirror(e.name, e.variants, values)
    requires Backing(e).Some? && CanonicalOf(Backing(e).value) == CanonicalOf(Underlying(ty))
    ensures var enums := Read(file, LinesText(FileLines(space, lead, JoinWords(HeadWordsOf(front, e.name, ty)), es)));
            && enums.Ok? && Read(generated, text).Ok?
            && Check.Problems(h, Read(generated, text).value.(enums := enums.value.enums)) == []
  {
    hide Read, FileOk, HeaderOk, Acyclic, MembersMirror, CanonicalOf, FileLines, LinesText, JoinWords, HeadWordsOf, Check.Problems;
    hide Check.Differs, EnumsAgree;
    EnumFileRead(file, space, lead, front, e.name, ty, es);
    var mirror := CsEnum(file, e.name, Underlying(ty), values);
    OneEnumAgrees(h, e, mirror);
    RenderedAgrees(generated, h, text, [mirror]);
    var d := Read(generated, text).value.(enums := [mirror]);
    Check.ProblemsDiffer(h, d);
    NoProblems(Check.Problems(h, d));
  }

  lemma NoProblems(problems: seq<Check.Problem>)
    ensures (forall p :: p !in problems) ==> problems == []
  {
    assert problems != [] ==> problems[0] in problems;
  }
}
