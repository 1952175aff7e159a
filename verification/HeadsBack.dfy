/** How the reader takes the heads of the types that are rendered. */
module HeadsBack {
  import opened Wrappers
  import opened Text
  import opened Words
  import opened Surface
  import opened SurfaceReader
  import opened TypeTexts
  import opened ReadBack
  import opened MembersBack

  const LAYOUT: Attribute := Attribute("StructLayout", "LayoutKind.Sequential")

  lemma LayoutText()
    ensures "[" + ("StructLayout" + "(" + "LayoutKind.Sequential" + ")") + "]" == "[StructLayout(LayoutKind.Sequential)]"
  {
  }

  lemma LayoutName()
    ensures AllWordChars("StructLayout") && !EndsWith("StructLayout", "Attribute")
  {
    assert "StructLayout"[11] == 't' && "Attribute"[8] == 'e';
    assert "StructLayout"[|"StructLayout"| - 9..][8] == 't';
  }

  lemma LayoutArgs()
    ensures forall k :: 0 <= k < |"LayoutKind.Sequential"| ==> ArgChar("LayoutKind.Sequential"[k])
  {
  }

  lemma LayoutSequential()
    ensures Find("LayoutKind.Sequential", "Sequential").Some?
  {
    var s := "LayoutKind." + "Sequential";
    assert s == "LayoutKind.Sequential";
    assert StandsAt(s, "Sequential", 11);
  }

  lemma LayoutPlain()
    ensures PlainAttribute(LAYOUT) && "[" + AttributeText(LAYOUT) + "]" == "[StructLayout(LayoutKind.Sequential)]"
    ensures Sequential([LAYOUT])
  {
    hide AllWordChars, EndsWith, ArgChar, Find;
    LayoutText();
    LayoutName();
    LayoutArgs();
    LayoutSequential();
    assert LAYOUT in [LAYOUT];
  }

  const STRUCT_FRONT: seq<string> := ["public", "unsafe"]

  const CLASS_FRONT: seq<string> := ["public", "static", "unsafe", "partial"]

  lemma FrontsAre()
    ensures AreWords(STRUCT_FRONT) && AreWords(CLASS_FRONT) && IsWord("struct") && IsWord("class") && IsWord("NativeMethods")
    ensures JoinWords(STRUCT_FRONT) == "public unsafe" && JoinWords(CLASS_FRONT) == "public static unsafe partial"
  {
    hide IsWord, Lowercase;
    HeadWords();
    LowercaseIsWord("public");
    LowercaseIsWord("static");
    LowercaseIsWord("unsafe");
    LowercaseIsWord("partial");
    LowercaseIsWord("struct");
    LowercaseIsWord("class");
    FrontTexts();
  }

  lemma HeadWords()
    ensures Lowercase("public") && Lowercase("static") && Lowercase("unsafe") && Lowercase("partial")
    ensures Lowercase("struct") && Lowercase("class") && IsWord("NativeMethods")
  {
  }

  lemma FrontTexts()
    ensures JoinWords(STRUCT_FRONT) == "public unsafe" && JoinWords(CLASS_FRONT) == "public static unsafe partial"
  {
    hide JoinWords;
    JoinOne("unsafe");
    JoinOne("partial");
    JoinFirst("public", ["unsafe"]);
    JoinFirst("unsafe", ["partial"]);
    JoinFirst("static", ["unsafe"] + ["partial"]);
    JoinFirst("public", ["static"] + (["unsafe"] + ["partial"]));
    FrontSpelled();
    assert STRUCT_FRONT == ["public"] + ["unsafe"];
    assert CLASS_FRONT == ["public"] + (["static"] + (["unsafe"] + ["partial"]));
  }

  lemma FrontSpelled()
    ensures "public" + " " + "unsafe" == "public unsafe"
    ensures "public" + " " + ("static" + " " + ("unsafe" + " " + "partial")) == "public static unsafe partial"
  {
    assert "unsafe" + " " + "partial" == "unsafe partial";
    assert "static" + " " + "unsafe partial" == "static unsafe partial";
  }

  predicate IsTypeKeyword(word: string) { word in TYPE_KEYWORDS }

  lemma KeywordsAre()
    ensures IsTypeKeyword("struct") && IsTypeKeyword("class")
    ensures forall w :: w in STRUCT_FRONT ==> !IsTypeKeyword(w)
    ensures forall w :: w in CLASS_FRONT ==> !IsTypeKeyword(w)
  {
    assert TYPE_KEYWORDS[1] == "struct" && TYPE_KEYWORDS[0] == "class";
    assert "class"[0] == 'c' && "struct"[2] == 'r' && "enum"[0] == 'e' && "interface"[0] == 'i' && "record"[0] == 'r';
    assert "public"[0] == 'p' && "static"[2] == 'a' && "unsafe"[0] == 'u' && "partial"[0] == 'p';
  }

  lemma {:induction false} KeywordFound(words: seq<string>, k: nat, at: nat)
    requires k <= at < |words| && IsTypeKeyword(words[at]) && forall j :: k <= j < at ==> !IsTypeKeyword(words[j])
    ensures KeywordAt(words, k) == at
    decreases at - k
  {
    if k < at { KeywordFound(words, k + 1, at); }
  }

  /** The words of a type head. */
  function HeadText(front: seq<string>, keyword: string, name: string): string {
    JoinWords(front) + " " + (keyword + " " + name)
  }

  lemma HeadRead(front: seq<string>, keyword: string, name: string)
    requires (front == STRUCT_FRONT && keyword == "struct") || (front == CLASS_FRONT && keyword == "class")
    requires AllWordChars(name)
    ensures var words, text := front + [keyword, name], HeadText(front, keyword, name);
            && Trimmed(text) && text[0] != '[' && FindChar(text, '(') == |text| && SplitWhitespace(text) == words
            && KeywordAt(words, 0) == |front| && words[|front| + 1][..IdentifierEnd(words[|front| + 1])] == name
  {
    hide IsSpace, JoinWords, SplitWhitespace, IsIdentifierChar, KeywordAt, IsTypeKeyword, AreWords, Trimmed, Quiet, FindChar;
    FrontsAre();
    FunctionWord(name);
    var tail := [keyword, name];
    TailWords(keyword, name);
    WordsAppend(front, tail);
    JoinAppend(front, tail);
    var words, text := front + tail, HeadText(front, keyword, name);
    JoinTrimmed(words);
    SplitOfJoined(words);
    KeywordsAre();
    assert forall j :: 0 <= j < |front| ==> words[j] == front[j] && front[j] in front;
    KeywordFound(words, 0, |front|);
    HeadQuiet(front, keyword, name);
    assert words[|front| + 1] == name;
    assert name[..|name|] == name;
  }

  lemma TailWords(keyword: string, name: string)
    requires IsWord(keyword) && IsWord(name)
    ensures AreWords([keyword, name]) && JoinWords([keyword, name]) == keyword + " " + name
  {
    JoinFirst(keyword, [name]);
    JoinOne(name);
    assert [keyword] + [name] == [keyword, name];
  }

  lemma FunctionWord(name: string)
    requires AllWordChars(name)
    ensures IsWord(name) && IdentifierEnd(name) == |name| && NameText(name)
  {
    hide IsWordChar, IsIdentifierChar, IsSpace, IsNameChar;
    forall k | 0 <= k < |name| ensures !IsSpace(name[k]) && IsNameChar(name[k]) && IsIdentifierChar(name[k]) {
      NamePlain(name[k]);
    }
  }

  lemma HeadQuiet(front: seq<string>, keyword: string, name: string)
    requires (front == STRUCT_FRONT && keyword == "struct") || (front == CLASS_FRONT && keyword == "class")
    requires AllWordChars(name)
    ensures var text := HeadText(front, keyword, name);
            Quiet(text) && FindChar(text, '(') == |text| && text != "" && text[0] == 'p'
  {
    hide IsWordChar, JoinWords, Quiet;
    FrontsAre();
    FunctionWord(name);
    QuietName(name);
    FrontQuiet();
    QuietMarks();
    var text := HeadText(front, keyword, name);
    QuietAppend(keyword, " ");
    QuietAppend(keyword + " ", name);
    QuietAppend(JoinWords(front), " ");
    QuietAppend(JoinWords(front) + " ", keyword + " " + name);
    NoOpen(text);
    assert text[0] == JoinWords(front)[0];
    assert "public unsafe"[0] == 'p' && "public static unsafe partial"[0] == 'p';
  }

  lemma NoOpen(text: string)
    requires Quiet(text)
    ensures FindChar(text, '(') == |text|
  {
  }

  lemma FrontQuiet()
    ensures Quiet("public unsafe") && Quiet("public static unsafe partial") && Quiet("struct") && Quiet("class")
  {
  }

  /** The head of a sequential struct opens it. */
  lemma StructOpened(file: string, white: string, name: string, out: Declarations)
    requires White(white) && AllWordChars(name)
    ensures var segment := white + ("[StructLayout(LayoutKind.Sequential)]" + ("\n" + HeadText(STRUCT_FRONT, "struct", name) + "\n"));
            Opened(file, segment, segment, out)
            == Ok((Type(Some(|out.structs|)), out.(structs := out.structs + [LayoutStruct(file, name, [])])))
  {
    hide White, AllWordChars, HeadText, SplitFrom, Trimmed, Sequential, SplitWhitespace, KeywordAt, PlainAttribute, AttributeText, FindChar;
    var head := HeadText(STRUCT_FRONT, "struct", name);
    var rest := "\n" + head + "\n";
    var segment := white + ("[StructLayout(LayoutKind.Sequential)]" + rest);
    LayoutPlain();
    HeadRead(STRUCT_FRONT, "struct", name);
    assert segment[0..] == segment;
    AttributeTaken(segment, 0, white, LAYOUT, rest);
    NoWhite();
    DeclarationLeft(segment, 0 + |white| + |AttributeText(LAYOUT)| + 2, "\n", head, "\n");
    assert [LAYOUT] + [] == [LAYOUT];
    assert head[..|head|] == head;
  }

  /** The head of the class of imports opens it. */
  lemma ClassOpened(file: string, white: string, out: Declarations)
    requires White(white)
    ensures var segment := white + HeadText(CLASS_FRONT, "class", "NativeMethods") + "\n";
            Opened(file, segment, segment, out) == Ok((Type(None), out))
  {
    hide White, AllWordChars, HeadText, SplitFrom, Trimmed, SplitWhitespace, KeywordAt, FindChar;
    var head := HeadText(CLASS_FRONT, "class", "NativeMethods");
    var segment := white + head + "\n";
    MethodsName();
    HeadRead(CLASS_FRONT, "class", "NativeMethods");
    NoWhite();
    assert segment[0..] == segment;
    DeclarationLeft(segment, 0, white, head, "\n");
    assert head[..|head|] == head;
  }

  lemma MethodsName()
    ensures AllWordChars("NativeMethods")
  {
  }
}
