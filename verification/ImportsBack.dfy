/** How the reader takes the imports that are rendered. */
module ImportsBack {
  import opened Wrappers
  import opened Text
  import opened Words
  import opened Surface
  import opened SurfaceReader
  import opened TypeTexts
  import opened ReadBack
  import opened MembersBack
  import opened Header
  import Render

  // ----- Parameters -----

  /** That a text is a parameter, and what slot it is. */
  ghost predicate ParamText(text: string, slot: Slot) {
    && AllWordChars(slot.name) && slot.fixed_ == None && Spelled(slot.ty)
    && text == slot.ty + " " + Render.CsName(slot.name)
  }

  lemma TypeLevel(t: string, ws: seq<string>)
    requires TypeText(t, ws)
    ensures Level(t, 0) == Some(0) && t[0] != '['
  {
    hide Level, JoinWords, AreWords, OrdinaryWord, TypeTexts.Marked;
    assert t != "" by { TypeTrimmed(t, ws); }
    assert TypeChar(t[0]);
  }

  lemma NameLevel(n: string)
    requires NameText(n)
    ensures Level(" " + n, 0) == Some(0)
  {
    hide Level;
    LevelPlain(" " + n, 0);
  }

  lemma ParamShape(text: string, slot: Slot)
    requires ParamText(text, slot)
    ensures Level(text, 0) == Some(0) && Quiet(text) && Trimmed(text) && text[0] != '['
    ensures SplitName(text) == Some((slot.ty, slot.name)) && slot.ty != ""
  {
    hide Level, TypeText, NameText, AllWordChars, Render.CsName, SplitName, WithoutAt, Quiet, IsSpace;
    var t, n := slot.ty, Render.CsName(slot.name);
    var ws :| TypeText(t, ws);
    TypeTrimmed(t, ws);
    TypeLevel(t, ws);
    CsNameIs(slot.name);
    NameLevel(n);
    LevelAppend(t, " " + n, 0);
    assert text == t + (" " + n);
    QuietName(n);
    QuietMarks();
    QuietAppend(t, " ");
    QuietAppend(t + " ", n);
    NameSplit(t, n);
  }

  /** A parameter is read as it was rendered, with or without a space before it. */
  lemma ParamRead(lead: string, text: string, slot: Slot)
    requires White(lead) && ParamText(text, slot)
    ensures ParameterOf(lead + text) == Some(slot)
  {
    hide Level, Quiet, Trimmed, SplitFrom, SplitName, White, Find, FindChar, ParametersOf;
    ParamShape(text, slot);
    var part := lead + text;
    NoWhite();
    assert part[0..] == lead + text + "";
    DeclarationLeft(part, 0, lead, text, "");
    QuietNoList(text);
    assert text[..|text|] == text;
  }

  lemma {:induction false} ParametersRead(parts: seq<string>, slots: seq<Slot>)
    requires |parts| == |slots| && forall k :: 0 <= k < |parts| ==> ParameterOf(parts[k]) == Some(slots[k])
    ensures ParametersIn(parts) == Some(slots)
    decreases |parts|
  {
    hide ParameterOf;
    if parts != [] {
      ParametersRead(parts[..|parts| - 1], slots[..|slots| - 1]);
      assert slots == slots[..|slots| - 1] + [slots[|slots| - 1]];
    }
  }

  // ----- Parameter lists -----

  /** The parts of a parameter list: after the first, each has the space after its comma. */
  function Led(lead: string, texts: seq<string>): (r: seq<string>)
    ensures |r| == |texts|
    decreases |texts|
  {
    if texts == [] then [] else [lead + texts[0]] + Led(" ", texts[1..])
  }

  lemma {:induction false} LedAt(lead: string, texts: seq<string>, k: nat)
    requires k < |texts|
    ensures Led(lead, texts)[k] == (if k == 0 then lead else " ") + texts[k]
    decreases k
  {
    if k > 0 { LedAt(" ", texts[1..], k - 1); }
  }

  /** Joined with commas and spaces, texts are a list of what the commas leave. */
  lemma {:induction false} JoinIsListed(lead: string, texts: seq<string>)
    requires texts != []
    ensures lead + JoinComma(texts) == Listed(Led(lead, texts))
    decreases |texts|
  {
    hide JoinComma, Listed, Led;
    var first, rest := texts[0], texts[1..];
    assert texts == [first] + rest;
    JoinCommaCons(first, rest);
    LedCons(lead, first, rest);
    ListedCons(lead + first, Led(" ", rest));
    if rest != [] {
      JoinIsListed(" ", rest);
      assert lead + (first + ", " + JoinComma(rest)) == lead + first + "," + (" " + JoinComma(rest));
    }
  }

  lemma LedCons(lead: string, first: string, rest: seq<string>)
    ensures Led(lead, [first] + rest) == [lead + first] + Led(" ", rest)
    ensures Led(" ", []) == []
  {
    assert ([first] + rest)[1..] == rest;
  }

  lemma SpaceLevel()
    ensures Level(" ", 0) == Some(0) && Level("", 0) == Some(0)
  {
    LevelPlain(" ", 0);
  }

  /** A rendered parameter list is read as it was rendered. */
  lemma ListRead(texts: seq<string>, slots: seq<Slot>)
    requires |texts| == |slots| && texts != [] && forall k :: 0 <= k < |texts| ==> ParamText(texts[k], slots[k])
    ensures ParametersIn(Parts(JoinComma(texts), JoinComma(texts))) == Some(slots)
  {
    hide ParamText, Level, JoinComma, Listed, ParameterOf, Parts, Quiet, Trimmed;
    var list := JoinComma(texts);
    assert "" + list == list;
    JoinIsListed("", texts);
    forall k | 0 <= k < |texts| ensures Level(Led("", texts)[k], 0) == Some(0) {
      ParamShape(texts[k], slots[k]);
      SpaceLevel();
      LedAt("", texts, k);
      LevelAppend(if k == 0 then "" else " ", texts[k], 0);
    }
    ListedParts(Led("", texts));
    forall k | 0 <= k < |texts| ensures ParameterOf(Led("", texts)[k]) == Some(slots[k]) {
      LedAt("", texts, k);
      NoWhite();
      ParamRead(if k == 0 then "" else " ", texts[k], slots[k]);
    }
    ParametersRead(Led("", texts), slots);
  }

  lemma {:induction false} ListShape(texts: seq<string>, slots: seq<Slot>)
    requires |texts| == |slots| && texts != [] && forall k :: 0 <= k < |texts| ==> ParamText(texts[k], slots[k])
    ensures Quiet(JoinComma(texts)) && Trimmed(JoinComma(texts))
    decreases |texts|
  {
    hide ParamText, JoinComma, Quiet, Level, IsSpace;
    var first, rest := texts[0], texts[1..];
    assert texts == [first] + rest;
    JoinCommaCons(first, rest);
    ParamShape(first, slots[0]);
    if rest != [] {
      ListShape(rest, slots[1..]);
      CommaQuiet();
      QuietAppend(first, ", ");
      QuietAppend(first + ", ", JoinComma(rest));
    }
  }

  lemma CommaQuiet()
    ensures Quiet(", ")
  {
  }

  // ----- Imports -----

  const LIBRARY_IMPORT: Attribute := Attribute("LibraryImport", "Library")

  const SUPPRESSES: Attribute := Attribute("SuppressGCTransition", "")

  function ImportAttributes(suppressed: bool): seq<Attribute> {
    if suppressed then [LIBRARY_IMPORT, SUPPRESSES] else [LIBRARY_IMPORT]
  }

  /** The attribute lists before an import, and the white space after each. */
  function AttributeLines(suppressed: bool): string {
    "[LibraryImport(Library)]" + "\n    " + if suppressed then "[SuppressGCTransition]" + "\n    " else ""
  }

  lemma ImportAttributesPlain()
    ensures PlainAttribute(LIBRARY_IMPORT) && PlainAttribute(SUPPRESSES)
    ensures "[" + AttributeText(LIBRARY_IMPORT) + "]" == "[LibraryImport(Library)]"
    ensures "[" + AttributeText(SUPPRESSES) + "]" == "[SuppressGCTransition]"
    ensures White("\n    ")
  {
    hide Letters, PlainAttribute;
    ImportLetters();
    LettersAttribute("LibraryImport", 't', "Library");
    NoLetters();
    LettersAttribute("SuppressGCTransition", 'n', "");
    LibraryText();
    NoWhite();
    WhiteAppend("\n", "    ");
    assert "\n" + "    " == "\n    ";
  }

  lemma LibraryText()
    ensures "[" + ("LibraryImport" + "(" + "Library" + ")") + "]" == "[LibraryImport(Library)]"
    ensures "[" + "SuppressGCTransition" + "]" == "[SuppressGCTransition]"
  {
  }

  lemma NoLetters()
    ensures Letters("")
  {
  }

  lemma LettersAttribute(name: string, c: char, args: string)
    requires Letters(name) && Letters(args) && name != "" && name[|name| - 1] == c && c != 'e'
    ensures PlainAttribute(Attribute(name, args))
  {
    hide IsWordChar, EndsWith;
    LettersPlain(name, c);
    if args != "" { LettersArgs(args); }
  }

  lemma LettersArgs(args: string)
    requires Letters(args)
    ensures forall k :: 0 <= k < |args| ==> ArgChar(args[k])
  {
  }

  predicate Letters(s: string) { forall k :: 0 <= k < |s| ==> IsLetter(s[k]) }

  lemma ImportLetters()
    ensures Letters("LibraryImport") && Letters("SuppressGCTransition") && Letters("Library")
    ensures "LibraryImport"[12] == 't' && "SuppressGCTransition"[19] == 'n'
  {
  }

  lemma LettersPlain(name: string, c: char)
    requires Letters(name) && name != "" && name[|name| - 1] == c && c != 'e'
    ensures AllWordChars(name) && !EndsWith(name, "Attribute")
  {
    assert "Attribute"[8] == 'e';
    assert |name| >= 9 ==> name[|name| - 9..][8] == c;
  }

  lemma NoEntryPoint()
    ensures EntryPoint(LIBRARY_IMPORT.args).None?
  {
    assert |"EntryPoint"| == 10 && |"Library"| == 7;
    assert Find("Library", "EntryPoint").None?;
  }

  lemma NativeFirst(suppressed: bool)
    ensures FirstNative(ImportAttributes(suppressed)) == Some(LIBRARY_IMPORT)
  {
    assert ImportAttributes(suppressed)[0] == LIBRARY_IMPORT;
  }

  /** The attributes are taken off an import, and its declaration is left. */
  lemma ImportSplit(white: string, suppressed: bool, declaration: string)
    requires White(white) && Trimmed(declaration) && declaration[0] != '['
    ensures var segment := white + (AttributeLines(suppressed) + declaration);
            SplitFrom(segment, segment, 0) == (ImportAttributes(suppressed), declaration)
  {
    hide SplitFrom, White, Trimmed, PlainAttribute, AttributeText;
    ImportAttributesPlain();
    var segment := white + (AttributeLines(suppressed) + declaration);
    var rest := "\n    " + ((if suppressed then "[SuppressGCTransition]" + "\n    " else "") + declaration);
    assert segment[0..] == white + ("[LibraryImport(Library)]" + rest);
    AttributeTaken(segment, 0, white, LIBRARY_IMPORT, rest);
    var next := 0 + |white| + |AttributeText(LIBRARY_IMPORT)| + 2;
    NoWhite();
    if suppressed {
      assert rest == "\n    " + ("[SuppressGCTransition]" + ("\n    " + declaration));
      AttributeTaken(segment, next, "\n    ", SUPPRESSES, "\n    " + declaration);
      var last := next + 5 + |AttributeText(SUPPRESSES)| + 2;
      assert "\n    " + declaration == "\n    " + declaration + "";
      DeclarationLeft(segment, last, "\n    ", declaration, "");
      assert [LIBRARY_IMPORT] + ([SUPPRESSES] + []) == ImportAttributes(true);
    } else {
      assert rest == "\n    " + declaration + "";
      DeclarationLeft(segment, next, "\n    ", declaration, "");
      assert [LIBRARY_IMPORT] + [] == ImportAttributes(false);
    }
  }

  lemma {:induction false} OpenPassed(s: string, k: nat, j: nat, d: nat)
    requires j <= k <= |s| && forall i :: j <= i < k ==> s[i] != '(' && s[i] != ')'
    ensures OpenBefore(s, k, d) == OpenBefore(s, j, d)
    decreases k
  {
    if j < k { OpenPassed(s, k - 1, j, d); }
  }

  /** The parameter list that a declaration ends with. */
  lemma ListFound(head: string, list: string)
    requires Quiet(list)
    ensures var declaration := head + "(" + list + ")";
            && ParametersOf(declaration) == Some((|head|, |declaration| - 1))
            && declaration[..|head|] == head && declaration[|head| + 1..|declaration| - 1] == list
  {
    hide Trim, LastChar, OpenBefore;
    var declaration := head + "(" + list + ")";
    var close := |declaration| - 1;
    LastIs(declaration, ')', |declaration|, close);
    assert declaration[close + 1..] == "";
    TrimNothing();
    assert forall i :: |head| < i < close ==> declaration[i] == list[i - |head| - 1];
    OpenPassed(declaration, close, |head| + 1, 1);
    OpenFound(declaration, |head| + 1);
  }

  lemma OpenFound(s: string, k: nat)
    requires 0 < k <= |s| && s[k - 1] == '('
    ensures OpenBefore(s, k, 1) == Some(k - 1)
  {
  }

  const FRONT: seq<string> := ["public", "static", "partial"]

  lemma FrontIs()
    ensures AreWords(FRONT) && JoinWords(FRONT) == "public static partial"
    ensures IsModifier("public") && IsModifier("static") && IsModifier("partial")
  {
    hide IsWord, IsModifier;
    PublicText();
    assert FRONT[..2] == ["public", "static"] && FRONT[..2][..1] == ["public"];
    assert JoinWords(["public", "static"]) == "public" + " " + "static";
    assert JoinWords(FRONT) == JoinWords(["public", "static"]) + " " + "partial";
  }

  /** The result type of an import: the words after its modifiers. */
  lemma ResultRead(result: string, ws: seq<string>)
    requires TypeText(result, ws)
    ensures var before := "public static partial " + result;
            && Trimmed(before) && before[0] != '['
            && JoinWords(DropModifiers(SplitWhitespace(before))) == result && result != ""
  {
    hide AreWords, JoinWords, OrdinaryWord, TypeTexts.Marked, TypeChars, Level, SplitWhitespace, IsModifier, Trimmed;
    FrontIs();
    var all, before := FRONT + ws, "public static partial " + result;
    WordsAppend(FRONT, ws);
    JoinAppend(FRONT, ws);
    assert before == "public static partial" + " " + result;
    assert JoinWords(all) == before;
    JoinTrimmed(all);
    SplitOfJoined(all);
    WordOrdinary(result, ws, 0);
    StaticOrdinary(ws[0]);
    assert all[0] == "public" && all[1..][0] == "static" && all[1..][1..][0] == "partial" && all[1..][1..][1..] == ws;
    FrontDropped(ws);
    TypeTrimmed(result, ws);
    assert "public static partial "[0] == 'p';
  }

  lemma FrontDropped(ws: seq<string>)
    requires ws != [] && !IsModifier(ws[0]) && IsModifier("public") && IsModifier("static") && IsModifier("partial")
    ensures DropModifiers(FRONT + ws) == ws
  {
    hide IsModifier;
    var all := FRONT + ws;
    assert all[1..] == ["static", "partial"] + ws && all[1..][1..] == ["partial"] + ws && all[1..][1..][1..] == ws;
    assert DropModifiers(ws) == ws;
    assert DropModifiers(["partial"] + ws) == ws;
    assert DropModifiers(["static", "partial"] + ws) == ws;
  }

  /** The declaration of an import, as it is rendered. */
  function ImportText(result: string, name: string, texts: seq<string>): string {
    "public static partial " + result + " " + name + "(" + JoinComma(texts) + ")"
  }

  lemma FunctionName(name: string)
    requires AllWordChars(name)
    ensures NameText(name) && IsWord(name) && WithoutAt(name) == name
  {
    hide IsWordChar, IsIdentifierChar, IsNameChar, IsSpace;
    forall k | 0 <= k < |name| ensures IsNameChar(name[k]) && !IsSpace(name[k]) { NamePlain(name[k]); }
    NamePlain(name[0]);
    WithoutAtIs(name, name);
  }

  lemma SlotsRead(texts: seq<string>, slots: seq<Slot>)
    requires |texts| == |slots| && forall k :: 0 <= k < |texts| ==> ParamText(texts[k], slots[k])
    ensures var list := JoinComma(texts);
            && Quiet(list)
            && (if Trim(list) == "" then Some([]) else ParametersIn(Parts(list, list))) == Some(slots)
  {
    hide ParamText, Quiet, Trim, Trimmed, Parts;
    if texts == [] {
      TrimNothing();
      NothingQuiet();
    } else {
      ListShape(texts, slots);
      TrimSame(JoinComma(texts));
      ListRead(texts, slots);
      assert Trimmed(JoinComma(texts)) ==> JoinComma(texts) != "" by { TrimmedSome(JoinComma(texts)); }
    }
  }

  lemma TrimmedSome(s: string)
    ensures Trimmed(s) ==> s != ""
  {
  }

  lemma NothingQuiet()
    ensures Quiet("") && JoinComma([]) == ""
  {
  }

  /** The import that its declaration is. */
  lemma ImportInRead(
      file: string, attributes: seq<Attribute>, result: string, ws: seq<string>, name: string, texts: seq<string>,
      slots: seq<Slot>)
    requires TypeText(result, ws) && AllWordChars(name)
    requires |texts| == |slots| && forall k :: 0 <= k < |texts| ==> ParamText(texts[k], slots[k])
    ensures ImportIn(file, attributes, LIBRARY_IMPORT, ImportText(result, name, texts))
         == Some(Import(file, name, result, slots, attributes))
  {
    hide TypeText, AllWordChars, ParamText, Trimmed, Quiet, JoinWords, DropModifiers, SplitWhitespace, SplitName;
    hide ParametersOf, Trim, Parts, EntryPoint, JoinComma, NameText, IsWord, WithoutAt;
    var before, list := "public static partial " + result, JoinComma(texts);
    var head := before + " " + name;
    SlotsRead(texts, slots);
    ListFound(head, list);
    assert ImportText(result, name, texts) == head + "(" + list + ")";
    ResultRead(result, ws);
    FunctionName(name);
    NameSplit(before, name);
    NoEntryPoint();
  }

  /** An import is read as it was rendered. */
  lemma ImportRead(
      file: string, white: string, suppressed: bool, result: string, ws: seq<string>, name: string, texts: seq<string>,
      slots: seq<Slot>)
    requires White(white) && TypeText(result, ws) && AllWordChars(name)
    requires |texts| == |slots| && forall k :: 0 <= k < |texts| ==> ParamText(texts[k], slots[k])
    ensures var segment := white + (AttributeLines(suppressed) + ImportText(result, name, texts));
            ImportOf(file, segment, segment) == Ok(Some(Import(file, name, result, slots, ImportAttributes(suppressed))))
  {
    hide White, TypeText, AllWordChars, ParamText, SplitFrom, ImportIn, AttributeLines, ImportText, FirstNative;
    DeclarationTrimmed(result, ws, name, texts);
    ImportSplit(white, suppressed, ImportText(result, name, texts));
    NativeFirst(suppressed);
    ImportInRead(file, ImportAttributes(suppressed), result, ws, name, texts, slots);
  }

  lemma DeclarationTrimmed(result: string, ws: seq<string>, name: string, texts: seq<string>)
    requires TypeText(result, ws)
    ensures Trimmed(ImportText(result, name, texts)) && ImportText(result, name, texts)[0] != '['
  {
    hide TypeText, JoinComma, IsSpace;
    var text := ImportText(result, name, texts);
    assert text[0] == "public static partial "[0] == 'p' && text[|text| - 1] == ')';
    ParenIs();
  }

  lemma ParenIs()
    ensures !IsSpace('p') && !IsSpace(')')
  {
  }
}
