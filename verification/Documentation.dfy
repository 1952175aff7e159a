/** What the printer of the C# declarations writes, line by line: documentation comments, escaped
    text and a whole file. */
module Documentation {
  import opened Wrappers
  import opened Text
  import opened Words
  import opened Numbers
  import opened Header
  import opened Render

  // ----- Escaped text -----

  /** The text that an escaped text stands for: an entity is one character. */
  function Unescaped(s: string): string
    decreases |s|
  {
    if s == "" then ""
    else if StartsWith(s, "&amp;") then "&" + Unescaped(s[5..])
    else if StartsWith(s, "&lt;") then "<" + Unescaped(s[4..])
    else if StartsWith(s, "&gt;") then ">" + Unescaped(s[4..])
    else [s[0]] + Unescaped(s[1..])
  }

  lemma XmlCons(c: char, rest: string)
    ensures Xml([c] + rest) == XmlChar(c) + Xml(rest)
  {
    assert ([c] + rest)[1..] == rest;
  }

  lemma EntityRead(c: char, more: string)
    ensures Unescaped(XmlChar(c) + more) == [c] + Unescaped(more)
  {
    var s := XmlChar(c) + more;
    assert "&amp;"[0] == '&' && "&lt;"[0] == '&' && "&gt;"[0] == '&';
    assert "&amp;"[1] == 'a' && "&lt;"[1] == 'l' && "&gt;"[1] == 'g';
    assert s[0] == XmlChar(c)[0] && s[|XmlChar(c)|..] == more;
    if c == '&' || c == '<' || c == '>' { assert s[1] == XmlChar(c)[1]; }
  }

  /** Escaped text stands for the text, and has no angle bracket in it; an ampersand in it is that of
      an entity. */
  lemma {:induction false} XmlMeans(text: string)
    ensures Unescaped(Xml(text)) == text
    ensures '<' !in Xml(text) && '>' !in Xml(text)
    ensures forall k :: 0 <= k < |Xml(text)| && Xml(text)[k] == '&' ==>
              StandsAt(Xml(text), "&amp;", k) || StandsAt(Xml(text), "&lt;", k) || StandsAt(Xml(text), "&gt;", k)
  {
    if text != "" {
      var c, rest := text[0], text[1..];
      XmlMeans(rest);
      EntityRead(c, Xml(rest));
      assert text == [c] + rest;
      EntityStands(c, Xml(rest));
    }
  }

  lemma EntityStands(c: char, more: string)
    requires '<' !in more && '>' !in more
    requires forall k :: 0 <= k < |more| && more[k] == '&' ==>
               StandsAt(more, "&amp;", k) || StandsAt(more, "&lt;", k) || StandsAt(more, "&gt;", k)
    ensures var s := XmlChar(c) + more;
            && '<' !in s && '>' !in s
            && forall k :: 0 <= k < |s| && s[k] == '&' ==>
                 StandsAt(s, "&amp;", k) || StandsAt(s, "&lt;", k) || StandsAt(s, "&gt;", k)
  {
    var x, s := XmlChar(c), XmlChar(c) + more;
    forall k | 0 <= k < |s| && s[k] == '&'
      ensures StandsAt(s, "&amp;", k) || StandsAt(s, "&lt;", k) || StandsAt(s, "&gt;", k)
    {
      if k < |x| {
        assert x[k] == '&';
        assert k == 0;
        assert forall j :: 0 <= j < |x| ==> s[0 + j] == x[j];
      } else {
        var j := k - |x|;
        assert more[j] == '&';
        StandsBehind(s, |x|, more, j, "&amp;");
        StandsBehind(s, |x|, more, j, "&lt;");
        StandsBehind(s, |x|, more, j, "&gt;");
      }
    }
  }

  // ----- Paragraphs -----

  /** A line of a paragraph: some text, which is no heading, without white space around it. */
  predicate IsLine(line: string) { Trimmed(line) && !StartsWith(line, "# ") }

  predicate AreLines(lines: seq<string>) { forall k :: 0 <= k < |lines| ==> IsLine(lines[k]) }

  predicate AreParagraphs(ps: seq<seq<string>>) { forall k :: 0 <= k < |ps| ==> ps[k] != [] && AreLines(ps[k]) }

  /** The lines of a comment: its paragraphs with an empty line after each. */
  function DocOf(ps: seq<seq<string>>): seq<string> { if ps == [] then [] else ps[0] + [""] + DocOf(ps[1..]) }

  function JoinedAll(ps: seq<seq<string>>): seq<string> { if ps == [] then [] else [JoinWords(ps[0])] + JoinedAll(ps[1..]) }

  lemma EmptyTrimmed()
    ensures Trim("") == ""
  {
  }

  lemma LineGathered(doc: seq<string>, k: nat, done: seq<string>)
    requires k < |doc| && IsLine(doc[k])
    ensures Paragraphs(doc, k, done) == Paragraphs(doc, k + 1, done + [doc[k]])
  {
    hide Trim, IsSpace;
    TrimSame(doc[k]);
  }

  lemma {:induction false} LinesGathered(doc: seq<string>, k: nat, lines: seq<string>, done: seq<string>)
    requires AreLines(lines) && k + |lines| <= |doc| && doc[k..k + |lines|] == lines
    ensures Paragraphs(doc, k, done) == Paragraphs(doc, k + |lines|, done + lines)
    decreases |lines|
  {
    hide Paragraphs, IsLine;
    if lines == [] {
      assert done + [] == done;
    } else {
      assert doc[k] == lines[0];
      LineGathered(doc, k, done);
      assert doc[k + 1..k + 1 + |lines[1..]|] == lines[1..];
      LinesGathered(doc, k + 1, lines[1..], done + [lines[0]]);
      assert done + [lines[0]] + lines[1..] == done + lines;
    }
  }

  /** The lines of a paragraph are joined by spaces, and an empty line ends it. */
  lemma {:induction false} ParagraphsRead(doc: seq<string>, k: nat, ps: seq<seq<string>>)
    requires k <= |doc| && AreParagraphs(ps) && doc[k..] == DocOf(ps)
    ensures Paragraphs(doc, k, []) == JoinedAll(ps)
    decreases |ps|
  {
    hide Trim, JoinWords;
    if ps != [] {
      var lines := ps[0];
      assert ps[0] != [] && AreLines(ps[0]);
      assert doc[k..k + |lines|] == doc[k..][..|lines|] == lines;
      assert doc[k + |lines|] == doc[k..][|lines|] == "";
      assert doc[k + |lines| + 1..] == doc[k..][|lines| + 1..] == DocOf(ps[1..]);
      LinesGathered(doc, k, lines, []);
      assert [] + lines == lines;
      EmptyTrimmed();
      ParagraphsRead(doc, k + |lines| + 1, ps[1..]);
    }
  }

  /** A heading is read as its text. */
  lemma HeadingRead(line: string)
    requires !StartsWith(line, "# ")
    ensures WithoutHeading("# " + line) == line
  {
    assert ("# " + line)[2..] == line;
  }

  function Summary(indent: string, text: string): string { indent + "/// <summary>" + text + "</summary>" }

  function Para(indent: string, text: string): string { indent + "/// <para>" + text + "</para>" }

  /** The comment of no paragraph is the fallback, and that of one its text. */
  lemma SummaryWritten(indent: string, ps: seq<seq<string>>, fallback: string)
    requires AreParagraphs(ps) && |ps| <= 1
    ensures DocLines(indent, DocOf(ps), fallback) == [Summary(indent, if ps == [] then fallback else Xml(JoinWords(ps[0])))]
  {
    hide Xml, JoinWords, Paragraphs;
    var doc := DocOf(ps);
    assert doc[0..] == doc;
    ParagraphsRead(doc, 0, ps);
    if |ps| == 1 { OneJoined(ps); }
  }

  /** The comment of more than one has the paragraphs after the first as remarks. */
  lemma RemarksWritten(indent: string, ps: seq<seq<string>>, fallback: string)
    requires AreParagraphs(ps) && |ps| > 1
    ensures var lines := DocLines(indent, DocOf(ps), fallback);
            && |lines| == |ps| + 2 && lines[0] == Summary(indent, Xml(JoinWords(ps[0])))
            && lines[1] == indent + "/// <remarks>" && lines[|ps| + 1] == indent + "/// </remarks>"
            && forall k :: 1 <= k < |ps| ==> lines[k + 1] == Para(indent, Xml(JoinWords(ps[k])))
  {
    hide Xml, JoinWords, Paragraphs, Remarks;
    var doc := DocOf(ps);
    assert doc[0..] == doc;
    ParagraphsRead(doc, 0, ps);
    JoinedAre(ps);
    var paragraphs := JoinedAll(ps);
    var lines := DocLines(indent, doc, fallback);
    var remarks := Remarks(indent, paragraphs[1..]);
    assert lines == [Summary(indent, Xml(paragraphs[0]))] + ([indent + "/// <remarks>"] + remarks + [indent + "/// </remarks>"]);
    forall k | 1 <= k < |ps| ensures lines[k + 1] == Para(indent, Xml(JoinWords(ps[k]))) {
      assert lines[k + 1] == remarks[k - 1];
    }
  }

  lemma {:induction false} JoinedAre(ps: seq<seq<string>>)
    ensures |JoinedAll(ps)| == |ps| && forall k :: 0 <= k < |ps| ==> JoinedAll(ps)[k] == JoinWords(ps[k])
  {
    hide JoinWords;
    if ps != [] { JoinedAre(ps[1..]); }
  }

  lemma OneJoined(ps: seq<seq<string>>)
    requires |ps| == 1
    ensures JoinedAll(ps) == [JoinWords(ps[0])]
  {
    assert ps[1..] == [] && JoinedAll([]) == [];
  }

  // ----- Names -----

  /** The reserved keywords of C#, by their first letters. */
  lemma KeywordsAToD()
    ensures KEYWORDS_A_TO_D == [
      "abstract", "as", "base", "bool", "break", "byte", "case", "catch", "char", "checked", "class", "const",
      "continue", "decimal", "default", "delegate", "do", "double"]
  {
  }

  lemma KeywordsEToI()
    ensures KEYWORDS_E_TO_I == [
      "else", "enum", "event", "explicit", "extern", "false", "finally", "fixed", "float", "for", "foreach",
      "goto", "if", "implicit", "in", "int", "interface", "internal", "is"]
  {
  }

  lemma KeywordsLToR()
    ensures KEYWORDS_L_TO_R == [
      "lock", "long", "namespace", "new", "null", "object", "operator", "out", "override", "params", "private",
      "protected", "public", "readonly", "ref", "return"]
  {
  }

  lemma KeywordsSToW()
    ensures KEYWORDS_S_TO_W == [
      "sbyte", "sealed", "short", "sizeof", "stackalloc", "static", "string", "struct", "switch", "this", "throw",
      "true", "try", "typeof", "uint", "ulong", "unchecked", "unsafe", "ushort", "using", "virtual", "void",
      "volatile", "while"]
  {
  }

  /** A reserved keyword is written with an at sign before it, and any other name as it is. */
  lemma NameWritten(name: string)
    ensures CsName(name) == if name in KEYWORDS_A_TO_D || name in KEYWORDS_E_TO_I || name in KEYWORDS_L_TO_R || name in KEYWORDS_S_TO_W
                            then "@" + name else name
  {
    hide KEYWORDS_A_TO_D, KEYWORDS_E_TO_I, KEYWORDS_L_TO_R, KEYWORDS_S_TO_W;
  }

  // ----- A whole file -----

  lemma NoDoc(indent: string, fallback: string)
    ensures DocLines(indent, [], fallback) == [Summary(indent, fallback)]
  {
  }

  /** An empty line stands between two fields and between two functions. */
  function GapBefore(k: nat): seq<string> { if k == 0 then [] else [""] }

  function FieldDeclared(field: Param, ty: string): string {
    match field.ty
    case Array(_, len) => "    public fixed " + ty + " " + CsName(field.name) + "[" + Decimal(len) + "];"
    case _ => "    public " + ty + " " + CsName(field.name) + ";"
  }

  /** A field without a comment: its summary, and its declaration. */
  lemma FieldWritten(h: Header, item: Struct, k: nat, ty: string)
    requires Acyclic(h) && k < |item.fields| && item.fields[k].doc == [] && CsType(h, item.fields[k].ty, Field) == Ok(ty)
    ensures var field := item.fields[k];
            OneField(h, item, k)
            == Ok(GapBefore(k) + [Summary("    ", "The <c>" + field.name + "</c> field.")] + [FieldDeclared(field, ty)])
  {
    hide CsType, Acyclic, DocLines;
    NoDoc("    ", "The <c>" + item.fields[k].name + "</c> field.");
  }

  /** That the GC transition may be skipped. */
  predicate Suppressing(name: string) {
    name == "zero_abi_version" || name == "zero_req_view" || name == "zero_req_method" || name == "zero_slot_route"
  }

  lemma SuppressingIs(name: string)
    ensures name in SUPPRESS_GC_TRANSITION <==> Suppressing(name)
  {
    var s := SUPPRESS_GC_TRANSITION;
    assert s[0] == "zero_abi_version" && s[1] == "zero_req_view" && s[2] == "zero_req_method" && s[3] == "zero_slot_route";
  }

  function Declared(f: Prototype, result: string, params: seq<string>): string {
    "    public static partial " + result + " " + f.name + "(" + JoinComma(params) + ");"
  }

  /** A function without a comment: its summary, its attributes and its declaration. */
  lemma FunctionWritten(h: Header, f: Prototype, k: nat, result: string, params: seq<string>)
    requires Acyclic(h) && f.doc == [] && CsType(h, f.signature.result, Return) == Ok(result) && ParamTexts(h, f, 0) == Ok(params)
    ensures OneFunction(h, f, k)
         == Ok(GapBefore(k)
               + ([Summary("    ", "The <c>" + f.name + "</c> export of <c>zero.h</c>.")]
                  + ["    [LibraryImport(Library)]"] + if Suppressing(f.name) then ["    [SuppressGCTransition]"] else [])
               + [Declared(f, result, params)])
  {
    hide CsType, Acyclic, DocLines, JoinComma, Suppressing, ParamTexts;
    NoDoc("    ", "The <c>" + f.name + "</c> export of <c>zero.h</c>.");
    SuppressingIs(f.name);
  }

  /** The parameters of a prototype are a type and a name each, in their order. */
  lemma {:induction false} ParamsWritten(h: Header, f: Prototype, k: nat, types: seq<string>)
    requires Acyclic(h) && k <= |f.signature.params| == |types|
    requires forall i :: 0 <= i < |types| ==> CsType(h, f.signature.params[i].ty, Parameter) == Ok(types[i])
    ensures ParamTexts(h, f, k).Ok? && |ParamTexts(h, f, k).value| == |types| - k
    ensures forall i :: k <= i < |types| ==> ParamTexts(h, f, k).value[i - k] == types[i] + " " + CsName(f.signature.params[i].name)
    decreases |types| - k
  {
    hide CsType, Acyclic, CsName;
    if k < |types| {
      ParamsWritten(h, f, k + 1, types);
      ParamStep(h, f, k, types[k]);
      var rest := ParamTexts(h, f, k + 1).value;
      forall i | k <= i < |types|
        ensures ParamTexts(h, f, k).value[i - k] == types[i] + " " + CsName(f.signature.params[i].name)
      {
        if i > k { assert ParamTexts(h, f, k).value[i - k] == rest[i - (k + 1)]; }
      }
    }
  }

  lemma ParamStep(h: Header, f: Prototype, k: nat, ty: string)
    requires Acyclic(h) && k < |f.signature.params| && CsType(h, f.signature.params[k].ty, Parameter) == Ok(ty)
    ensures ParamTexts(h, f, k + 1).Ok?
        ==> ParamTexts(h, f, k) == Ok([ty + " " + CsName(f.signature.params[k].name)] + ParamTexts(h, f, k + 1).value)
  {
    hide CsType, Acyclic, CsName;
  }

  function StructWritten(s: Struct, ty: string): seq<string>
    requires |s.fields| == 1
  {
    ["",
     Summary("", "The <c>" + s.name + "</c> struct of <c>zero.h</c>."),
     "[StructLayout(LayoutKind.Sequential)]",
     "public unsafe struct " + s.name,
     "{",
     Summary("    ", "The <c>" + s.fields[0].name + "</c> field."),
     FieldDeclared(s.fields[0], ty),
     "}"]
  }

  function ClassWritten(f: Prototype, result: string, params: seq<string>): seq<string> {
    ["",
     "public static unsafe partial class NativeMethods",
     "{",
     Summary("    ", "The <c>" + f.name + "</c> export of <c>zero.h</c>."),
     "    [LibraryImport(Library)]",
     Declared(f, result, params),
     "}"]
  }

  /** The file of a struct with one field and of one function, none of them documented. */
  lemma FileWritten(h: Header, s: Struct, f: Prototype, ty: string, result: string, params: seq<string>)
    requires Acyclic(h) && h.structs == [s] && h.functions == [f] && s.doc == [] && |s.fields| == 1 && s.fields[0].doc == []
    requires f.doc == [] && !Suppressing(f.name) && CsType(h, s.fields[0].ty, Field) == Ok(ty)
    requires CsType(h, f.signature.result, Return) == Ok(result) && ParamTexts(h, f, 0) == Ok(params)
    ensures Rendered(h) == Ok(
              ["// <auto-generated>",
               "// Generated from " + "crates/zero-ffi/include/zero.h" + " by `cargo xtask ffi-mirror --write`.",
               "// Do not edit by hand.",
               "// </auto-generated>",
               "",
               "using System.Runtime.InteropServices;",
               "",
               "namespace ZeroServer.Native.Interop;"]
              + (StructWritten(s, ty) + ClassWritten(f, result, params)))
  {
    hide CsType, Acyclic, DocLines, JoinComma, OneField, OneFunction, CsName, StructHead, FileHead, Declared, FieldDeclared;
    hide FunctionLines, StructLines, Suppressing, ParamTexts, Rendered;
    FieldWritten(h, s, 0, ty);
    FunctionWritten(h, f, 0, result, params);
    HeadWritten(s);
    StartWritten();
    OneOfEach(h, s, f);
    assert StructHead(s) + (OneField(h, s, 0).value + ["}"]) == StructWritten(s, ty);
    assert ["", "public static unsafe partial class NativeMethods", "{"] + (OneFunction(h, f, 0).value + ["}"])
        == ClassWritten(f, result, params);
  }

  /** The lines of a file of one struct of one field, and one function. */
  lemma OneOfEach(h: Header, s: Struct, f: Prototype)
    requires Acyclic(h) && h.structs == [s] && h.functions == [f] && |s.fields| == 1
    requires OneField(h, s, 0).Ok? && OneFunction(h, f, 0).Ok?
    ensures Rendered(h) == Ok(FileHead() + ((StructHead(s) + (OneField(h, s, 0).value + ["}"]))
                              + (["", "public static unsafe partial class NativeMethods", "{"] + (OneFunction(h, f, 0).value + ["}"]))))
  {
    hide Acyclic, OneField, OneFunction, StructHead, FileHead;
    assert FieldLines(h, s, 1) == Ok(["}"]);
    assert FunctionLines(h, 1) == Ok(["}"]);
    assert StructLines(h, 1) == Before(ClassHead(), FunctionLines(h, 0));
  }

  lemma HeadWritten(s: Struct)
    requires s.doc == []
    ensures StructHead(s) == ["", Summary("", "The <c>" + s.name + "</c> struct of <c>zero.h</c>."),
                              "[StructLayout(LayoutKind.Sequential)]", "public unsafe struct " + s.name, "{"]
  {
    hide DocLines;
    NoDoc("", "The <c>" + s.name + "</c> struct of <c>zero.h</c>.");
  }

  lemma StartWritten()
    ensures FileHead() == ["// <auto-generated>",
                           "// Generated from " + "crates/zero-ffi/include/zero.h" + " by `cargo xtask ffi-mirror --write`.",
                           "// Do not edit by hand.", "// </auto-generated>", "",
                           "using System.Runtime.InteropServices;", "", "namespace ZeroServer.Native.Interop;"]
  {
  }
}
