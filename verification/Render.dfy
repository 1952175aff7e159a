/** The C# declarations of a C header, as text. */
module Render {
  import opened Wrappers
  import opened Text
  import opened Numbers
  import opened Header

  datatype RenderError =
    | FieldError(struct_: string, name: string, error: TypeError)
    | ResultError(name: string, error: TypeError)
    | ParamError(name: string, param: string, error: TypeError)

  /** The reserved keywords of C#. */
  const CS_KEYWORDS: seq<string> := KEYWORDS_A_TO_D + KEYWORDS_E_TO_I + KEYWORDS_L_TO_R + KEYWORDS_S_TO_W

  const KEYWORDS_A_TO_D: seq<string> :=
    ["abstract", "as", "base", "bool", "break", "byte", "case", "catch", "char", "checked", "class", "const",
     "continue", "decimal", "default", "delegate", "do", "double"]

  const KEYWORDS_E_TO_I: seq<string> :=
    ["else", "enum", "event", "explicit", "extern", "false", "finally", "fixed", "float", "for", "foreach",
     "goto", "if", "implicit", "in", "int", "interface", "internal", "is"]

  const KEYWORDS_L_TO_R: seq<string> :=
    ["lock", "long", "namespace", "new", "null", "object", "operator", "out", "override", "params", "private",
     "protected", "public", "readonly", "ref", "return"]

  const KEYWORDS_S_TO_W: seq<string> :=
    ["sbyte", "sealed", "short", "sizeof", "stackalloc", "static", "string", "struct", "switch", "this",
     "throw", "true", "try", "typeof", "uint", "ulong", "unchecked", "unsafe", "ushort", "using", "virtual",
     "void", "volatile", "while"]

  predicate IsKeyword(name: string) { name in CS_KEYWORDS }

  /** A C identifier as a C# name. */
  function CsName(name: string): string { if IsKeyword(name) then "@" + name else name }

  // ----- Documentation comments -----

  function XmlChar(c: char): string {
    if c == '&' then "&amp;" else if c == '<' then "&lt;" else if c == '>' then "&gt;" else [c]
  }

  /** Text escaped for XML. */
  function Xml(text: string): string {
    if text == "" then "" else XmlChar(text[0]) + Xml(text[1..])
  }

  /** A line without the `# `s it starts with. */
  function WithoutHeading(line: string): string
    decreases |line|
  {
    if StartsWith(line, "# ") then WithoutHeading(line[2..]) else line
  }

  function Flushed(paragraph: seq<string>): seq<string> { if paragraph == [] then [] else [JoinWords(paragraph)] }

  /** The paragraphs of the lines from `k` on, of which `paragraph` was begun. */
  function Paragraphs(doc: seq<string>, k: nat, paragraph: seq<string>): seq<string>
    requires k <= |doc|
    decreases |doc| - k
  {
    if k == |doc| then Flushed(paragraph)
    else if Trim(doc[k]) == "" then Flushed(paragraph) + Paragraphs(doc, k + 1, [])
    else Paragraphs(doc, k + 1, paragraph + [WithoutHeading(Trim(doc[k]))])
  }

  function Remarks(indent: string, paragraphs: seq<string>): (r: seq<string>)
    ensures |r| == |paragraphs|
    ensures forall k :: 0 <= k < |r| ==> r[k] == indent + "/// <para>" + Xml(paragraphs[k]) + "</para>"
  {
    seq(|paragraphs|, k requires 0 <= k < |paragraphs| => indent + "/// <para>" + Xml(paragraphs[k]) + "</para>")
  }

  /** The lines of a documentation comment. */
  function DocLines(indent: string, doc: seq<string>, fallback: string): seq<string> {
    var paragraphs := Paragraphs(doc, 0, []);
    var summary := if paragraphs == [] then fallback else Xml(paragraphs[0]);
    [indent + "/// <summary>" + summary + "</summary>"]
    + if |paragraphs| <= 1 then []
      else [indent + "/// <remarks>"] + Remarks(indent, paragraphs[1..]) + [indent + "/// </remarks>"]
  }

  /** Lines with a line feed after each. */
  function LinesText(lines: seq<string>): string {
    if lines == [] then "" else lines[0] + ['\n'] + LinesText(lines[1..])
  }

  lemma {:induction false} LinesTextAppend(a: seq<string>, b: seq<string>)
    ensures LinesText(a + b) == LinesText(a) + LinesText(b)
  {
    if a == [] {
      assert a + b == b;
    } else {
      assert (a + b)[1..] == a[1..] + b;
      LinesTextAppend(a[1..], b);
    }
  }

  lemma LineText(line: string)
    ensures LinesText([line]) == line + ['\n']
  {
    assert LinesText([line]) == line + ['\n'] + LinesText([line][1..]);
  }

  // ----- Declarations -----

  /** Some lines, and then the lines of what follows. */
  function Before(lines: seq<string>, more: Result<seq<string>, RenderError>): Result<seq<string>, RenderError> {
    match more case Ok(rest) => Ok(lines + rest) case Err(e) => Err(e)
  }

  /** The lines of one item, and then those of what follows. */
  function Both(first: Result<seq<string>, RenderError>, more: Result<seq<string>, RenderError>)
    : Result<seq<string>, RenderError>
  {
    match first case Ok(lines) => Before(lines, more) case Err(e) => Err(e)
  }

  /** An empty line between two items. */
  function Gap(k: nat): seq<string> { if k > 0 then [""] else [] }

  function FieldLine(field: Param, ty: string): string {
    if field.ty.Array? then "    public fixed " + ty + " " + CsName(field.name) + "[" + Decimal(field.ty.len) + "];"
    else "    public " + ty + " " + CsName(field.name) + ";"
  }

  function FieldDoc(field: Param): seq<string> {
    DocLines("    ", field.doc, "The <c>" + field.name + "</c> field.")
  }

  /** The lines of the fields of a struct from `k` on, and of its end. */
  function FieldLines(h: Header, item: Struct, k: nat): Result<seq<string>, RenderError>
    requires Acyclic(h) && k <= |item.fields|
    decreases |item.fields| - k
  {
    if k == |item.fields| then Ok(["}"])
    else Both(OneField(h, item, k), FieldLines(h, item, k + 1))
  }

  function OneField(h: Header, item: Struct, k: nat): Result<seq<string>, RenderError>
    requires Acyclic(h) && k < |item.fields|
  {
    var field := item.fields[k];
    match CsType(h, field.ty, Field)
    case Err(e) => Err(FieldError(item.name, field.name, e))
    case Ok(ty) => Ok(Gap(k) + FieldDoc(field) + [FieldLine(field, ty)])
  }

  function OneStruct(h: Header, item: Struct): Result<seq<string>, RenderError>
    requires Acyclic(h)
  {
    Before(StructHead(item), FieldLines(h, item, 0))
  }

  function StructHead(item: Struct): seq<string> {
    [""] + DocLines("", item.doc, "The <c>" + item.name + "</c> struct of <c>zero.h</c>.")
    + ["[StructLayout(LayoutKind.Sequential)]", "public unsafe struct " + item.name, "{"]
  }

  /** The parameters of a prototype, from `k` on. */
  function ParamTexts(h: Header, f: Prototype, k: nat): (r: Result<seq<string>, RenderError>)
    requires Acyclic(h) && k <= |f.signature.params|
    ensures r.Ok? ==> |r.value| == |f.signature.params| - k
    decreases |f.signature.params| - k
  {
    if k == |f.signature.params| then Ok([])
    else
      var param := f.signature.params[k];
      match CsType(h, param.ty, Parameter)
      case Err(e) => Err(ParamError(f.name, param.name, e))
      case Ok(ty) => Before([ty + " " + CsName(param.name)], ParamTexts(h, f, k + 1))
  }

  function FunctionHead(f: Prototype): seq<string> {
    DocLines("    ", f.doc, "The <c>" + f.name + "</c> export of <c>zero.h</c>.")
    + ["    [LibraryImport(Library)]"]
    + if f.name in SUPPRESS_GC_TRANSITION then ["    [SuppressGCTransition]"] else []
  }

  function FunctionLine(f: Prototype, result: string, params: seq<string>): string {
    "    public static partial " + result + " " + f.name + "(" + JoinComma(params) + ");"
  }

  /** The lines of the functions from `k` on, and of the end of their class. */
  function FunctionLines(h: Header, k: nat): Result<seq<string>, RenderError>
    requires Acyclic(h) && k <= |h.functions|
    decreases |h.functions| - k
  {
    if k == |h.functions| then Ok(["}"])
    else Both(OneFunction(h, h.functions[k], k), FunctionLines(h, k + 1))
  }

  function OneFunction(h: Header, f: Prototype, k: nat): Result<seq<string>, RenderError>
    requires Acyclic(h)
  {
    match CsType(h, f.signature.result, Return)
    case Err(e) => Err(ResultError(f.name, e))
    case Ok(result) =>
      match ParamTexts(h, f, 0)
      case Err(e) => Err(e)
      case Ok(params) => Ok(Gap(k) + FunctionHead(f) + [FunctionLine(f, result, params)])
  }

  function ClassHead(): seq<string> { ["", "public static unsafe partial class NativeMethods", "{"] }

  /** The lines of the structs from `k` on, and of the functions after them. */
  function StructLines(h: Header, k: nat): Result<seq<string>, RenderError>
    requires Acyclic(h) && k <= |h.structs|
    decreases |h.structs| - k
  {
    if k == |h.structs| then Before(ClassHead(), FunctionLines(h, 0))
    else Both(OneStruct(h, h.structs[k]), StructLines(h, k + 1))
  }

  const NOTICE: seq<string> :=
    ["// <auto-generated>",
     "// Generated from " + "crates/zero-ffi/include/zero.h" + " by `cargo xtask ffi-mirror --write`.",
     "// Do not edit by hand.",
     "// </auto-generated>"]

  function FileHead(): seq<string> {
    NOTICE + ["", "using System.Runtime.InteropServices;", "", "namespace ZeroServer.Native.Interop;"]
  }

  /** The lines of the declarations of a header. */
  function Rendered(h: Header): Result<seq<string>, RenderError>
    requires Acyclic(h)
  {
    Before(FileHead(), StructLines(h, 0))
  }

  // ----- The code that writes the text -----

  function Texted(lines: Result<seq<string>, RenderError>): Result<string, RenderError> {
    match lines case Ok(ls) => Ok(LinesText(ls)) case Err(e) => Err(e)
  }

  /** What was written, and then what follows. */
  function Wrote(out: string, more: Result<string, RenderError>): Result<string, RenderError> {
    match more case Ok(rest) => Ok(out + rest) case Err(e) => Err(e)
  }

  lemma WroteBefore(out: string, lines: seq<string>, more: Result<seq<string>, RenderError>)
    ensures Wrote(out, Texted(Before(lines, more))) == Wrote(out + LinesText(lines), Texted(more))
  {
    if more.Ok? {
      LinesTextAppend(lines, more.value);
      assert out + (LinesText(lines) + LinesText(more.value)) == out + LinesText(lines) + LinesText(more.value);
    }
  }

  lemma WroteNothing(more: Result<string, RenderError>)
    ensures Wrote("", more) == more
  {
    if more.Ok? { assert "" + more.value == more.value; }
  }

  /** More lines were written. */
  lemma WroteLines(before: string, lines: seq<string>, more: seq<string>)
    ensures before + LinesText(lines + more) == before + LinesText(lines) + LinesText(more)
  {
    LinesTextAppend(lines, more);
  }

  /** One more line was written. */
  lemma WroteLine(before: string, lines: seq<string>, line: string)
    ensures before + LinesText(lines + [line]) == before + LinesText(lines) + (line + ['\n'])
  {
    LinesTextAppend(lines, [line]);
    LineText(line);
  }

  method ParagraphsOf(doc: seq<string>) returns (paragraphs: seq<string>)
    ensures paragraphs == Paragraphs(doc, 0, [])
  {
    hide WithoutHeading, Trim, JoinWords;
    paragraphs := [];
    var current: seq<string> := [];
    for k := 0 to |doc|
      invariant Paragraphs(doc, 0, []) == paragraphs + Paragraphs(doc, k, current)
    {
      var line := Trim(doc[k]);
      if line == "" {
        if current != [] {
          paragraphs := paragraphs + [JoinWords(current)];
          current := [];
        }
      } else {
        current := current + [WithoutHeading(line)];
      }
    }
    if current != [] { paragraphs := paragraphs + [JoinWords(current)]; }
  }

  method XmlDoc(before: string, indent: string, doc: seq<string>, fallback: string) returns (out: string)
    ensures out == before + LinesText(DocLines(indent, doc, fallback))
  {
    hide Xml, LinesText, DocLines, Paragraphs, Remarks;
    var paragraphs := ParagraphsOf(doc);
    DocIs(indent, doc, fallback);
    ghost var lines: seq<string> := [];
    NoLines(before);
    var summary := indent + "/// <summary>" + (if paragraphs == [] then fallback else Xml(paragraphs[0])) + "</summary>";
    WroteLine(before, lines, summary);
    out, lines := before + (summary + ['\n']), [] + [summary];
    assert lines == [summary];
    if |paragraphs| > 1 {
      WroteLine(before, lines, indent + "/// <remarks>");
      out, lines := out + (indent + "/// <remarks>" + ['\n']), lines + [indent + "/// <remarks>"];
      out, lines := WriteRemarks(before, lines, indent, paragraphs[1..], out);
      WroteLine(before, lines, indent + "/// </remarks>");
      out := out + (indent + "/// </remarks>" + ['\n']);
    }
  }

  method WriteRemarks(ghost before: string, ghost head: seq<string>, indent: string, remarks: seq<string>, text: string)
    returns (out: string, ghost lines: seq<string>)
    requires text == before + LinesText(head)
    ensures lines == head + Remarks(indent, remarks) && out == before + LinesText(lines)
  {
    hide Xml, LinesText;
    out, lines := text, head;
    for k := 0 to |remarks|
      invariant lines == head + Remarks(indent, remarks)[..k]
      invariant out == before + LinesText(lines)
    {
      var line := indent + "/// <para>" + Xml(remarks[k]) + "</para>";
      WroteLine(before, lines, line);
      out, lines := out + (line + ['\n']), lines + [line];
    }
  }

  lemma NoLines(before: string)
    ensures before + LinesText([]) == before
  {
  }

  lemma DocIs(indent: string, doc: seq<string>, fallback: string)
    ensures var paragraphs := Paragraphs(doc, 0, []);
            var summary := indent + "/// <summary>" + (if paragraphs == [] then fallback else Xml(paragraphs[0])) + "</summary>";
            DocLines(indent, doc, fallback)
            == if |paragraphs| <= 1 then [summary]
               else [summary] + [indent + "/// <remarks>"] + Remarks(indent, paragraphs[1..]) + [indent + "/// </remarks>"]
  {
  }

  lemma WroteBoth(out: string, first: Result<seq<string>, RenderError>, more: Result<seq<string>, RenderError>)
    ensures Wrote(out, Texted(Both(first, more)))
         == if first.Err? then Err(first.error) else Wrote(out + LinesText(first.value), Texted(more))
  {
    if first.Ok? { WroteBefore(out, first.value, more); }
  }

  method Render(h: Header) returns (r: Result<string, RenderError>)
    requires Acyclic(h)
    ensures r == Texted(Rendered(h))
  {
    hide LinesText, Texted, Wrote, Both, Before, OneStruct, OneFunction, Acyclic, FileHead, ClassHead;
    WroteNothing(Texted(Rendered(h)));
    WroteBefore("", FileHead(), StructLines(h, 0));
    var out := "" + LinesText(FileHead());
    for k := 0 to |h.structs|
      invariant Texted(Rendered(h)) == Wrote(out, Texted(StructLines(h, k)))
    {
      WroteBoth(out, OneStruct(h, h.structs[k]), StructLines(h, k + 1));
      r := RenderStruct(h, h.structs[k], out);
      if r.Err? { return; }
      out := r.value;
    }
    WroteBefore(out, ClassHead(), FunctionLines(h, 0));
    out := out + LinesText(ClassHead());
    for k := 0 to |h.functions|
      invariant Texted(Rendered(h)) == Wrote(out, Texted(FunctionLines(h, k)))
    {
      WroteBoth(out, OneFunction(h, h.functions[k], k), FunctionLines(h, k + 1));
      r := RenderFunction(h, h.functions[k], k, out);
      if r.Err? { return; }
      out := r.value;
    }
    Closed(out);
    return Ok(out + "}\n");
  }

  method RenderStruct(h: Header, item: Struct, before: string) returns (r: Result<string, RenderError>)
    requires Acyclic(h)
    ensures var lines := OneStruct(h, item);
            r == if lines.Err? then Err(lines.error) else Ok(before + LinesText(lines.value))
  {
    hide LinesText, Texted, Wrote, Both, OneField, DocLines, Acyclic;
    StructHeadIs(item);
    var out := before + LinesText([""]);
    ghost var doc := DocLines("", item.doc, "The <c>" + item.name + "</c> struct of <c>zero.h</c>.");
    out := XmlDoc(out, "", item.doc, "The <c>" + item.name + "</c> struct of <c>zero.h</c>.");
    out := out + LinesText(["[StructLayout(LayoutKind.Sequential)]", "public unsafe struct " + item.name, "{"]);
    WroteLines(before, [""], doc);
    WroteLines(before, [""] + doc, ["[StructLayout(LayoutKind.Sequential)]", "public unsafe struct " + item.name, "{"]);
    assert out == before + LinesText(StructHead(item));
    WroteBefore(before, StructHead(item), FieldLines(h, item, 0));
    for k := 0 to |item.fields|
      invariant Wrote(before, Texted(OneStruct(h, item))) == Wrote(out, Texted(FieldLines(h, item, k)))
    {
      WroteBoth(out, OneField(h, item, k), FieldLines(h, item, k + 1));
      r := RenderField(h, item, k, out);
      if r.Err? {
        FailsWith(before, OneStruct(h, item), r.error);
        return;
      }
      out := r.value;
    }
    Closed(out);
    WroteAll(before, OneStruct(h, item), out + "}\n");
    return Ok(out + "}\n");
  }

  method RenderField(h: Header, item: Struct, k: nat, before: string) returns (r: Result<string, RenderError>)
    requires Acyclic(h) && k < |item.fields|
    ensures var lines := OneField(h, item, k);
            r == if lines.Err? then Err(lines.error) else Ok(before + LinesText(lines.value))
  {
    hide LinesText, DocLines, CsType, FieldLine, Acyclic;
    var field := item.fields[k];
    var out := before + LinesText(Gap(k));
    out := XmlDoc(out, "    ", field.doc, "The <c>" + field.name + "</c> field.");
    var ty := CsType(h, field.ty, Field);
    if ty.Err? { return Err(FieldError(item.name, field.name, ty.error)); }
    out := out + (FieldLine(field, ty.value) + ['\n']);
    WroteLines(before, Gap(k), FieldDoc(field));
    WroteLine(before, Gap(k) + FieldDoc(field), FieldLine(field, ty.value));
    return Ok(out);
  }

  method RenderFunction(h: Header, f: Prototype, k: nat, before: string) returns (r: Result<string, RenderError>)
    requires Acyclic(h)
    ensures var lines := OneFunction(h, f, k);
            r == if lines.Err? then Err(lines.error) else Ok(before + LinesText(lines.value))
  {
    hide LinesText, DocLines, CsType, FunctionLine, Acyclic, ParamTexts;
    var out := before + LinesText(Gap(k));
    ghost var doc := DocLines("    ", f.doc, "The <c>" + f.name + "</c> export of <c>zero.h</c>.");
    out := XmlDoc(out, "    ", f.doc, "The <c>" + f.name + "</c> export of <c>zero.h</c>.");
    WroteLines(before, Gap(k), doc);
    ghost var lines := Gap(k) + doc;
    WroteLine(before, lines, "    [LibraryImport(Library)]");
    out, lines := out + ("    [LibraryImport(Library)]" + ['\n']), lines + ["    [LibraryImport(Library)]"];
    if f.name in SUPPRESS_GC_TRANSITION {
      WroteLine(before, lines, "    [SuppressGCTransition]");
      out, lines := out + ("    [SuppressGCTransition]" + ['\n']), lines + ["    [SuppressGCTransition]"];
    }
    HeadIs(f, k, lines);
    var result := CsType(h, f.signature.result, Return);
    if result.Err? { return Err(ResultError(f.name, result.error)); }
    var params := RenderParams(h, f);
    if params.Err? { return Err(params.error); }
    WroteLine(before, lines, FunctionLine(f, result.value, params.value));
    out := out + (FunctionLine(f, result.value, params.value) + ['\n']);
    return Ok(out);
  }

  lemma HeadIs(f: Prototype, k: nat, lines: seq<string>)
    requires lines == Gap(k) + DocLines("    ", f.doc, "The <c>" + f.name + "</c> export of <c>zero.h</c>.")
      + ["    [LibraryImport(Library)]"]
      + if f.name in SUPPRESS_GC_TRANSITION then ["    [SuppressGCTransition]"] else []
    ensures lines == Gap(k) + FunctionHead(f)
  {
    hide DocLines;
  }

  method RenderParams(h: Header, f: Prototype) returns (r: Result<seq<string>, RenderError>)
    requires Acyclic(h)
    ensures r == ParamTexts(h, f, 0)
  {
    hide CsType, Acyclic;
    var params: seq<string> := [];
    BeforeNothing(ParamTexts(h, f, 0));
    for n := 0 to |f.signature.params|
      invariant ParamTexts(h, f, 0) == Before(params, ParamTexts(h, f, n))
    {
      var param := f.signature.params[n];
      var ty := CsType(h, param.ty, Parameter);
      if ty.Err? { return Err(ParamError(f.name, param.name, ty.error)); }
      BeforeTwice(params, [ty.value + " " + CsName(param.name)], ParamTexts(h, f, n + 1));
      params := params + [ty.value + " " + CsName(param.name)];
    }
    assert params + [] == params;
    return Ok(params);
  }

  lemma BeforeNothing(more: Result<seq<string>, RenderError>)
    ensures Before([], more) == more
  {
    if more.Ok? { assert [] + more.value == more.value; }
  }

  lemma BeforeTwice(a: seq<string>, b: seq<string>, more: Result<seq<string>, RenderError>)
    ensures Before(a, Before(b, more)) == Before(a + b, more)
  {
    if more.Ok? { assert a + (b + more.value) == a + b + more.value; }
  }

  lemma StructHeadIs(item: Struct)
    ensures LinesText([""]) == ['\n']
  {
    LineText("");
    assert "" + ['\n'] == ['\n'];
  }

  lemma FailsWith(before: string, lines: Result<seq<string>, RenderError>, e: RenderError)
    requires Wrote(before, Texted(lines)) == Err(e)
    ensures lines == Err(e)
  {
  }

  lemma WroteAll(before: string, lines: Result<seq<string>, RenderError>, out: string)
    requires Wrote(before, Texted(lines)) == Ok(out)
    ensures lines.Ok? && out == before + LinesText(lines.value)
  {
  }

  lemma Closed(out: string)
    ensures Wrote(out, Texted(Ok(["}"]))) == Ok(out + "}\n")
  {
    LineText("}");
    assert "}" + ['\n'] == "}\n";
  }
}
