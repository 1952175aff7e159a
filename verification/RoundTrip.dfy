/** The rendered declarations of a header are read back to declarations that agree with it. */
module RoundTrip {
  import opened Wrappers
  import opened Text
  import opened Words
  import opened Header
  import opened Render
  import opened SurfaceReader
  import opened RenderedLines
  import opened RenderedGood
  import opened TypeTexts
  import opened ImportsBack
  import opened HeadsBack
  import opened StructsBack
  import opened FunctionsBack
  import S = Surface
  import Check = SurfaceCheck

  /** What is asked of a header: its names are identifiers, none of a type is one of the reader's
      modifiers, none of a struct or of a function stands twice, and no line of its documentation
      holds a line break. */
  ghost predicate HeaderOk(h: Header) {
    && OrdinaryNames(h)
    && (forall k :: 0 <= k < |h.structs| ==> StructOk(h.structs[k]))
    && (forall k :: 0 <= k < |h.functions| ==> PrototypeOk(h.functions[k]))
    && (forall i, j :: 0 <= i < j < |h.structs| ==> h.structs[i].name != h.structs[j].name)
    && (forall i, j :: 0 <= i < j < |h.functions| ==> h.functions[i].name != h.functions[j].name)
  }

  // ----- The heads of the file and of the class -----

  lemma NoticeOneLine()
    ensures forall k :: 0 <= k < |NOTICE| ==> OneLine(NOTICE[k]) && StartsWith(NOTICE[k], "//")
  {
    hide OneLine, StartsWith;
    NoticeFirst();
    NoticeSecond();
    assert NOTICE[0] == "// <auto-generated>" && NOTICE[2] == "// Do not edit by hand." && NOTICE[3] == "// </auto-generated>";
  }

  lemma NoticeFirst()
    ensures OneLine("// <auto-generated>") && StartsWith("// <auto-generated>", "//")
    ensures OneLine("// Do not edit by hand.") && StartsWith("// Do not edit by hand.", "//")
    ensures OneLine("// </auto-generated>") && StartsWith("// </auto-generated>", "//")
  {
  }

  lemma NoticeSecond()
    ensures OneLine(NOTICE[1]) && StartsWith(NOTICE[1], "//")
  {
    NoticeParts();
    hide OneLine;
    var path, command := "crates/zero-ffi/include/zero.h", " by `cargo xtask ffi-mirror --write`.";
    OneAppend("// Generated from ", path);
    OneAppend("// Generated from " + path, command);
    StartsLonger("// Generated from ", path + command);
    assert NOTICE[1] == "// Generated from " + (path + command);
  }

  lemma NoticeParts()
    ensures OneLine("// Generated from ") && StartsWith("// Generated from ", "//")
    ensures OneLine("crates/zero-ffi/include/zero.h") && OneLine(" by `cargo xtask ffi-mirror --write`.")
  {
  }

  lemma NoticeUnseen()
    ensures Unseen(NOTICE + [""])
  {
    hide OneLine, StartsWith, CommentLine, GoodLine, White, BlankLine;
    NoticeOneLine();
    EmptyGood();
    forall k | 0 <= k < |NOTICE| ensures GoodLine(NOTICE[k]) && White(BlankLine(NOTICE[k])) {
      SlashesComment("", NOTICE[k]);
      assert "" + NOTICE[k] == NOTICE[k];
      CommentGood(NOTICE[k]);
    }
    UnseenAppend(NOTICE, [""]);
  }

  const USING: string := "using System.Runtime.InteropServices"

  const NAMESPACE: string := "namespace ZeroServer.Native.Interop"

  lemma FileHeadIs()
    ensures FileHead() == (NOTICE + [""]) + ([USING + [';']] + ([""] + [NAMESPACE + [';']]))
  {
    UsingText();
  }

  lemma UsingText()
    ensures USING + [';'] == "using System.Runtime.InteropServices;" && NAMESPACE + [';'] == "namespace ZeroServer.Native.Interop;"
  {
  }

  lemma UsingCalm()
    ensures Calm(USING) && Calm(NAMESPACE)
  {
    UsingSpelled();
    SpelledCalm(USING);
    SpelledCalm(NAMESPACE);
  }

  lemma UsingSpelled()
    ensures SpelledOut(USING) && SpelledOut(NAMESPACE)
  {
  }

  /** At the top of a file a `;` ends nothing that is declared. */
  lemma TopEnds(file: string, segment: string, out: S.Declarations)
    ensures Ended(file, ';', segment, segment, [], out) == Ok(([], out))
  {
    hide Opened, ImportOf, FieldOf, EnumMembersOf;
  }

  lemma FileHeadStep(file: string, rest: seq<string>, out: S.Declarations)
    ensures Good(FileHead())
    ensures ReadLines(file, BlankLines(FileHead()) + rest, "", [], out) == ReadLines(file, rest, "\n", [], out)
  {
    hide ReadLines, GoodLine, White, BlankLine, Neat, CodeLine, Calm, Ended, FileHead;
    NoticeUnseen();
    FileHeadIs();
    UsingCalm();
    CalmNeat(USING);
    CalmNeat(NAMESPACE);
    EmptyGood();
    var lead, using, last := NOTICE + [""], [USING + [';']], [NAMESPACE + [';']];
    BlankAppend(lead, using + ([""] + last));
    BlankAppend(using, [""] + last);
    BlankAppend([""], last);
    var end := BlankLines(last) + rest;
    assert BlankLines(FileHead()) + rest == BlankLines(lead) + (BlankLines(using) + (BlankLines([""]) + end));
    NoWhite();
    var after := UnseenStep(file, lead, BlankLines(using) + (BlankLines([""]) + end), "", [], out);
    CodeEnds(file, USING, ';', BlankLines([""]) + end, after, [], out);
    TopEnds(file, after + USING, out);
    var gap := UnseenStep(file, [""], end, "\n", [], out);
    CodeEnds(file, NAMESPACE, ';', rest, gap, [], out);
    TopEnds(file, gap + NAMESPACE, out);
    UnseenGood(lead);
    UnseenGood([""]);
  }

  lemma ClassHeadStep(file: string, rest: seq<string>, pending: string, out: S.Declarations)
    requires White(pending)
    ensures Good(ClassHead())
    ensures ReadLines(file, BlankLines(ClassHead()) + rest, pending, [], out) == ReadLines(file, rest, "\n", [Type(None)], out)
  {
    hide ReadLines, GoodLine, White, BlankLine, Neat, CodeLine, Calm, Opened, HeadText, AllWordChars;
    var head := "public static unsafe partial class NativeMethods";
    EmptyGood();
    ClassHeadText();
    MethodsName();
    HeadNeat(CLASS_FRONT, "class", "NativeMethods");
    IndentCalm();
    CalmNeat("");
    assert ClassHead() == [""] + ([head] + ["{"]);
    BlankAppend([""], [head] + ["{"]);
    BlankAppend([head], ["{"]);
    var last := BlankLines(["{"]) + rest;
    assert BlankLines(ClassHead()) + rest == BlankLines([""]) + (BlankLines([head]) + last);
    var after := UnseenStep(file, [""], BlankLines([head]) + last, pending, [], out);
    CodeStep(file, head, last, after, [], out);
    assert "" + ['{'] == "{";
    CodeEnds(file, "", '{', rest, after + head + "\n", [], out);
    assert after + head + "\n" + "" == after + head + "\n";
    ClassOpened(file, after, out);
    assert [] + [Type(None)] == [Type(None)];
    UnseenGood([""]);
  }

  // ----- The whole file -----

  function StructsFrom(file: string, h: Header, k: nat): (r: seq<S.LayoutStruct>)
    requires Acyclic(h) && k <= |h.structs|
    ensures |r| == |h.structs| - k
    ensures forall i :: 0 <= i < |r| ==> r[i] == MirrorOf(file, h, h.structs[k + i])
    decreases |h.structs| - k
  {
    if k == |h.structs| then [] else [MirrorOf(file, h, h.structs[k])] + StructsFrom(file, h, k + 1)
  }

  lemma StructLinesStep(h: Header, k: nat)
    requires Acyclic(h) && k <= |h.structs| && StructLines(h, k).Ok?
    ensures k < |h.structs| ==>
              && OneStruct(h, h.structs[k]).Ok? && StructLines(h, k + 1).Ok?
              && StructLines(h, k).value == OneStruct(h, h.structs[k]).value + StructLines(h, k + 1).value
    ensures k == |h.structs| ==> FunctionLines(h, 0).Ok? && StructLines(h, k).value == ClassHead() + FunctionLines(h, 0).value
  {
    hide OneStruct, FunctionLines, ClassHead, Acyclic;
  }

  /** What the reader makes of a header's structs from the `k`th on, and of its functions. */
  function Mirrored(file: string, h: Header, k: nat, out: S.Declarations): S.Declarations
    requires Acyclic(h) && k <= |h.structs|
  {
    out.(structs := out.structs + StructsFrom(file, h, k), imports := out.imports + ImportsFrom(file, h, 0))
  }

  lemma {:induction false} StructsStep(file: string, h: Header, k: nat, pending: string, out: S.Declarations)
    requires Acyclic(h) && HeaderOk(h) && k <= |h.structs| && StructLines(h, k).Ok? && White(pending)
    ensures Good(StructLines(h, k).value)
    ensures ReadLines(file, BlankLines(StructLines(h, k).value), pending, [], out) == Ok(Mirrored(file, h, k, out))
    decreases |h.structs| - k
  {
    hide ReadLines, White, BlankLine, GoodLine, Acyclic, OrdinaryNames, OneStruct, StructLines, FunctionLines, StructOk;
    hide PrototypeOk, MirrorOf, ImportFor, ClassHead;
    StructLinesStep(h, k);
    if k == |h.structs| {
      var head, functions := ClassHead(), FunctionLines(h, 0).value;
      BlankAppend(head, functions);
      ClassHeadStep(file, BlankLines(functions), pending, out);
      NoWhite();
      assert BlankLines(functions) + [] == BlankLines(functions);
      FunctionsStep(file, h, 0, [], "\n", out);
      NothingRead(file, "\n", out.(imports := out.imports + ImportsFrom(file, h, 0)));
      GoodAppend(head, functions);
      assert out.structs + [] == out.structs;
    } else {
      var lines, more := OneStruct(h, h.structs[k]).value, StructLines(h, k + 1).value;
      var one := MirrorOf(file, h, h.structs[k]);
      BlankAppend(lines, more);
      StructStep(file, h, h.structs[k], BlankLines(more), pending, out);
      NoWhite();
      StructsStep(file, h, k + 1, "\n", out.(structs := out.structs + [one]));
      GoodAppend(lines, more);
      assert out.structs + [one] + StructsFrom(file, h, k + 1) == out.structs + ([one] + StructsFrom(file, h, k + 1));
    }
  }

  lemma NothingRead(file: string, pending: string, out: S.Declarations)
    ensures ReadLines(file, [], pending, [], out) == Ok(out)
  {
  }

  /** What is read of the rendered declarations of a header: its structs and an import of each of
      its functions, with the types they map to. */
  function MirrorRead(file: string, h: Header): S.Declarations
    requires Acyclic(h)
  {
    S.Declarations(ImportsFrom(file, h, 0), StructsFrom(file, h, 0), [])
  }

  lemma RenderedIsRead(file: string, h: Header, text: string)
    requires Acyclic(h) && HeaderOk(h) && Texted(Rendered(h)) == Ok(text)
    ensures Read(file, text) == Ok(MirrorRead(file, h))
  {
    hide Read, ReadLines, White, BlankLine, GoodLine, Acyclic, HeaderOk, StructLines, StructsFrom, ImportsFrom, FileHead, LinesText;
    var head, lines, none := FileHead(), StructLines(h, 0).value, S.Declarations([], [], []);
    BlankAppend(head, lines);
    FileHeadStep(file, BlankLines(lines), none);
    NoWhite();
    StructsStep(file, h, 0, "\n", none);
    GoodAppend(head, lines);
    GoodRead(file, head + lines);
    assert [] + StructsFrom(file, h, 0) == StructsFrom(file, h, 0) && [] + ImportsFrom(file, h, 0) == ImportsFrom(file, h, 0);
  }

  lemma GoodRead(file: string, lines: seq<string>)
    requires Good(lines)
    ensures Read(file, LinesText(lines)) == ReadLines(file, BlankLines(lines), "", [], S.Declarations([], [], []))
  {
    hide Read, ReadLines, BlankLine, LinesText, RenderedLine, NeatLine;
    RenderedRead(file, lines);
  }

  // ----- The agreement -----

  lemma TypeReads(h: Header, ty: CType, position: Position)
    requires Acyclic(h) && CsType(h, ty, position).Ok?
    ensures Check.TypeAgrees(h, ty, position, TypeOf(h, ty, position))
  {
    hide CsType, Acyclic;
  }

  lemma {:induction false} FieldsTyped(h: Header, item: Struct, k: nat, i: nat)
    requires Acyclic(h) && k <= i < |item.fields| && FieldLines(h, item, k).Ok?
    ensures CsType(h, item.fields[i].ty, Field).Ok?
    decreases i - k
  {
    hide CsType, Acyclic, FieldLines;
    FieldLinesStep(h, item, k);
    if k < i { FieldsTyped(h, item, k + 1, i); }
  }

  lemma FieldsAgree(h: Header, item: Struct)
    requires Acyclic(h) && FieldLines(h, item, 0).Ok?
    ensures var slots := SlotsIn(h, item, 0);
            forall i :: 0 <= i < |slots| ==> Check.FieldAgrees(h, item.fields[i], slots[i])
  {
    hide CsType, Acyclic, Check.TypeAgrees, TypeOf, SlotsIn, FieldLines;
    var slots := SlotsIn(h, item, 0);
    forall i | 0 <= i < |slots| ensures Check.FieldAgrees(h, item.fields[i], slots[i]) {
      FieldsTyped(h, item, 0, i);
      TypeReads(h, item.fields[i].ty, Field);
      assert slots[i] == SlotIn(item.fields[0 + i], TypeOf(h, item.fields[0 + i].ty, Field));
    }
  }

  lemma {:induction false} ParamsTyped(h: Header, f: Prototype, k: nat, i: nat)
    requires Acyclic(h) && k <= i < |f.signature.params| && ParamTexts(h, f, k).Ok?
    ensures CsType(h, f.signature.params[i].ty, Parameter).Ok?
    decreases i - k
  {
    hide CsType, Acyclic;
    if k < i { ParamsTyped(h, f, k + 1, i); }
  }

  lemma ParamsAgree(h: Header, f: Prototype)
    requires Acyclic(h) && ParamTexts(h, f, 0).Ok?
    ensures var slots := ParamSlots(h, f, 0);
            forall i :: 0 <= i < |slots| ==> Check.TypeAgrees(h, f.signature.params[i].ty, Parameter, slots[i].ty)
  {
    hide CsType, Acyclic, Check.TypeAgrees, TypeOf, ParamSlots, ParamTexts;
    var slots := ParamSlots(h, f, 0);
    forall i | 0 <= i < |slots| ensures Check.TypeAgrees(h, f.signature.params[i].ty, Parameter, slots[i].ty) {
      ParamsTyped(h, f, 0, i);
      TypeReads(h, f.signature.params[i].ty, Parameter);
      assert slots[i] == SlotFor(h, f.signature.params[0 + i]);
    }
  }

  lemma FunctionAgrees(file: string, h: Header, f: Prototype, k: nat)
    requires Acyclic(h) && OneFunction(h, f, k).Ok?
    ensures Check.ImportAgrees(h, f, ImportFor(file, h, f)) && ImportFor(file, h, f).symbol == f.name
    ensures Check.Suppresses(ImportFor(file, h, f)) ==> Check.MaySuppress(f.name)
  {
    hide CsType, Acyclic, Check.TypeAgrees, TypeOf, ParamTexts, ParamSlots;
    TypeReads(h, f.signature.result, Return);
    ParamsAgree(h, f);
    SuppressesOnly(Check.MaySuppress(f.name));
  }

  lemma SuppressesOnly(suppressed: bool)
    ensures (exists a :: a in ImportAttributes(suppressed) && a.name == "SuppressGCTransition") ==> suppressed
  {
    assert "LibraryImport"[0] == 'L' && "SuppressGCTransition"[0] == 'S';
  }

  lemma {:induction false} FunctionsRendered(h: Header, k: nat, i: nat)
    requires Acyclic(h) && k <= i < |h.functions| && FunctionLines(h, k).Ok?
    ensures OneFunction(h, h.functions[i], i).Ok?
    decreases i - k
  {
    hide Acyclic, OneFunction, FunctionLines;
    FunctionLinesStep(h, k);
    if k < i { FunctionsRendered(h, k + 1, i); }
  }

  lemma {:induction false} StructsRendered(h: Header, k: nat, i: nat)
    requires Acyclic(h) && k <= i <= |h.structs| && StructLines(h, k).Ok?
    ensures i < |h.structs| ==> OneStruct(h, h.structs[i]).Ok?
    ensures FunctionLines(h, 0).Ok?
    decreases |h.structs| - k
  {
    hide Acyclic, OneStruct, StructLines, FunctionLines;
    StructLinesStep(h, k);
    if k < |h.structs| { StructsRendered(h, k + 1, if k < i then i else k + 1); }
    if k < i { StructsRendered(h, k + 1, i); }
  }

  /** That the enums of some declarations, and they alone, agree with a header's. */
  ghost predicate EnumsAgree(h: Header, d: S.Declarations) {
    && (forall e :: e in h.enums ==> Check.EnumOnce(h, d, e))
    && (forall m :: m in d.enums ==> IsEnum(h, m.name))
  }

  lemma ImportsOnce(file: string, h: Header, d: S.Declarations)
    requires Acyclic(h) && HeaderOk(h) && FunctionLines(h, 0).Ok? && d.imports == ImportsFrom(file, h, 0)
    ensures forall f :: f in h.functions ==> Check.ImportedOnce(h, d, f)
    ensures forall i :: i in d.imports ==> Check.ImportWanted(h, i)
  {
    hide Acyclic, OrdinaryNames, StructOk, PrototypeOk, OneFunction, FunctionLines, ImportFor, Check.ImportAgrees, Check.Suppresses;
    forall i | 0 <= i < |h.functions|
      ensures Check.ImportedOnce(h, d, h.functions[i]) && Check.ImportWanted(h, d.imports[i])
      ensures d.imports[i].symbol == h.functions[i].name
    {
      var f := h.functions[i];
      FunctionsRendered(h, 0, i);
      FunctionAgrees(file, h, f, i);
      assert d.imports[i] == ImportFor(file, h, f);
      forall j | 0 <= j < |d.imports| ensures Check.SymbolOf(d.imports[j]) == f.name <==> j == i {
        FunctionsRendered(h, 0, j);
        FunctionAgrees(file, h, h.functions[j], j);
        assert d.imports[j] == ImportFor(file, h, h.functions[j]);
      }
      assert Check.Only(d.imports, Check.SymbolOf, f.name, i);
    }
  }

  lemma StructsOnce(file: string, h: Header, d: S.Declarations)
    requires Acyclic(h) && HeaderOk(h) && StructLines(h, 0).Ok? && d.structs == StructsFrom(file, h, 0)
    ensures forall s :: s in h.structs ==> Check.StructOnce(h, d, s)
    ensures forall m :: m in d.structs ==> IsStruct(h, m.name)
  {
    hide Acyclic, OrdinaryNames, StructOk, PrototypeOk, StructLines, FieldLines, SlotsIn, Check.FieldAgrees;
    forall i | 0 <= i < |h.structs|
      ensures Check.StructOnce(h, d, h.structs[i]) && IsStruct(h, d.structs[i].name)
    {
      var s := h.structs[i];
      StructsRendered(h, 0, i);
      assert d.structs[i] == MirrorOf(file, h, s);
      FieldsAgree(h, s);
      assert Check.StructAgrees(h, s, d.structs[i]);
      forall j | 0 <= j < |d.structs| ensures Check.StructName(d.structs[j]) == s.name <==> j == i {
        assert d.structs[j] == MirrorOf(file, h, h.structs[j]);
      }
      assert Check.Only(d.structs, Check.StructName, s.name, i);
    }
  }

  /** What is rendered of a header is read back, and beside enums that agree with the header's it
      agrees with the header: the comparison finds no problem. */
  lemma RenderedAgrees(file: string, h: Header, text: string, enums: seq<S.CsEnum>)
    requires Acyclic(h) && HeaderOk(h) && Texted(Rendered(h)) == Ok(text)
    requires EnumsAgree(h, S.Declarations([], [], enums))
    ensures Read(file, text).Ok? && Read(file, text).value.enums == []
    ensures Check.Agree(h, Read(file, text).value.(enums := enums))
    ensures forall p :: !Check.Differs(h, Read(file, text).value.(enums := enums), p)
  {
    hide Read, Acyclic, HeaderOk, StructLines, FunctionLines, Check.ImportedOnce, Check.StructOnce, Check.ImportWanted, FileHead;
    hide Check.EnumAgrees, IsStruct, IsEnum, ImportsFrom, StructsFrom, Check.Differs, LinesText;
    RenderedIsRead(file, h, text);
    StructsRendered(h, 0, |h.structs|);
    var d := MirrorRead(file, h).(enums := enums);
    ImportsOnce(file, h, d);
    StructsOnce(file, h, d);
    Check.NoneDiffers(h, d);
  }
}
