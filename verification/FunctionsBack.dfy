/** How the reader takes the prototypes that are rendered. */
module FunctionsBack {
  import opened Wrappers
  import opened Words
  import opened Header
  import opened Render
  import opened SurfaceReader
  import opened RenderedLines
  import opened RenderedGood
  import opened TypeTexts
  import opened ReadBack
  import opened MembersBack
  import opened ImportsBack
  import opened StructsBack
  import S = Surface
  import Check = SurfaceCheck

  predicate ParamOk(param: Param) { AllWordChars(param.name) }

  predicate PrototypeOk(f: Prototype) {
    && AllWordChars(f.name) && OneLines(f.doc)
    && forall k :: 0 <= k < |f.signature.params| ==> ParamOk(f.signature.params[k])
  }

  /** The slots that the reader makes of a prototype's parameters from `k` on. */
  function ParamSlots(h: Header, f: Prototype, k: nat): (r: seq<S.Slot>)
    requires Acyclic(h) && k <= |f.signature.params|
    ensures |r| == |f.signature.params| - k
    ensures forall i :: 0 <= i < |r| ==> r[i] == SlotFor(h, f.signature.params[k + i])
    decreases |f.signature.params| - k
  {
    if k == |f.signature.params| then [] else [SlotFor(h, f.signature.params[k])] + ParamSlots(h, f, k + 1)
  }

  function SlotFor(h: Header, param: Param): S.Slot
    requires Acyclic(h)
  {
    S.Slot(param.name, TypeOf(h, param.ty, Parameter), None)
  }

  /** The import that the reader makes of a prototype. */
  function ImportFor(file: string, h: Header, f: Prototype): S.Import
    requires Acyclic(h)
  {
    S.Import(file, f.name, TypeOf(h, f.signature.result, Return), ParamSlots(h, f, 0), ImportAttributes(Check.MaySuppress(f.name)))
  }

  /** Rendered parameters are the slots of the prototype. */
  lemma {:induction false} ParamTextsAre(h: Header, f: Prototype, k: nat)
    requires Acyclic(h) && OrdinaryNames(h) && PrototypeOk(f) && k <= |f.signature.params| && ParamTexts(h, f, k).Ok?
    ensures var texts, slots := ParamTexts(h, f, k).value, ParamSlots(h, f, k);
            forall i :: 0 <= i < |texts| ==> ParamText(texts[i], slots[i])
    decreases |f.signature.params| - k
  {
    hide CsType, ParamText, Acyclic, OrdinaryNames, TypeText;
    if k < |f.signature.params| {
      var param := f.signature.params[k];
      var ws := CsTypeText(h, param.ty, Parameter);
      ParamTextsAre(h, f, k + 1);
      ParamTextIs(param, CsType(h, param.ty, Parameter).value, ws);
    }
  }

  lemma ParamTextIs(param: Param, ty: string, ws: seq<string>)
    requires ParamOk(param) && TypeText(ty, ws)
    ensures ParamText(ty + " " + CsName(param.name), S.Slot(param.name, ty, None))
  {
    hide TypeText, CsName, AllWordChars;
    assert Spelled(ty);
  }

  lemma ParamCalm(text: string, slot: S.Slot)
    requires ParamText(text, slot)
    ensures Calm(text)
  {
    hide TypeText, NameText, AllWordChars, CsName, Calm;
    var ws :| TypeText(slot.ty, ws);
    TypeCalm(slot.ty, ws);
    CsNameIs(slot.name);
    CalmName(CsName(slot.name));
    IndentCalm();
    CalmAppend(slot.ty, " ");
    CalmAppend(slot.ty + " ", CsName(slot.name));
  }

  lemma {:induction false} ListCalm(texts: seq<string>, slots: seq<S.Slot>)
    requires |texts| == |slots| && forall i :: 0 <= i < |texts| ==> ParamText(texts[i], slots[i])
    ensures Calm(JoinComma(texts))
    decreases |texts|
  {
    hide ParamText, Calm, JoinComma;
    if texts == [] {
      NothingCalm();
    } else {
      var first, rest := texts[0], texts[1..];
      assert texts == [first] + rest;
      JoinCommaCons(first, rest);
      ParamCalm(first, slots[0]);
      ListCalm(rest, slots[1..]);
      NothingCalm();
      CalmAppend(first, ", ");
      CalmAppend(first + ", ", JoinComma(rest));
    }
  }

  lemma NothingCalm()
    ensures Calm(", ") && Calm("") && JoinComma([]) == ""
  {
  }

  /** The declaration of an import is neat. */
  lemma ImportNeat(result: string, ws: seq<string>, name: string, texts: seq<string>, slots: seq<S.Slot>)
    requires TypeText(result, ws) && AllWordChars(name)
    requires |texts| == |slots| && forall i :: 0 <= i < |texts| ==> ParamText(texts[i], slots[i])
    ensures var body := "    " + ImportText(result, name, texts); Neat(body) && CodeLine(body)
  {
    hide Calm, Neat, CodeLine, TypeText, AllWordChars, ParamText, JoinComma;
    IndentCalm();
    TypeCalm(result, ws);
    WordsCalm(name);
    ListCalm(texts, slots);
    var list, front := JoinComma(texts), "    " + "public static partial ";
    CalmAppend("    ", "public static partial ");
    CalmAppend(front, result);
    CalmAppend(front + result, " ");
    CalmAppend(front + result + " ", name);
    var head := front + result + " " + name;
    CalmNeat(head);
    NeatBracketed("(", list, ")");
    NeatAppend(head, "(" + list + ")");
    assert "    " + ImportText(result, name, texts) == head + ("(" + list + ")");
  }

  lemma FunctionLineIs(f: Prototype, result: string, texts: seq<string>)
    ensures FunctionLine(f, result, texts) == "    " + ImportText(result, f.name, texts) + [';']
  {
    hide JoinComma;
    assert "    public static partial " == "    " + "public static partial ";
    assert ");" == ")" + [';'];
  }

  lemma AttributeNeat()
    ensures Neat("    [LibraryImport(Library)]") && CodeLine("    [LibraryImport(Library)]")
    ensures Neat("    [SuppressGCTransition]") && CodeLine("    [SuppressGCTransition]")
    ensures "    [LibraryImport(Library)]" == "    " + "[LibraryImport(Library)]"
    ensures "    [SuppressGCTransition]" == "    " + "[SuppressGCTransition]"
  {
    hide Calm, Neat, CodeLine, PlainAttribute, AttributeText;
    ImportAttributesPlain();
    ListNeat(LIBRARY_IMPORT);
    ListNeat(SUPPRESSES);
    IndentCalm();
    CalmNeat("    ");
    NeatAppend("    ", "[LibraryImport(Library)]");
    NeatAppend("    ", "[SuppressGCTransition]");
    Indented();
  }

  lemma Indented()
    ensures "    [LibraryImport(Library)]" == "    " + "[LibraryImport(Library)]"
    ensures "    [SuppressGCTransition]" == "    " + "[SuppressGCTransition]"
  {
  }

  /** What is pending after the attributes of an import. */
  function AttributesPending(after: string, suppressed: bool): string {
    after + "    [LibraryImport(Library)]" + "\n" + if suppressed then "    [SuppressGCTransition]" + "\n" else ""
  }

  lemma PendingIs(after: string, suppressed: bool, declaration: string)
    ensures AttributesPending(after, suppressed) + ("    " + declaration)
         == (after + "    ") + (AttributeLines(suppressed) + declaration)
  {
    Indented();
    assert "\n    " == "\n" + "    ";
    if suppressed {
      assert AttributesPending(after, true) + ("    " + declaration)
          == after + "    " + "[LibraryImport(Library)]" + "\n" + "    " + "[SuppressGCTransition]" + "\n" + "    " + declaration;
    } else {
      assert AttributesPending(after, false) + ("    " + declaration)
          == after + "    " + "[LibraryImport(Library)]" + "\n" + "    " + declaration;
    }
  }

  /** The attribute lines of an import are read one after the other. */
  lemma AttributesStep(file: string, f: Prototype, rest: seq<string>, after: string, stack: seq<Container>, out: S.Declarations)
    ensures var lines := ["    [LibraryImport(Library)]"] + if f.name in SUPPRESS_GC_TRANSITION then ["    [SuppressGCTransition]"] else [];
            && Good(lines)
            && ReadLines(file, BlankLines(lines) + rest, after, stack, out)
               == ReadLines(file, rest, AttributesPending(after, Check.MaySuppress(f.name)), stack, out)
  {
    hide ReadLines, GoodLine, BlankLine, Neat, CodeLine;
    AttributeNeat();
    var first, second := "    [LibraryImport(Library)]", "    [SuppressGCTransition]";
    if Check.MaySuppress(f.name) {
      BlankAppend([first], [second]);
      assert BlankLines([first] + [second]) + rest == BlankLines([first]) + (BlankLines([second]) + rest);
      CodeStep(file, first, BlankLines([second]) + rest, after, stack, out);
      CodeStep(file, second, rest, after + first + "\n", stack, out);
      assert after + first + "\n" + second + "\n" == AttributesPending(after, true);
    } else {
      assert [first] + [] == [first];
      CodeStep(file, first, rest, after, stack, out);
      assert AttributesPending(after, false) == after + first + "\n";
    }
  }

  lemma FunctionLinesStep(h: Header, k: nat)
    requires Acyclic(h) && k < |h.functions| && FunctionLines(h, k).Ok?
    ensures OneFunction(h, h.functions[k], k).Ok? && FunctionLines(h, k + 1).Ok?
    ensures FunctionLines(h, k).value == OneFunction(h, h.functions[k], k).value + FunctionLines(h, k + 1).value
  {
    hide OneFunction, Acyclic;
  }

  lemma FunctionEnds(file: string, h: Header, f: Prototype, after: string, out: S.Declarations)
    requires Acyclic(h) && OrdinaryNames(h) && PrototypeOk(f) && OneFunction(h, f, 0).Ok? && White(after)
    ensures var texts, result := ParamTexts(h, f, 0), TypeOf(h, f.signature.result, Return);
            && texts.Ok?
            && var body := "    " + ImportText(result, f.name, texts.value);
               var segment, stack := AttributesPending(after, Check.MaySuppress(f.name)) + body, [Type(None)];
               && Neat(body) && CodeLine(body)
               && Ended(file, ';', segment, segment, stack, out)
                  == Ok((stack, out.(imports := out.imports + [ImportFor(file, h, f)])))
  {
    hide White, TypeText, AllWordChars, ParamText, ImportOf, FieldOf, Opened, EnumMembersOf, CsType, Neat, CodeLine;
    hide AttributesPending, AttributeLines, ImportText, Acyclic, OrdinaryNames, ParamTexts, ParamSlots, Check.MaySuppress;
    var texts, slots, result := ParamTexts(h, f, 0).value, ParamSlots(h, f, 0), TypeOf(h, f.signature.result, Return);
    var ws := CsTypeText(h, f.signature.result, Return);
    ParamTextsAre(h, f, 0);
    ImportNeat(result, ws, f.name, texts, slots);
    PendingIs(after, Check.MaySuppress(f.name), ImportText(result, f.name, texts));
    NoWhite();
    WhiteAppend(after, "    ");
    ImportRead(file, after + "    ", Check.MaySuppress(f.name), result, ws, f.name, texts, slots);
  }

  /** A prototype is read as the header has it. */
  lemma FunctionStep(file: string, h: Header, k: nat, rest: seq<string>, pending: string, out: S.Declarations)
    requires Acyclic(h) && OrdinaryNames(h) && k < |h.functions| && PrototypeOk(h.functions[k])
    requires OneFunction(h, h.functions[k], k).Ok? && White(pending)
    ensures var f, lines, stack := h.functions[k], OneFunction(h, h.functions[k], k).value, [Type(None)];
            && Good(lines)
            && ReadLines(file, BlankLines(lines) + rest, pending, stack, out)
               == ReadLines(file, rest, "\n", stack, out.(imports := out.imports + [ImportFor(file, h, f)]))
  {
    hide ReadLines, White, BlankLine, GoodLine, CsType, Neat, CodeLine, Acyclic, OrdinaryNames, DocLines, Ended, ImportFor;
    hide ParamTexts, ImportText, FunctionLine, AttributesPending, Check.MaySuppress;
    var f, stack := h.functions[k], [Type(None)];
    var doc := DocLines("    ", f.doc, "The <c>" + f.name + "</c> export of <c>zero.h</c>.");
    var lead := Gap(k) + doc;
    var attributes := ["    [LibraryImport(Library)]"] + if f.name in SUPPRESS_GC_TRANSITION then ["    [SuppressGCTransition]"] else [];
    var body := "    " + ImportText(TypeOf(h, f.signature.result, Return), f.name, ParamTexts(h, f, 0).value);
    GapUnseen(k);
    FallbackOneLine(f.name);
    DocUnseen("    ", f.doc, "The <c>" + f.name + "</c> export of <c>zero.h</c>.");
    UnseenAppend(Gap(k), doc);
    UnseenGood(lead);
    FunctionLineIs(f, TypeOf(h, f.signature.result, Return), ParamTexts(h, f, 0).value);
    assert OneFunction(h, f, k).value == lead + (attributes + [body + [';']]);
    BlankAppend(lead, attributes + [body + [';']]);
    BlankAppend(attributes, [body + [';']]);
    var last := BlankLines([body + [';']]) + rest;
    assert BlankLines(lead + (attributes + [body + [';']])) + rest == BlankLines(lead) + (BlankLines(attributes) + last);
    var after := UnseenStep(file, lead, BlankLines(attributes) + last, pending, stack, out);
    AttributesStep(file, f, last, after, stack, out);
    FunctionEnds(file, h, f, after, out);
    CodeEnds(file, body, ';', rest, AttributesPending(after, Check.MaySuppress(f.name)), stack, out);
    GoodAppend(attributes, [body + [';']]);
    GoodAppend(lead, attributes + [body + [';']]);
  }

  function ImportsFrom(file: string, h: Header, k: nat): (r: seq<S.Import>)
    requires Acyclic(h) && k <= |h.functions|
    ensures |r| == |h.functions| - k
    ensures forall i :: 0 <= i < |r| ==> r[i] == ImportFor(file, h, h.functions[k + i])
    decreases |h.functions| - k
  {
    if k == |h.functions| then [] else [ImportFor(file, h, h.functions[k])] + ImportsFrom(file, h, k + 1)
  }

  /** The prototypes are read as the header has them, and the end of their class closes it. */
  lemma {:induction false} FunctionsStep(
      file: string, h: Header, k: nat, rest: seq<string>, pending: string, out: S.Declarations)
    requires Acyclic(h) && OrdinaryNames(h) && k <= |h.functions| && FunctionLines(h, k).Ok? && White(pending)
    requires forall i :: 0 <= i < |h.functions| ==> PrototypeOk(h.functions[i])
    ensures Good(FunctionLines(h, k).value)
    ensures ReadLines(file, BlankLines(FunctionLines(h, k).value) + rest, pending, [Type(None)], out)
         == ReadLines(file, rest, "\n", [], out.(imports := out.imports + ImportsFrom(file, h, k)))
    decreases |h.functions| - k
  {
    hide ReadLines, White, BlankLine, GoodLine, Acyclic, OrdinaryNames, OneFunction, FunctionLines, PrototypeOk, ImportFor;
    if k == |h.functions| {
      FunctionLinesEnd(h);
      CloseStep(file, rest, pending, Type(None), out);
      assert out.imports + [] == out.imports;
    } else {
      FunctionLinesStep(h, k);
      var lines, more := OneFunction(h, h.functions[k], k).value, FunctionLines(h, k + 1).value;
      BlankAppend(lines, more);
      assert BlankLines(lines + more) + rest == BlankLines(lines) + (BlankLines(more) + rest);
      FunctionStep(file, h, k, BlankLines(more) + rest, pending, out);
      NoWhite();
      var one := ImportFor(file, h, h.functions[k]);
      FunctionsStep(file, h, k + 1, rest, "\n", out.(imports := out.imports + [one]));
      GoodAppend(lines, more);
      assert out.imports + [one] + ImportsFrom(file, h, k + 1) == out.imports + ([one] + ImportsFrom(file, h, k + 1));
    }
  }

  lemma FunctionLinesEnd(h: Header)
    requires Acyclic(h)
    ensures FunctionLines(h, |h.functions|) == Ok(["}"])
  {
    hide Acyclic, OneFunction;
  }
}
