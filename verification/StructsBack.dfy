/** How the reader takes the structs that are rendered. */
module StructsBack {
  import opened Wrappers
  import opened Text
  import opened Numbers
  import opened Words
  import opened Header
  import opened Render
  import opened SurfaceReader
  import opened RenderedLines
  import opened RenderedGood
  import opened TypeTexts
  import opened ReadBack
  import opened MembersBack
  import opened HeadsBack
  import S = Surface
  import Check = SurfaceCheck

  // ----- Lines of code -----

  lemma ArgCalm(args: string)
    requires forall k :: 0 <= k < |args| ==> ArgChar(args[k])
    ensures Calm(args)
  {
  }

  lemma WordsCalm(name: string)
    requires AllWordChars(name)
    ensures Calm(name)
  {
  }

  /** An attribute list is neat. */
  lemma ListNeat(a: S.Attribute)
    requires PlainAttribute(a)
    ensures Neat("[" + AttributeText(a) + "]") && CodeLine("[" + AttributeText(a) + "]")
  {
    hide Calm, Brackets, Neat, AllWordChars, EndsWith, ArgChar;
    WordsCalm(a.name);
    if a.args == "" {
      NeatBracketed("[", a.name, "]");
    } else {
      ArgCalm(a.args);
      NestedNeat(a.name, a.args);
      assert "[" + (a.name + "(" + a.args + ")") + "]" == "[" + a.name + "(" + a.args + ")" + "]";
    }
  }

  lemma NestedNeat(name: string, args: string)
    requires Calm(name) && Calm(args)
    ensures var t := "[" + name + "(" + args + ")" + "]"; Neat(t) && CodeLine(t)
  {
    hide Calm, Brackets, Neat, CodeChar, Ends;
    CalmNeat(name);
    CalmNeat(args);
    OpensCloses("[", "]");
    OpensCloses("(", ")");
    ParensTwo();
    BracketsAppend("[", name, 0);
    BracketsCalm(name, 1);
    BracketsAppend("[" + name, "(", 0);
    BracketsAppend("[" + name + "(", args, 0);
    BracketsCalm(args, 2);
    BracketsAppend("[" + name + "(" + args, ")", 0);
    BracketsAppend("[" + name + "(" + args + ")", "]", 0);
    NeatIs("[" + name + "(" + args + ")" + "]");
  }

  lemma ParensTwo()
    ensures Brackets("(", 1) == 2 && Brackets(")", 2) == 1
  {
    assert "("[1..] == "" && ")"[1..] == "";
  }

  lemma IndentCalm()
    ensures Calm("    ") && Calm(" ") && Calm("public ") && Calm("public fixed ") && Calm("public static partial ") && Calm("")
  {
  }

  // ----- Steps of the reader -----

  lemma PlainStep(
      file: string, line: string, rest: seq<string>, pending: string, stack: seq<Container>, out: S.Declarations)
    requires !Terminated(line)
    ensures ReadLines(file, [line] + rest, pending, stack, out) == ReadLines(file, rest, pending + line + "\n", stack, out)
  {
    hide Ended, Terminated;
    assert ([line] + rest)[1..] == rest;
  }

  lemma EndStep(
      file: string, body: string, c: char, rest: seq<string>, pending: string, stack: seq<Container>,
      out: S.Declarations)
    requires Ends(c)
    ensures var ended := Ended(file, c, pending + body, pending + body, stack, out);
            ReadLines(file, [body + [c]] + rest, pending, stack, out)
            == if ended.Err? then Err(ended.error) else ReadLines(file, rest, "\n", ended.value.0, ended.value.1)
  {
    hide Ended, Ends;
    var line := body + [c];
    assert ([line] + rest)[1..] == rest && line[..|line| - 1] == body && line[|line| - 1] == c;
  }

  lemma BlankAppend(a: seq<string>, b: seq<string>)
    ensures BlankLines(a + b) == BlankLines(a) + BlankLines(b)
  {
    hide BlankLine;
  }

  lemma BlankOne(line: string)
    ensures BlankLines([line]) == [BlankLine(line)]
  {
    hide BlankLine;
  }

  /** Of unseen lines only white space is left before the next declaration. */
  lemma {:induction false} UnseenStep(
      file: string, lines: seq<string>, rest: seq<string>, pending: string, stack: seq<Container>, out: S.Declarations)
      returns (after: string)
    requires Unseen(lines) && White(pending)
    ensures White(after)
    ensures ReadLines(file, BlankLines(lines) + rest, pending, stack, out) == ReadLines(file, rest, after, stack, out)
    decreases |lines|
  {
    hide ReadLines, White, GoodLine, BlankLine, Terminated;
    if lines == [] {
      after := pending;
      assert BlankLines(lines) + rest == rest;
    } else {
      var line, more := lines[0], lines[1..];
      assert lines == [line] + more;
      BlankAppend([line], more);
      BlankOne(line);
      var blank := BlankLine(line);
      assert BlankLines(lines) + rest == [blank] + (BlankLines(more) + rest);
      WhiteNeat(blank);
      PlainStep(file, blank, BlankLines(more) + rest, pending, stack, out);
      NoWhite();
      WhiteAppend(pending, blank);
      WhiteAppend(pending + blank, "\n");
      after := UnseenStep(file, more, rest, pending + blank + "\n", stack, out);
    }
  }

  /** A line of code is seen as it is. */
  lemma CodeStep(
      file: string, line: string, rest: seq<string>, pending: string, stack: seq<Container>, out: S.Declarations)
    requires Neat(line) && CodeLine(line)
    ensures GoodLine(line)
    ensures ReadLines(file, BlankLines([line]) + rest, pending, stack, out)
         == ReadLines(file, rest, pending + line + "\n", stack, out)
  {
    hide ReadLines, GoodLine, BlankLine, Terminated, Neat, CodeLine;
    CodeGood(line);
    BlankOne(line);
    PlainStep(file, line, rest, pending, stack, out);
  }

  lemma CodeEnds(
      file: string, body: string, c: char, rest: seq<string>, pending: string, stack: seq<Container>,
      out: S.Declarations)
    requires Neat(body) && CodeLine(body) && Ends(c)
    ensures GoodLine(body + [c])
    ensures var ended := Ended(file, c, pending + body, pending + body, stack, out);
            ReadLines(file, BlankLines([body + [c]]) + rest, pending, stack, out)
            == if ended.Err? then Err(ended.error) else ReadLines(file, rest, "\n", ended.value.0, ended.value.1)
  {
    hide ReadLines, Ended, GoodLine, BlankLine, Terminated, Neat, CodeLine, Ends;
    EndGood(body, c);
    BlankOne(body + [c]);
    EndStep(file, body, c, rest, pending, stack, out);
  }

  // ----- Fields -----

  /** What is asked of the header's names, documentation and lengths. */
  predicate FieldOk(field: Param) {
    && AllWordChars(field.name) && OneLines(field.doc) && (field.ty.Array? ==> field.ty.len <= USIZE_MAX)
  }

  function SlotIn(field: Param, ty: string): S.Slot { S.Slot(field.name, ty, Check.BufferLength(field.ty)) }

  function WithSlot(out: S.Declarations, index: nat, slot: S.Slot): S.Declarations
    requires index < |out.structs|
  {
    var item := out.structs[index];
    out.(structs := out.structs[index := item.(fields := item.fields + [slot])])
  }

  /** A field without its terminator and the spaces before it. */
  function FieldText(field: Param, ty: string): string {
    var n := CsName(field.name);
    if field.ty.Array? then "public fixed " + (ty + " " + BufferName(n, field.ty.len)) else "public " + (ty + " " + n)
  }

  lemma FieldLineIs(field: Param, ty: string)
    ensures FieldLine(field, ty) == "    " + FieldText(field, ty) + [';']
  {
    hide CsName, Decimal;
    FixedText();
    assert ";" == [';'];
    if field.ty.Array? {
      assert "];" == "]" + ";";
    }
  }

  lemma FixedText()
    ensures "    public fixed " == "    " + "public fixed " && "    public " == "    " + "public "
  {
  }

  lemma FieldNeat(field: Param, ty: string, ws: seq<string>)
    requires FieldOk(field) && TypeText(ty, ws)
    ensures var body := "    " + FieldText(field, ty); Neat(body) && CodeLine(body)
  {
    hide CsName, Decimal, Calm, Neat, CodeLine, TypeText, NameText, AllWordChars;
    var n := CsName(field.name);
    IndentCalm();
    CsNameIs(field.name);
    CalmName(n);
    TypeCalm(ty, ws);
    var front := if field.ty.Array? then "public fixed " else "public ";
    CalmAppend("    ", front);
    CalmAppend("    " + front, ty);
    CalmAppend("    " + front + ty, " ");
    CalmAppend("    " + front + ty + " ", n);
    var head := "    " + front + ty + " " + n;
    CalmNeat(head);
    if field.ty.Array? {
      var d := Decimal(field.ty.len);
      DecimalCalm(field.ty.len);
      NeatBracketed("[", d, "]");
      NeatAppend(head, "[" + d + "]");
      assert "    " + ("public fixed " + (ty + " " + BufferName(n, field.ty.len))) == head + ("[" + d + "]");
    } else {
      assert "    " + ("public " + (ty + " " + n)) == head;
    }
  }

  lemma TypeCalm(ty: string, ws: seq<string>)
    requires TypeText(ty, ws)
    ensures Calm(ty)
  {
    CalmType(ty);
  }

  lemma DecimalCalm(n: nat)
    ensures Calm(Decimal(n))
  {
    hide Decimal;
    assert forall k :: 0 <= k < |Decimal(n)| ==> Decimal(n)[k] in Decimal(n);
  }

  lemma FallbackOneLine(name: string)
    requires AllWordChars(name)
    ensures OneLine("The <c>" + name + "</c> field.")
    ensures OneLine("The <c>" + name + "</c> struct of <c>zero.h</c>.")
    ensures OneLine("The <c>" + name + "</c> export of <c>zero.h</c>.")
  {
  }

  lemma GapUnseen(k: nat)
    ensures Unseen(Gap(k))
  {
    EmptyGood();
  }

  /** A field is read as the header has it. */
  lemma FieldStep(
      file: string, h: Header, item: Struct, k: nat, rest: seq<string>, pending: string, index: nat, out: S.Declarations)
    requires Acyclic(h) && OrdinaryNames(h) && k < |item.fields| && FieldOk(item.fields[k])
    requires OneField(h, item, k).Ok? && White(pending) && index < |out.structs|
    ensures Good(OneField(h, item, k).value)
    ensures var field, stack := item.fields[k], [Type(Some(index))];
            ReadLines(file, BlankLines(OneField(h, item, k).value) + rest, pending, stack, out)
            == ReadLines(file, rest, "\n", stack, WithSlot(out, index, SlotIn(field, CsType(h, field.ty, Field).value)))
  {
    hide ReadLines, White, BlankLine, GoodLine, CsType, FieldText, FieldLine, Neat, CodeLine, Acyclic, OrdinaryNames;
    hide TypeText, DocLines, Ended;
    var field, stack, ty := item.fields[k], [Type(Some(index))], CsType(h, item.fields[k].ty, Field).value;
    var ws := CsTypeText(h, field.ty, Field);
    var lead, body := Gap(k) + FieldDoc(field), "    " + FieldText(field, ty);
    GapUnseen(k);
    FallbackOneLine(field.name);
    DocUnseen("    ", field.doc, "The <c>" + field.name + "</c> field.");
    UnseenAppend(Gap(k), FieldDoc(field));
    FieldLineIs(field, ty);
    FieldNeat(field, ty, ws);
    BlankAppend(lead, [body + [';']]);
    assert BlankLines(lead + [body + [';']]) + rest == BlankLines(lead) + (BlankLines([body + [';']]) + rest);
    var after := UnseenStep(file, lead, BlankLines([body + [';']]) + rest, pending, stack, out);
    CodeEnds(file, body, ';', rest, after, stack, out);
    UnseenGood(lead);
    GoodAppend(lead, [body + [';']]);
    FieldEnds(file, field, ty, ws, after, index, out);
  }

  lemma FieldEnds(
      file: string, field: Param, ty: string, ws: seq<string>, after: string, index: nat, out: S.Declarations)
    requires FieldOk(field) && TypeText(ty, ws) && White(after) && index < |out.structs|
    ensures var segment, stack := after + ("    " + FieldText(field, ty)), [Type(Some(index))];
            Ended(file, ';', segment, segment, stack, out) == Ok((stack, WithSlot(out, index, SlotIn(field, ty))))
  {
    hide White, TypeText, ImportOf, FieldOf, AllWordChars, CsName, BufferName, Opened, EnumMembersOf;
    NoWhite();
    WhiteAppend(after, "    ");
    var white := after + "    ";
    assert after + ("    " + FieldText(field, ty)) == white + FieldText(field, ty);
    if field.ty.Array? {
      BufferRead(file, white, ty, ws, field.name, field.ty.len);
    } else {
      FieldRead(file, white, ty, ws, field.name);
    }
  }

  // ----- Structs -----

  /** The spelling of a type that has one. */
  function TypeOf(h: Header, ty: CType, position: Position): string
    requires Acyclic(h)
  {
    match CsType(h, ty, position) case Ok(t) => t case Err(_) => ""
  }

  function SlotsIn(h: Header, item: Struct, k: nat): (r: seq<S.Slot>)
    requires Acyclic(h) && k <= |item.fields|
    ensures |r| == |item.fields| - k
    ensures forall i :: 0 <= i < |r| ==> r[i] == SlotIn(item.fields[k + i], TypeOf(h, item.fields[k + i].ty, Field))
    decreases |item.fields| - k
  {
    if k == |item.fields| then []
    else [SlotIn(item.fields[k], TypeOf(h, item.fields[k].ty, Field))] + SlotsIn(h, item, k + 1)
  }

  function WithSlots(out: S.Declarations, index: nat, slots: seq<S.Slot>): S.Declarations
    requires index < |out.structs|
  {
    var item := out.structs[index];
    out.(structs := out.structs[index := item.(fields := item.fields + slots)])
  }

  lemma WithMore(out: S.Declarations, index: nat, slot: S.Slot, slots: seq<S.Slot>)
    requires index < |out.structs|
    ensures WithSlots(WithSlot(out, index, slot), index, slots) == WithSlots(out, index, [slot] + slots)
    ensures WithSlots(out, index, []) == out
  {
    var fields := out.structs[index].fields;
    assert fields + [slot] + slots == fields + ([slot] + slots) && fields + [] == fields;
    assert out.structs[index := out.structs[index]] == out.structs;
  }

  predicate StructOk(item: Struct) {
    AllWordChars(item.name) && OneLines(item.doc) && forall k :: 0 <= k < |item.fields| ==> FieldOk(item.fields[k])
  }

  lemma FieldLinesStep(h: Header, item: Struct, k: nat)
    requires Acyclic(h) && k < |item.fields| && FieldLines(h, item, k).Ok?
    ensures OneField(h, item, k).Ok? && FieldLines(h, item, k + 1).Ok?
    ensures FieldLines(h, item, k).value == OneField(h, item, k).value + FieldLines(h, item, k + 1).value
    ensures CsType(h, item.fields[k].ty, Field).Ok?
  {
    hide CsType, FieldLine, FieldDoc, Acyclic;
  }

  /** The end of a type closes it. */
  lemma CloseStep(file: string, rest: seq<string>, pending: string, container: Container, out: S.Declarations)
    requires container.Type?
    ensures GoodLine("}")
    ensures ReadLines(file, BlankLines(["}"]) + rest, pending, [container], out) == ReadLines(file, rest, "\n", [], out)
  {
    hide ReadLines, GoodLine, Opened, ImportOf, FieldOf, EnumMembersOf;
    IndentCalm();
    CalmNeat("");
    assert "" + ['}'] == "}";
    CodeEnds(file, "", '}', rest, pending, [container], out);
    assert [container][..0] == [];
  }

  /** The fields of a struct are read as the header has them, and its end closes it. */
  lemma {:induction false} FieldsStep(
      file: string, h: Header, item: Struct, k: nat, rest: seq<string>, pending: string, index: nat, out: S.Declarations)
    requires Acyclic(h) && OrdinaryNames(h) && k <= |item.fields| && StructOk(item)
    requires FieldLines(h, item, k).Ok? && White(pending) && index < |out.structs|
    ensures Good(FieldLines(h, item, k).value)
    ensures ReadLines(file, BlankLines(FieldLines(h, item, k).value) + rest, pending, [Type(Some(index))], out)
         == ReadLines(file, rest, "\n", [], WithSlots(out, index, SlotsIn(h, item, k)))
    decreases |item.fields| - k
  {
    hide ReadLines, White, BlankLine, GoodLine, CsType, Acyclic, OrdinaryNames, OneField, FieldLines, FieldOk, WithSlot, WithSlots;
    if k == |item.fields| {
      FieldLinesEnd(h, item);
      CloseStep(file, rest, pending, Type(Some(index)), out);
      WithMore(out, index, S.Slot("", "", None), []);
    } else {
      FieldLinesStep(h, item, k);
      var lines, more := OneField(h, item, k).value, FieldLines(h, item, k + 1).value;
      var slot := SlotIn(item.fields[k], CsType(h, item.fields[k].ty, Field).value);
      BlankAppend(lines, more);
      assert BlankLines(lines + more) + rest == BlankLines(lines) + (BlankLines(more) + rest);
      FieldStep(file, h, item, k, BlankLines(more) + rest, pending, index, out);
      NoWhite();
      WithKeeps(out, index, slot);
      FieldsStep(file, h, item, k + 1, rest, "\n", index, WithSlot(out, index, slot));
      GoodAppend(lines, more);
      WithMore(out, index, slot, SlotsIn(h, item, k + 1));
    }
  }

  lemma WithKeeps(out: S.Declarations, index: nat, slot: S.Slot)
    requires index < |out.structs|
    ensures |WithSlot(out, index, slot).structs| == |out.structs|
  {
  }

  lemma FieldLinesEnd(h: Header, item: Struct)
    requires Acyclic(h)
    ensures FieldLines(h, item, |item.fields|) == Ok(["}"])
  {
    hide Acyclic, OneField;
  }

  /** The struct that the reader makes of a header's struct. */
  function MirrorOf(file: string, h: Header, item: Struct): S.LayoutStruct
    requires Acyclic(h)
  {
    S.LayoutStruct(file, item.name, SlotsIn(h, item, 0))
  }

  lemma StructHeadText(name: string)
    ensures "public unsafe struct " + name == HeadText(STRUCT_FRONT, "struct", name)
  {
    hide JoinWords;
    FrontTexts();
    assert "public unsafe" + " " + "struct" + " " == "public unsafe struct ";
    assert HeadText(STRUCT_FRONT, "struct", name) == "public unsafe" + " " + "struct" + " " + name;
  }

  lemma ClassHeadText()
    ensures "public static unsafe partial class NativeMethods" == HeadText(CLASS_FRONT, "class", "NativeMethods")
  {
    hide JoinWords;
    FrontTexts();
    ClassSpelled();
    assert HeadText(CLASS_FRONT, "class", "NativeMethods") == "public static unsafe partial" + " " + ("class" + " " + "NativeMethods");
  }

  lemma ClassSpelled()
    ensures "public static unsafe partial" + " " + ("class" + " " + "NativeMethods") == "public static unsafe partial class NativeMethods"
  {
    assert "class" + " " + "NativeMethods" == "class NativeMethods";
  }

  lemma HeadNeat(front: seq<string>, keyword: string, name: string)
    requires (front == STRUCT_FRONT && keyword == "struct") || (front == CLASS_FRONT && keyword == "class")
    requires AllWordChars(name)
    ensures Neat(HeadText(front, keyword, name)) && CodeLine(HeadText(front, keyword, name))
  {
    hide Calm, Neat, CodeLine, AllWordChars, JoinWords;
    FrontTexts();
    FrontsCalm();
    WordsCalm(name);
    IndentCalm();
    CalmAppend(keyword, " ");
    CalmAppend(keyword + " ", name);
    CalmAppend(JoinWords(front), " ");
    CalmAppend(JoinWords(front) + " ", keyword + " " + name);
    CalmNeat(HeadText(front, keyword, name));
  }

  lemma FrontsCalm()
    ensures Calm("public unsafe") && Calm("public static unsafe partial") && Calm("struct") && Calm("class")
  {
    FrontsSpelled();
    SpelledCalm("public unsafe");
    SpelledCalm("public static unsafe partial");
    SpelledCalm("struct");
    SpelledCalm("class");
  }

  lemma FrontsSpelled()
    ensures SpelledOut("public unsafe") && SpelledOut("public static unsafe partial")
    ensures SpelledOut("struct") && SpelledOut("class")
  {
  }

  /** The head of a struct opens it. */
  lemma StructHeadStep(file: string, item: Struct, rest: seq<string>, pending: string, out: S.Declarations)
    requires StructOk(item) && White(pending)
    ensures Good(StructHead(item))
    ensures ReadLines(file, BlankLines(StructHead(item)) + rest, pending, [], out)
         == ReadLines(file, rest, "\n", [Type(Some(|out.structs|))],
              out.(structs := out.structs + [S.LayoutStruct(file, item.name, [])]))
  {
    hide ReadLines, White, BlankLine, GoodLine, Neat, CodeLine, DocLines, Opened, HeadText, AllWordChars;
    hide PlainAttribute, AttributeText, FieldOk;
    var layout, head := "[StructLayout(LayoutKind.Sequential)]", "public unsafe struct " + item.name;
    var lead := [""] + DocLines("", item.doc, "The <c>" + item.name + "</c> struct of <c>zero.h</c>.");
    EmptyGood();
    FallbackOneLine(item.name);
    DocUnseen("", item.doc, "The <c>" + item.name + "</c> struct of <c>zero.h</c>.");
    UnseenAppend([""], DocLines("", item.doc, "The <c>" + item.name + "</c> struct of <c>zero.h</c>."));
    UnseenGood(lead);
    LayoutPlain();
    ListNeat(LAYOUT);
    StructHeadText(item.name);
    HeadNeat(STRUCT_FRONT, "struct", item.name);
    IndentCalm();
    CalmNeat("");
    var tail := [layout] + ([head] + ["{"]);
    assert StructHead(item) == lead + tail;
    BlankAppend(lead, tail);
    BlankAppend([layout], [head] + ["{"]);
    BlankAppend([head], ["{"]);
    var last := BlankLines(["{"]) + rest;
    assert BlankLines(StructHead(item)) + rest == BlankLines(lead) + (BlankLines([layout]) + (BlankLines([head]) + last));
    var after := UnseenStep(file, lead, BlankLines([layout]) + (BlankLines([head]) + last), pending, [], out);
    CodeStep(file, layout, BlankLines([head]) + last, after, [], out);
    CodeStep(file, head, last, after + layout + "\n", [], out);
    assert "" + ['{'] == "{";
    CodeEnds(file, "", '{', rest, after + layout + "\n" + head + "\n", [], out);
    assert after + layout + "\n" + head + "\n" + "" == after + (layout + ("\n" + HeadText(STRUCT_FRONT, "struct", item.name) + "\n"));
    StructOpened(file, after, item.name, out);
    assert [] + [Type(Some(|out.structs|))] == [Type(Some(|out.structs|))];
  }

  /** A struct is read as the header has it. */
  lemma StructStep(file: string, h: Header, item: Struct, rest: seq<string>, pending: string, out: S.Declarations)
    requires Acyclic(h) && OrdinaryNames(h) && StructOk(item) && OneStruct(h, item).Ok? && White(pending)
    ensures Good(OneStruct(h, item).value)
    ensures ReadLines(file, BlankLines(OneStruct(h, item).value) + rest, pending, [], out)
         == ReadLines(file, rest, "\n", [], out.(structs := out.structs + [MirrorOf(file, h, item)]))
  {
    hide ReadLines, White, BlankLine, GoodLine, Acyclic, OrdinaryNames, FieldLines, StructHead, StructOk, SlotsIn;
    var head, fields := StructHead(item), FieldLines(h, item, 0).value;
    BlankAppend(head, fields);
    assert BlankLines(head + fields) + rest == BlankLines(head) + (BlankLines(fields) + rest);
    StructHeadStep(file, item, BlankLines(fields) + rest, pending, out);
    NoWhite();
    var index, opened_ := |out.structs|, out.(structs := out.structs + [S.LayoutStruct(file, item.name, [])]);
    FieldsStep(file, h, item, 0, rest, "\n", index, opened_);
    GoodAppend(head, fields);
    assert [] + SlotsIn(h, item, 0) == SlotsIn(h, item, 0);
    assert opened_.structs[index := MirrorOf(file, h, item)] == out.structs + [MirrorOf(file, h, item)];
  }
}
