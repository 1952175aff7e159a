/** The comparison of C# declarations with a C header. */
module SurfaceCheck {
  import opened Wrappers
  import opened Text
  import opened Header
  import opened Surface
  import opened Ordering

  /** The file of a declaration, and its name in the header. */
  datatype At = At(file: string, name: string)

  datatype Difference = OtherType(found: string, expected: string) | NoType(error: TypeError)

  datatype Problem =
    | NotImported(name: string)
    | ImportedOften(name: string, files: seq<string>)
    | ParameterCount(at: At, found: nat, expected: nat)
    | ReturnDiffers(at: At, difference: Difference)
    | ParameterDiffers(at: At, param: string, difference: Difference)
    | NotDeclared(at: At)
    | MayNotSuppress(at: At)
    | StructCount(name: string, count: nat)
    | FieldCount(at: At, found: nat, expected: nat)
    | FieldName(at: At, field: string, name: string)
    | FieldBuffer(at: At, field: string, length: Option<nat>, wanted: Option<nat>)
    | FieldDiffers(at: At, field: string, difference: Difference)
    | MirrorsNoStruct(at: At)
    | EnumCount(name: string, count: nat)
    | BackedBy(at: At, ty: string, wantedType: string)
    | BackingUnknown(at: At)
    | NoMember(at: At, member: string, value: int)
    | MemberIs(at: At, member: string, value: int, wantedValue: int)
    | NoVariant(at: At, member: string, value: int)
    | MirrorsNoEnum(at: At)

  // ----- What is a difference -----

  function TypeDifference(h: Header, ty: CType, position: Position, found: string): Option<Difference>
    requires Acyclic(h)
  {
    match CsType(h, ty, position)
    case Ok(wanted) => if CanonicalOf(wanted) == CanonicalOf(found) then None else Some(OtherType(found, wanted))
    case Err(e) => Some(NoType(e))
  }

  ghost predicate ParamDiffers(h: Header, at: At, param: Param, slot: Slot, p: Problem)
    requires Acyclic(h)
  {
    var d := TypeDifference(h, param.ty, Parameter, slot.ty);
    d.Some? && p == ParameterDiffers(at, param.name, d.value)
  }

  ghost predicate ReturnIs(h: Header, at: At, ty: CType, found: string, p: Problem)
    requires Acyclic(h)
  {
    var d := TypeDifference(h, ty, Return, found);
    d.Some? && p == ReturnDiffers(at, d.value)
  }

  ghost predicate ParamsDiffer(h: Header, at: At, params: seq<Param>, slots: seq<Slot>, count: nat, p: Problem)
    requires Acyclic(h) && count <= |params| && count <= |slots|
  {
    exists k :: 0 <= k < count && ParamDiffers(h, at, params[k], slots[k], p)
  }

  ghost predicate ImportDiffers(h: Header, f: Prototype, i: Import, p: Problem)
    requires Acyclic(h)
  {
    var at, expected := At(i.file, f.name), |f.signature.params|;
    if |i.params| != expected then p == ParameterCount(at, |i.params|, expected)
    else ReturnIs(h, at, f.signature.result, i.result, p) || ParamsDiffer(h, at, f.signature.params, i.params, expected, p)
  }

  /** The items of a name. */
  function OfName<T>(items: seq<T>, nameOf: T -> string, name: string): (r: seq<T>)
    ensures forall i :: i in r ==> i in items && nameOf(i) == name
  {
    if items == [] then []
    else
      var last := items[|items| - 1];
      OfName(items[..|items| - 1], nameOf, name) + if nameOf(last) == name then [last] else []
  }

  function SymbolOf(i: Import): string { i.symbol }

  function StructName(s: LayoutStruct): string { s.name }

  function EnumName(e: CsEnum): string { e.name }

  function Files(imports: seq<Import>): (r: seq<string>)
    ensures |r| == |imports| && forall k :: 0 <= k < |r| ==> r[k] == imports[k].file
  {
    seq(|imports|, k requires 0 <= k < |imports| => imports[k].file)
  }

  ghost predicate FunctionDiffers(h: Header, d: Declarations, f: Prototype, p: Problem)
    requires Acyclic(h)
  {
    var found := OfName(d.imports, SymbolOf, f.name);
    if found == [] then p == NotImported(f.name)
    else if |found| == 1 then ImportDiffers(h, f, found[0], p)
    else p == ImportedOften(f.name, Files(found))
  }

  predicate Declares(h: Header, symbol: string) { exists f :: f in h.functions && f.name == symbol }

  predicate Suppresses(i: Import) { exists a :: a in i.attributes && a.name == "SuppressGCTransition" }

  predicate MaySuppress(symbol: string) { symbol in SUPPRESS_GC_TRANSITION }

  ghost predicate ImportUnwanted(h: Header, i: Import, p: Problem) {
    || (p == NotDeclared(At(i.file, i.symbol)) && !Declares(h, i.symbol))
    || (p == MayNotSuppress(At(i.file, i.symbol)) && Suppresses(i) && !MaySuppress(i.symbol))
  }

  function BufferLength(ty: CType): Option<nat> { if ty.Array? then Some(ty.len) else None }

  ghost predicate FieldProblem(h: Header, at: At, field: Param, slot: Slot, p: Problem)
    requires Acyclic(h)
  {
    var d := TypeDifference(h, field.ty, Field, slot.ty);
    || (field.name != slot.name && p == FieldName(at, field.name, slot.name))
    || (BufferLength(field.ty) != slot.fixed_ && p == FieldBuffer(at, field.name, slot.fixed_, BufferLength(field.ty)))
    || (d.Some? && p == FieldDiffers(at, field.name, d.value))
  }

  ghost predicate FieldsDiffer(h: Header, at: At, fields: seq<Param>, slots: seq<Slot>, count: nat, p: Problem)
    requires Acyclic(h) && count <= |fields| && count <= |slots|
  {
    exists k :: 0 <= k < count && FieldProblem(h, at, fields[k], slots[k], p)
  }

  ghost predicate StructDiffers(h: Header, d: Declarations, s: Struct, p: Problem)
    requires Acyclic(h)
  {
    var found := OfName(d.structs, StructName, s.name);
    if |found| != 1 then p == StructCount(s.name, |found|)
    else
      var at := At(found[0].file, s.name);
      if |found[0].fields| != |s.fields| then p == FieldCount(at, |found[0].fields|, |s.fields|)
      else FieldsDiffer(h, at, s.fields, found[0].fields, |s.fields|, p)
  }

  ghost predicate StructUnwanted(h: Header, s: LayoutStruct, p: Problem) {
    p == MirrorsNoStruct(At(s.file, s.name)) && !IsStruct(h, s.name)
  }

  function FirstEnum(enums: seq<Enum>, name: string): Option<Enum> {
    if enums == [] then None else if enums[0].name == name then Some(enums[0]) else FirstEnum(enums[1..], name)
  }

  /** The C# type of an enum's underlying type: of the integer it is a `typedef` of, or `int`. */
  function Underlying(h: Header, name: string): Option<string> {
    match FirstEnum(h.enums, name)
    case None => None
    case Some(e) => if e.underlying.Some? then Primitive(e.underlying.value) else Some("int")
  }

  /** The member of a variant: its name without the name of its enum before it. */
  function MemberName(prefix: string, variant: string): string {
    if StartsWith(variant, prefix) then variant[|prefix|..] else variant
  }

  /** Members and their values, the last of a name. */
  function Values(members: seq<(string, int)>): map<string, int> {
    if members == [] then map[]
    else Values(members[..|members| - 1])[members[|members| - 1].0 := members[|members| - 1].1]
  }

  function Members(e: Enum): (r: seq<(string, int)>)
    ensures |r| == |e.variants|
  {
    seq(|e.variants|, k requires 0 <= k < |e.variants| =>
      (MemberName(e.name + "_", e.variants[k].0), e.variants[k].1))
  }

  ghost predicate BackingDiffers(h: Header, at: At, e: CsEnum, p: Problem) {
    match Underlying(h, at.name)
    case Some(ty) => CanonicalOf(ty) != CanonicalOf(e.underlying) && p == BackedBy(at, e.underlying, ty)
    case None => p == BackingUnknown(at)
  }

  ghost predicate MemberDiffers(at: At, wanted: map<string, int>, actual: map<string, int>, member: string, p: Problem) {
    && member in wanted
    && if member !in actual then p == NoMember(at, member, wanted[member])
       else actual[member] != wanted[member] && p == MemberIs(at, member, actual[member], wanted[member])
  }

  ghost predicate MemberUnwanted(at: At, wanted: map<string, int>, actual: map<string, int>, member: string, p: Problem) {
    member in actual && member !in wanted && p == NoVariant(at, member, actual[member])
  }

  ghost predicate MembersDiffer(at: At, wanted: map<string, int>, actual: map<string, int>, p: Problem) {
    || (exists member :: MemberDiffers(at, wanted, actual, member, p))
    || (exists member :: MemberUnwanted(at, wanted, actual, member, p))
  }

  ghost predicate EnumDiffers(h: Header, d: Declarations, e: Enum, p: Problem) {
    var found := OfName(d.enums, EnumName, e.name);
    if |found| != 1 then p == EnumCount(e.name, |found|)
    else
      var at := At(found[0].file, e.name);
      BackingDiffers(h, at, found[0], p) || MembersDiffer(at, Values(Members(e)), Values(found[0].members), p)
  }

  ghost predicate EnumUnwanted(h: Header, e: CsEnum, p: Problem) {
    p == MirrorsNoEnum(At(e.file, e.name)) && !IsEnum(h, e.name)
  }

  /** That a problem is a difference between a header and some declarations. */
  ghost predicate Differs(h: Header, d: Declarations, p: Problem)
    requires Acyclic(h)
  {
    || (exists k :: 0 <= k < |h.functions| && FunctionDiffers(h, d, h.functions[k], p))
    || (exists k :: 0 <= k < |d.imports| && ImportUnwanted(h, d.imports[k], p))
    || (exists k :: 0 <= k < |h.structs| && StructDiffers(h, d, h.structs[k], p))
    || (exists k :: 0 <= k < |d.structs| && StructUnwanted(h, d.structs[k], p))
    || (exists k :: 0 <= k < |h.enums| && EnumDiffers(h, d, h.enums[k], p))
    || (exists k :: 0 <= k < |d.enums| && EnumUnwanted(h, d.enums[k], p))
  }

  // ----- The problems, in order -----

  function ReturnProblems(h: Header, at: At, ty: CType, found: string): (r: seq<Problem>)
    requires Acyclic(h)
    ensures forall p :: p in r <==> ReturnIs(h, at, ty, found, p)
  {
    var d := TypeDifference(h, ty, Return, found);
    if d.Some? then [ReturnDiffers(at, d.value)] else []
  }

  function ParamProblems(h: Header, at: At, param: Param, slot: Slot): (r: seq<Problem>)
    requires Acyclic(h)
    ensures forall p :: p in r <==> ParamDiffers(h, at, param, slot, p)
  {
    var d := TypeDifference(h, param.ty, Parameter, slot.ty);
    if d.Some? then [ParameterDiffers(at, param.name, d.value)] else []
  }

  /** The problems of the first parameters, in their order. */
  function ParamsProblems(h: Header, at: At, params: seq<Param>, slots: seq<Slot>, count: nat): (r: seq<Problem>)
    requires Acyclic(h) && count <= |params| && count <= |slots|
    ensures forall p :: p in r <==> ParamsDiffer(h, at, params, slots, count, p)
  {
    if count == 0 then []
    else ParamsProblems(h, at, params, slots, count - 1) + ParamProblems(h, at, params[count - 1], slots[count - 1])
  }

  function ImportProblems(h: Header, f: Prototype, i: Import): (r: seq<Problem>)
    requires Acyclic(h)
    ensures forall p :: p in r <==> ImportDiffers(h, f, i, p)
  {
    var at, expected := At(i.file, f.name), |f.signature.params|;
    if |i.params| != expected then [ParameterCount(at, |i.params|, expected)]
    else
      ReturnProblems(h, at, f.signature.result, i.result)
      + ParamsProblems(h, at, f.signature.params, i.params, expected)
  }

  function FunctionProblems(h: Header, d: Declarations, f: Prototype): (r: seq<Problem>)
    requires Acyclic(h)
    ensures forall p :: p in r <==> FunctionDiffers(h, d, f, p)
  {
    var found := OfName(d.imports, SymbolOf, f.name);
    if found == [] then [NotImported(f.name)]
    else if |found| == 1 then ImportProblems(h, f, found[0])
    else [ImportedOften(f.name, Files(found))]
  }

  function FunctionsProblems(h: Header, d: Declarations, count: nat): (r: seq<Problem>)
    requires Acyclic(h) && count <= |h.functions|
    ensures forall p :: p in r <==> exists k :: 0 <= k < count && FunctionDiffers(h, d, h.functions[k], p)
  {
    if count == 0 then [] else FunctionsProblems(h, d, count - 1) + FunctionProblems(h, d, h.functions[count - 1])
  }

  function UnwantedProblems(h: Header, i: Import): (r: seq<Problem>)
    ensures forall p :: p in r <==> ImportUnwanted(h, i, p)
  {
    var at := At(i.file, i.symbol);
    (if Declares(h, i.symbol) then [] else [NotDeclared(at)])
    + if Suppresses(i) && !MaySuppress(i.symbol) then [MayNotSuppress(at)] else []
  }

  function ImportsProblems(h: Header, d: Declarations, count: nat): (r: seq<Problem>)
    requires count <= |d.imports|
    ensures forall p :: p in r <==> exists k :: 0 <= k < count && ImportUnwanted(h, d.imports[k], p)
  {
    if count == 0 then [] else ImportsProblems(h, d, count - 1) + UnwantedProblems(h, d.imports[count - 1])
  }

  function FieldProblems(h: Header, at: At, field: Param, slot: Slot): (r: seq<Problem>)
    requires Acyclic(h)
    ensures forall p :: p in r <==> FieldProblem(h, at, field, slot, p)
  {
    var d, length := TypeDifference(h, field.ty, Field, slot.ty), BufferLength(field.ty);
    (if field.name != slot.name then [FieldName(at, field.name, slot.name)] else [])
    + (if length != slot.fixed_ then [FieldBuffer(at, field.name, slot.fixed_, length)] else [])
    + if d.Some? then [FieldDiffers(at, field.name, d.value)] else []
  }

  function FieldsProblems(h: Header, at: At, fields: seq<Param>, slots: seq<Slot>, count: nat): (r: seq<Problem>)
    requires Acyclic(h) && count <= |fields| && count <= |slots|
  {
    if count == 0 then []
    else FieldsProblems(h, at, fields, slots, count - 1) + FieldProblems(h, at, fields[count - 1], slots[count - 1])
  }

  lemma {:induction false} FieldsAreDifferent(h: Header, at: At, fields: seq<Param>, slots: seq<Slot>, count: nat)
    requires Acyclic(h) && count <= |fields| && count <= |slots|
    ensures forall p :: p in FieldsProblems(h, at, fields, slots, count) <==> FieldsDiffer(h, at, fields, slots, count, p)
  {
    hide FieldProblems, FieldProblem, Acyclic;
    if count > 0 { FieldsAreDifferent(h, at, fields, slots, count - 1); }
  }

  function StructProblems(h: Header, d: Declarations, s: Struct): (r: seq<Problem>)
    requires Acyclic(h)
    ensures forall p :: p in r <==> StructDiffers(h, d, s, p)
  {
    var found := OfName(d.structs, StructName, s.name);
    if |found| != 1 then [StructCount(s.name, |found|)]
    else
      var at, m := At(found[0].file, s.name), found[0];
      if |m.fields| != |s.fields| then [FieldCount(at, |m.fields|, |s.fields|)]
      else
        FieldsAreDifferent(h, at, s.fields, m.fields, |s.fields|);
        FieldsProblems(h, at, s.fields, m.fields, |s.fields|)
  }

  function StructsProblems(h: Header, d: Declarations, count: nat): (r: seq<Problem>)
    requires Acyclic(h) && count <= |h.structs|
  {
    if count == 0 then [] else StructsProblems(h, d, count - 1) + StructProblems(h, d, h.structs[count - 1])
  }

  lemma {:induction false} StructsDiffer(h: Header, d: Declarations, count: nat)
    requires Acyclic(h) && count <= |h.structs|
    ensures forall p :: p in StructsProblems(h, d, count)
              <==> exists k :: 0 <= k < count && StructDiffers(h, d, h.structs[k], p)
  {
    hide StructProblems, StructDiffers, Acyclic;
    if count > 0 { StructsDiffer(h, d, count - 1); }
  }

  function MirrorsProblems(h: Header, d: Declarations, count: nat): (r: seq<Problem>)
    requires count <= |d.structs|
    ensures forall p :: p in r <==> exists k :: 0 <= k < count && StructUnwanted(h, d.structs[k], p)
  {
    if count == 0 then []
    else
      var m := d.structs[count - 1];
      MirrorsProblems(h, d, count - 1) + if IsStruct(h, m.name) then [] else [MirrorsNoStruct(At(m.file, m.name))]
  }

  function BackingProblems(h: Header, at: At, e: CsEnum): (r: seq<Problem>)
    ensures forall p :: p in r <==> BackingDiffers(h, at, e, p)
  {
    match Underlying(h, at.name)
    case None => [BackingUnknown(at)]
    case Some(ty) => if CanonicalOf(ty) != CanonicalOf(e.underlying) then [BackedBy(at, e.underlying, ty)] else []
  }

  function MemberProblems(at: At, wanted: map<string, int>, actual: map<string, int>, member: string): (r: seq<Problem>)
    ensures forall p :: p in r <==> MemberDiffers(at, wanted, actual, member, p)
  {
    if member !in wanted then []
    else if member !in actual then [NoMember(at, member, wanted[member])]
    else if actual[member] != wanted[member] then [MemberIs(at, member, actual[member], wanted[member])]
    else []
  }

  function VariantProblems(at: At, wanted: map<string, int>, actual: map<string, int>, member: string): (r: seq<Problem>)
    ensures forall p :: p in r <==> MemberUnwanted(at, wanted, actual, member, p)
  {
    if member in actual && member !in wanted then [NoVariant(at, member, actual[member])] else []
  }

  /** The problems of some wanted members, in the order they are listed. */
  function Missing(at: At, wanted: map<string, int>, actual: map<string, int>, order: seq<string>): (r: seq<Problem>)
    ensures forall p :: p in r <==> exists m :: m in order && MemberDiffers(at, wanted, actual, m, p)
  {
    if order == [] then []
    else Missing(at, wanted, actual, order[..|order| - 1]) + MemberProblems(at, wanted, actual, order[|order| - 1])
  }

  /** The problems of some members found, in the order they are listed. */
  function Extra(at: At, wanted: map<string, int>, actual: map<string, int>, order: seq<string>): (r: seq<Problem>)
    ensures forall p :: p in r <==> exists m :: m in order && MemberUnwanted(at, wanted, actual, m, p)
  {
    if order == [] then []
    else Extra(at, wanted, actual, order[..|order| - 1]) + VariantProblems(at, wanted, actual, order[|order| - 1])
  }

  /** The problems of two maps of members: those wanted, by name, and then those found, by name. */
  ghost function MembersProblems(at: At, wanted: map<string, int>, actual: map<string, int>): (r: seq<Problem>)
    ensures forall p :: p in r <==> MembersDiffer(at, wanted, actual, p)
  {
    Missing(at, wanted, actual, Sorted(wanted.Keys)) + Extra(at, wanted, actual, Sorted(actual.Keys))
  }

  /** The problems of the one C# enum of a name. */
  ghost function MirrorProblems(h: Header, name: string, members: seq<(string, int)>, mirror: CsEnum): seq<Problem> {
    var at := At(mirror.file, name);
    BackingProblems(h, at, mirror) + MembersProblems(at, Values(members), Values(mirror.members))
  }

  ghost function EnumProblems(h: Header, d: Declarations, e: Enum): (r: seq<Problem>)
    ensures forall p :: p in r <==> EnumDiffers(h, d, e, p)
  {
    var found := OfName(d.enums, EnumName, e.name);
    if |found| != 1 then [EnumCount(e.name, |found|)] else MirrorProblems(h, e.name, Members(e), found[0])
  }

  ghost function EnumsProblems(h: Header, d: Declarations, count: nat): (r: seq<Problem>)
    requires count <= |h.enums|
  {
    if count == 0 then [] else EnumsProblems(h, d, count - 1) + EnumProblems(h, d, h.enums[count - 1])
  }

  lemma {:induction false} EnumsDiffer(h: Header, d: Declarations, count: nat)
    requires count <= |h.enums|
    ensures forall p :: p in EnumsProblems(h, d, count)
              <==> exists k :: 0 <= k < count && EnumDiffers(h, d, h.enums[k], p)
  {
    hide EnumProblems, EnumDiffers;
    if count > 0 { EnumsDiffer(h, d, count - 1); }
  }

  function OthersProblems(h: Header, d: Declarations, count: nat): (r: seq<Problem>)
    requires count <= |d.enums|
    ensures forall p :: p in r <==> exists k :: 0 <= k < count && EnumUnwanted(h, d.enums[k], p)
  {
    if count == 0 then []
    else
      var m := d.enums[count - 1];
      OthersProblems(h, d, count - 1) + if IsEnum(h, m.name) then [] else [MirrorsNoEnum(At(m.file, m.name))]
  }

  /** Every problem, in the order the comparison reports them. */
  ghost function Problems(h: Header, d: Declarations): (r: seq<Problem>)
    requires Acyclic(h)
  {
    FunctionsProblems(h, d, |h.functions|) + ImportsProblems(h, d, |d.imports|)
    + StructsProblems(h, d, |h.structs|) + MirrorsProblems(h, d, |d.structs|)
    + EnumsProblems(h, d, |h.enums|) + OthersProblems(h, d, |d.enums|)
  }

  /** The problems reported are the differences. */
  lemma ProblemsDiffer(h: Header, d: Declarations)
    requires Acyclic(h)
    ensures forall p :: p in Problems(h, d) <==> Differs(h, d, p)
  {
    hide FunctionDiffers, ImportUnwanted, StructDiffers, StructUnwanted, EnumDiffers, EnumUnwanted, Acyclic;
    hide FunctionsProblems, ImportsProblems, StructsProblems, MirrorsProblems, EnumsProblems, OthersProblems;
    StructsDiffer(h, d, |h.structs|);
    EnumsDiffer(h, d, |h.enums|);
    var functions, imports := FunctionsProblems(h, d, |h.functions|), ImportsProblems(h, d, |d.imports|);
    var structs, mirrors := StructsProblems(h, d, |h.structs|), MirrorsProblems(h, d, |d.structs|);
    var enums, others := EnumsProblems(h, d, |h.enums|), OthersProblems(h, d, |d.enums|);
    var all := functions + imports + structs + mirrors + enums + others;
    assert Problems(h, d) == all;
    assert forall p :: p in all <==>
      p in functions || p in imports || p in structs || p in mirrors || p in enums || p in others;
  }

  // ----- The comparison -----

  method Imported(imports: seq<Import>) returns (imported: map<string, seq<Import>>)
    ensures forall s :: s in imported ==> imported[s] == OfName(imports, SymbolOf, s)
    ensures forall s :: s !in imported ==> OfName(imports, SymbolOf, s) == []
  {
    hide OfName;
    imported := map[];
    NoItems<Import>(SymbolOf);
    for k := 0 to |imports|
      invariant forall s :: s in imported ==> imported[s] == OfName(imports[..k], SymbolOf, s)
      invariant forall s :: s !in imported ==> OfName(imports[..k], SymbolOf, s) == []
    {
      var i := imports[k];
      NextItem(imports, SymbolOf, k);
      imported := imported[i.symbol := (if i.symbol in imported then imported[i.symbol] else []) + [i]];
    }
    assert imports[..|imports|] == imports;
  }

  lemma NoItems<T>(nameOf: T -> string)
    ensures forall name :: OfName([], nameOf, name) == []
  {
  }

  lemma NextItem<T>(items: seq<T>, nameOf: T -> string, k: nat)
    requires k < |items|
    ensures forall name :: OfName(items[..k + 1], nameOf, name) ==
              OfName(items[..k], nameOf, name) + if nameOf(items[k]) == name then [items[k]] else []
  {
    var now := items[..k + 1];
    assert now[..|now| - 1] == items[..k] && now[|now| - 1] == items[k];
  }

  method Check(h: Header, d: Declarations) returns (problems: seq<Problem>)
    requires Acyclic(h)
    ensures problems == Problems(h, d)
    ensures forall p :: p in problems <==> Differs(h, d, p)
    ensures problems == [] <==> Agree(h, d)
  {
    hide Differs, Agree, Acyclic, FunctionsProblems, ImportsProblems, StructsProblems, MirrorsProblems;
    hide EnumsProblems, OthersProblems;
    problems := CheckFunctions(h, d);
    problems := CheckImports(h, d, problems);
    problems := CompareStructs(h, d, problems);
    problems := CompareEnums(h, d, problems);
    ProblemsDiffer(h, d);
    NoneDiffers(h, d);
    assert problems == [] <==> forall p :: p !in problems by {
      assert problems != [] ==> problems[0] in problems;
    }
  }

  method CheckFunctions(h: Header, d: Declarations) returns (problems: seq<Problem>)
    requires Acyclic(h)
    ensures problems == FunctionsProblems(h, d, |h.functions|)
  {
    hide OfName, Files, Acyclic, ImportProblems;
    var imported := Imported(d.imports);
    problems := [];
    for n := 0 to |h.functions|
      invariant problems == FunctionsProblems(h, d, n)
    {
      var f := h.functions[n];
      if f.name !in imported || imported[f.name] == [] {
        problems := problems + [NotImported(f.name)];
      } else if |imported[f.name]| == 1 {
        problems := CompareImport(h, f, imported[f.name][0], problems);
      } else {
        problems := problems + [ImportedOften(f.name, Files(imported[f.name]))];
      }
    }
  }

  method CompareImport(h: Header, f: Prototype, i: Import, problems: seq<Problem>) returns (out: seq<Problem>)
    requires Acyclic(h)
    ensures out == problems + ImportProblems(h, f, i)
  {
    hide TypeDifference, Acyclic;
    var at := At(i.file, f.name);
    var expected := |f.signature.params|;
    if |i.params| != expected { return problems + [ParameterCount(at, |i.params|, expected)]; }
    out := problems;
    var difference := TypeDifference(h, f.signature.result, Return, i.result);
    if difference.Some? { out := out + [ReturnDiffers(at, difference.value)]; }
    ghost var head := ReturnProblems(h, at, f.signature.result, i.result);
    for n := 0 to expected
      invariant out == problems + (head + ParamsProblems(h, at, f.signature.params, i.params, n))
    {
      difference := TypeDifference(h, f.signature.params[n].ty, Parameter, i.params[n].ty);
      if difference.Some? { out := out + [ParameterDiffers(at, f.signature.params[n].name, difference.value)]; }
    }
  }

  method CheckImports(h: Header, d: Declarations, problems: seq<Problem>) returns (out: seq<Problem>)
    ensures out == problems + ImportsProblems(h, d, |d.imports|)
  {
    hide Declares, Suppresses, MaySuppress;
    out := problems;
    for n := 0 to |d.imports|
      invariant out == problems + ImportsProblems(h, d, n)
    {
      var i := d.imports[n];
      var at := At(i.file, i.symbol);
      if !Declares(h, i.symbol) { out := out + [NotDeclared(at)]; }
      if Suppresses(i) && !MaySuppress(i.symbol) { out := out + [MayNotSuppress(at)]; }
    }
  }

  method CompareStructs(h: Header, d: Declarations, problems: seq<Problem>) returns (out: seq<Problem>)
    requires Acyclic(h)
    ensures out == problems + StructsProblems(h, d, |h.structs|) + MirrorsProblems(h, d, |d.structs|)
  {
    hide OfName, FieldsProblems, StructsProblems, IsStruct, Acyclic, StructDiffers, StructUnwanted;
    NoStructs(h, d);
    out := problems;
    for n := 0 to |h.structs|
      invariant out == problems + StructsProblems(h, d, n)
    {
      var item := h.structs[n];
      var mirrors := OfName(d.structs, StructName, item.name);
      NextStruct(h, d, n, problems);
      if |mirrors| != 1 {
        out := out + [StructCount(item.name, |mirrors|)];
        continue;
      }
      var mirror, at := mirrors[0], At(mirrors[0].file, item.name);
      if |mirror.fields| != |item.fields| {
        out := out + [FieldCount(at, |mirror.fields|, |item.fields|)];
        continue;
      }
      out := CompareFields(h, at, item.fields, mirror.fields, out);
    }
    ghost var some := out;
    for n := 0 to |d.structs|
      invariant out == some + MirrorsProblems(h, d, n)
    {
      var mirror := d.structs[n];
      if !IsStruct(h, mirror.name) { out := out + [MirrorsNoStruct(At(mirror.file, mirror.name))]; }
    }
  }

  lemma NoStructs(h: Header, d: Declarations)
    requires Acyclic(h)
    ensures StructsProblems(h, d, 0) == []
  {
  }

  lemma NextStruct(h: Header, d: Declarations, n: nat, problems: seq<Problem>)
    requires Acyclic(h) && n < |h.structs|
    ensures problems + StructsProblems(h, d, n + 1)
         == problems + StructsProblems(h, d, n) + StructProblems(h, d, h.structs[n])
  {
    hide StructProblems, Acyclic;
  }

  method CompareFields(h: Header, at: At, fields: seq<Param>, slots: seq<Slot>, problems: seq<Problem>)
    returns (out: seq<Problem>)
    requires Acyclic(h) && |fields| == |slots|
    ensures out == problems + FieldsProblems(h, at, fields, slots, |fields|)
  {
    hide TypeDifference, BufferLength, FieldProblem, FieldProblems, FieldsProblems, FieldsDiffer, Acyclic;
    NoFields(h, at, fields, slots);
    out := problems;
    for n := 0 to |fields|
      invariant out == problems + FieldsProblems(h, at, fields, slots, n)
    {
      var field, slot := fields[n], slots[n];
      ghost var before := out;
      if field.name != slot.name { out := out + [FieldName(at, field.name, slot.name)]; }
      var length := BufferLength(field.ty);
      if length != slot.fixed_ { out := out + [FieldBuffer(at, field.name, slot.fixed_, length)]; }
      var difference := TypeDifference(h, field.ty, Field, slot.ty);
      if difference.Some? { out := out + [FieldDiffers(at, field.name, difference.value)]; }
      FieldReported(h, at, field, slot, before);
      NextField(h, at, fields, slots, n, problems);
    }
  }

  lemma FieldReported(h: Header, at: At, field: Param, slot: Slot, before: seq<Problem>)
    requires Acyclic(h)
    ensures var d, length := TypeDifference(h, field.ty, Field, slot.ty), BufferLength(field.ty);
            var named := before + if field.name != slot.name then [FieldName(at, field.name, slot.name)] else [];
            var sized := named + if length != slot.fixed_ then [FieldBuffer(at, field.name, slot.fixed_, length)] else [];
            before + FieldProblems(h, at, field, slot)
            == sized + if d.Some? then [FieldDiffers(at, field.name, d.value)] else []
  {
    hide TypeDifference, BufferLength, FieldProblem, Acyclic;
  }

  lemma NoFields(h: Header, at: At, fields: seq<Param>, slots: seq<Slot>)
    requires Acyclic(h)
    ensures FieldsProblems(h, at, fields, slots, 0) == []
  {
  }

  lemma NextField(h: Header, at: At, fields: seq<Param>, slots: seq<Slot>, n: nat, problems: seq<Problem>)
    requires Acyclic(h) && n < |fields| == |slots|
    ensures problems + FieldsProblems(h, at, fields, slots, n + 1)
         == problems + FieldsProblems(h, at, fields, slots, n) + FieldProblems(h, at, fields[n], slots[n])
  {
    hide FieldProblems, Acyclic;
  }

  method CompareEnums(h: Header, d: Declarations, problems: seq<Problem>) returns (out: seq<Problem>)
    ensures out == problems + EnumsProblems(h, d, |h.enums|) + OthersProblems(h, d, |d.enums|)
  {
    hide OfName, MirrorProblems, IsEnum, Members, EnumDiffers, EnumUnwanted;
    out := problems;
    for n := 0 to |h.enums|
      invariant out == problems + EnumsProblems(h, d, n)
    {
      var item := h.enums[n];
      var mirrors := OfName(d.enums, EnumName, item.name);
      ghost var reported := EnumsProblems(h, d, n);
      assert EnumsProblems(h, d, n + 1) == reported + EnumProblems(h, d, item);
      if |mirrors| != 1 {
        out := out + [EnumCount(item.name, |mirrors|)];
        assert out == problems + (reported + [EnumCount(item.name, |mirrors|)]);
        continue;
      }
      ghost var both := MirrorProblems(h, item.name, Members(item), mirrors[0]);
      assert EnumProblems(h, d, item) == both;
      out := CompareMirror(h, item, mirrors[0], out);
      assert out == problems + (reported + both);
    }
    ghost var some := out;
    for n := 0 to |d.enums|
      invariant out == some + OthersProblems(h, d, n)
    {
      var mirror := d.enums[n];
      if !IsEnum(h, mirror.name) { out := out + [MirrorsNoEnum(At(mirror.file, mirror.name))]; }
    }
  }

  /** Compares an enum with the one C# enum of its name. */
  method CompareMirror(h: Header, item: Enum, mirror: CsEnum, problems: seq<Problem>) returns (out: seq<Problem>)
    ensures out == problems + MirrorProblems(h, item.name, Members(item), mirror)
  {
    hide MembersProblems, BackingDiffers, MembersDiffer, Underlying, CanonicalOf, Values, Members;
    var at, underlying := At(mirror.file, item.name), Underlying(h, item.name);
    out := problems;
    if underlying.None? {
      out := out + [BackingUnknown(at)];
    } else if CanonicalOf(underlying.value) != CanonicalOf(mirror.underlying) {
      out := out + [BackedBy(at, mirror.underlying, underlying.value)];
    }
    assert out == problems + BackingProblems(h, at, mirror);
    out := CompareMembers(at, Values(Members(item)), Values(mirror.members), out);
  }

  method CompareMembers(at: At, wanted: map<string, int>, actual: map<string, int>, problems: seq<Problem>)
    returns (out: seq<Problem>)
    ensures out == problems + MembersProblems(at, wanted, actual)
  {
    hide Missing, Extra, Sorted;
    out := CompareWanted(at, wanted, actual, problems);
    out := CompareFound(at, wanted, actual, out);
  }

  /** The members of a C# enum, by name. */
  method CompareFound(at: At, wanted: map<string, int>, actual: map<string, int>, problems: seq<Problem>)
    returns (out: seq<Problem>)
    ensures out == problems + Extra(at, wanted, actual, Sorted(actual.Keys))
  {
    hide IsFirst, Sorted, Extra;
    out := problems;
    NextExtra(at, wanted, actual, [], "");
    ghost var done: seq<string> := [];
    var left := actual.Keys;
    while left != {}
      invariant left <= actual.Keys && Sorted(actual.Keys) == done + Sorted(left)
      invariant out == problems + Extra(at, wanted, actual, done)
    {
      var member := FirstOf(left);
      SortedFirst(member, left);
      NextExtra(at, wanted, actual, done, member);
      left, done := left - {member}, done + [member];
      if member !in wanted { out := out + [NoVariant(at, member, actual[member])]; }
    }
    NoneSorted();
    assert done + [] == done;
  }

  /** The members of a header's enum, by name. */
  method CompareWanted(at: At, wanted: map<string, int>, actual: map<string, int>, problems: seq<Problem>)
    returns (out: seq<Problem>)
    ensures out == problems + Missing(at, wanted, actual, Sorted(wanted.Keys))
  {
    hide IsFirst, Sorted, Missing;
    out := problems;
    var left := wanted.Keys;
    ghost var done: seq<string> := [];
    NextMissing(at, wanted, actual, done, "");
    while left != {}
      invariant left <= wanted.Keys && Sorted(wanted.Keys) == done + Sorted(left)
      invariant out == problems + Missing(at, wanted, actual, done)
    {
      var member := FirstOf(left);
      SortedFirst(member, left);
      NextMissing(at, wanted, actual, done, member);
      left, done := left - {member}, done + [member];
      if member !in actual {
        out := out + [NoMember(at, member, wanted[member])];
      } else if actual[member] != wanted[member] {
        out := out + [MemberIs(at, member, actual[member], wanted[member])];
      }
    }
    NoneSorted();
    assert done + [] == done;
  }

  lemma NextMissing(at: At, wanted: map<string, int>, actual: map<string, int>, done: seq<string>, member: string)
    ensures Missing(at, wanted, actual, []) == []
    ensures Missing(at, wanted, actual, done + [member])
         == Missing(at, wanted, actual, done) + MemberProblems(at, wanted, actual, member)
  {
    assert (done + [member])[..|done|] == done;
  }

  lemma NextExtra(at: At, wanted: map<string, int>, actual: map<string, int>, done: seq<string>, member: string)
    ensures Extra(at, wanted, actual, []) == []
    ensures Extra(at, wanted, actual, done + [member])
         == Extra(at, wanted, actual, done) + VariantProblems(at, wanted, actual, member)
  {
    assert (done + [member])[..|done|] == done;
  }

  lemma NoneSorted()
    ensures Sorted({}) == []
  {
  }

  /** The first of some names, which a `BTreeMap` gives first. */
  method FirstOf(names: set<string>) returns (first: string)
    requires names != {}
    ensures IsFirst(first, names)
  {
    FirstExists(names);
    first :| first in names && IsFirst(first, names);
  }

  // ----- The agreement -----

  ghost predicate TypeAgrees(h: Header, ty: CType, position: Position, found: string)
    requires Acyclic(h)
  {
    var wanted := CsType(h, ty, position);
    wanted.Ok? && TypeTokens(wanted.value) == TypeTokens(found)
  }

  ghost predicate ImportAgrees(h: Header, f: Prototype, i: Import)
    requires Acyclic(h)
  {
    && TypeAgrees(h, f.signature.result, Return, i.result)
    && |i.params| == |f.signature.params|
    && forall k :: 0 <= k < |i.params| ==> TypeAgrees(h, f.signature.params[k].ty, Parameter, i.params[k].ty)
  }

  ghost predicate ImportWanted(h: Header, i: Import) {
    Declares(h, i.symbol) && (Suppresses(i) ==> MaySuppress(i.symbol))
  }

  ghost predicate FieldAgrees(h: Header, field: Param, slot: Slot)
    requires Acyclic(h)
  {
    && slot.name == field.name && slot.fixed_ == BufferLength(field.ty) && TypeAgrees(h, field.ty, Field, slot.ty)
  }

  ghost predicate StructAgrees(h: Header, s: Struct, m: LayoutStruct)
    requires Acyclic(h)
  {
    && |m.fields| == |s.fields|
    && forall k :: 0 <= k < |s.fields| ==> FieldAgrees(h, s.fields[k], m.fields[k])
  }

  ghost predicate BackingAgrees(h: Header, name: string, m: CsEnum) {
    Underlying(h, name).Some? && TypeTokens(Underlying(h, name).value) == TypeTokens(m.underlying)
  }

  ghost predicate EnumAgrees(h: Header, e: Enum, m: CsEnum) {
    && BackingAgrees(h, e.name, m)
    && Values(Members(e)) == Values(m.members)
  }

  /** That one item is of a name, and only that one. */
  ghost predicate Only<T>(items: seq<T>, nameOf: T -> string, name: string, i: int) {
    0 <= i < |items| && forall j :: 0 <= j < |items| ==> (nameOf(items[j]) == name <==> j == i)
  }

  /** That one import, and only one, is of a function, and agrees with it. */
  ghost predicate ImportedOnce(h: Header, d: Declarations, f: Prototype)
    requires Acyclic(h)
  {
    exists i :: Only(d.imports, SymbolOf, f.name, i) && ImportAgrees(h, f, d.imports[i])
  }

  ghost predicate StructOnce(h: Header, d: Declarations, s: Struct)
    requires Acyclic(h)
  {
    exists i :: Only(d.structs, StructName, s.name, i) && StructAgrees(h, s, d.structs[i])
  }

  ghost predicate EnumOnce(h: Header, d: Declarations, e: Enum) {
    exists i :: Only(d.enums, EnumName, e.name, i) && EnumAgrees(h, e, d.enums[i])
  }

  /** That declarations are a header's: one agreeing declaration for each of its functions, structs
      and enums and none for anything else, and no import skips the transition that may not. */
  ghost predicate Agree(h: Header, d: Declarations)
    requires Acyclic(h)
  {
    && (forall f :: f in h.functions ==> ImportedOnce(h, d, f))
    && (forall i :: i in d.imports ==> ImportWanted(h, i))
    && (forall s :: s in h.structs ==> StructOnce(h, d, s))
    && (forall m :: m in d.structs ==> IsStruct(h, m.name))
    && (forall e :: e in h.enums ==> EnumOnce(h, d, e))
    && (forall m :: m in d.enums ==> IsEnum(h, m.name))
  }

  lemma {:induction false} NoneOfName<T>(items: seq<T>, nameOf: T -> string, name: string)
    requires forall j :: 0 <= j < |items| ==> nameOf(items[j]) != name
    ensures OfName(items, nameOf, name) == []
  {
    if items != [] { NoneOfName(items[..|items| - 1], nameOf, name); }
  }

  lemma {:induction false} OnlyOfName<T>(items: seq<T>, nameOf: T -> string, name: string, i: int)
    requires Only(items, nameOf, name, i)
    ensures OfName(items, nameOf, name) == [items[i]]
  {
    var last := |items| - 1;
    if i == last {
      NoneOfName(items[..last], nameOf, name);
    } else {
      assert nameOf(items[last]) != name;
      OnlyOfName(items[..last], nameOf, name, i);
    }
  }

  /** If one item of a name is found, there is only that one. */
  lemma {:induction false} FoundIsOnly<T>(items: seq<T>, nameOf: T -> string, name: string) returns (i: int)
    requires |OfName(items, nameOf, name)| == 1
    ensures Only(items, nameOf, name, i) && OfName(items, nameOf, name) == [items[i]]
  {
    var last := |items| - 1;
    var most := items[..last];
    if nameOf(items[last]) == name {
      i := last;
      forall j | 0 <= j < last ensures nameOf(items[j]) != name {
        SomeOfName(most, nameOf, name, j);
      }
    } else {
      i := FoundIsOnly(most, nameOf, name);
      assert forall j :: 0 <= j < last ==> items[j] == most[j];
    }
  }

  lemma {:induction false} SomeOfName<T>(items: seq<T>, nameOf: T -> string, name: string, j: nat)
    requires j < |items|
    ensures nameOf(items[j]) == name ==> OfName(items, nameOf, name) != []
  {
    if j < |items| - 1 { SomeOfName(items[..|items| - 1], nameOf, name, j); }
  }

  /** One item of a name is found if and only if there is only one. */
  lemma OneOfName<T>(items: seq<T>, nameOf: T -> string, name: string)
    ensures |OfName(items, nameOf, name)| == 1 <==> exists i :: Only(items, nameOf, name, i)
    ensures forall i :: Only(items, nameOf, name, i) ==> OfName(items, nameOf, name) == [items[i]]
  {
    hide OfName;
    if |OfName(items, nameOf, name)| == 1 {
      var i := FoundIsOnly(items, nameOf, name);
    }
    forall i | Only(items, nameOf, name, i) ensures OfName(items, nameOf, name) == [items[i]] {
      OnlyOfName(items, nameOf, name, i);
    }
  }

  lemma TypePart(h: Header, ty: CType, position: Position, found: string)
    requires Acyclic(h)
    ensures TypeDifference(h, ty, position, found).None? <==> TypeAgrees(h, ty, position, found)
  {
    hide CsType, CanonicalOf, TypeTokens, Acyclic;
    if CsType(h, ty, position).Ok? { SameSpelling(CsType(h, ty, position).value, found); }
  }

  lemma ImportPart(h: Header, f: Prototype, i: Import)
    requires Acyclic(h)
    ensures (forall p :: !ImportDiffers(h, f, i, p)) <==> ImportAgrees(h, f, i)
  {
    hide TypeDifference, TypeAgrees, Acyclic;
    var at, params := At(i.file, f.name), f.signature.params;
    TypePart(h, f.signature.result, Return, i.result);
    if |i.params| != |params| {
      assert ImportDiffers(h, f, i, ParameterCount(at, |i.params|, |params|));
    } else if ImportAgrees(h, f, i) {
      forall p ensures !ImportDiffers(h, f, i, p) {
        forall k | 0 <= k < |params| ensures !ParamDiffers(h, at, params[k], i.params[k], p) {
          TypePart(h, params[k].ty, Parameter, i.params[k].ty);
        }
      }
    } else if !TypeAgrees(h, f.signature.result, Return, i.result) {
      var d := TypeDifference(h, f.signature.result, Return, i.result);
      assert ReturnIs(h, at, f.signature.result, i.result, ReturnDiffers(at, d.value));
      assert ImportDiffers(h, f, i, ReturnDiffers(at, d.value));
    } else {
      var k :| 0 <= k < |params| && !TypeAgrees(h, params[k].ty, Parameter, i.params[k].ty);
      TypePart(h, params[k].ty, Parameter, i.params[k].ty);
      var p := ParameterDiffers(at, params[k].name, TypeDifference(h, params[k].ty, Parameter, i.params[k].ty).value);
      assert ParamDiffers(h, at, params[k], i.params[k], p);
      assert ImportDiffers(h, f, i, p);
    }
  }

  lemma FunctionPart(h: Header, d: Declarations, f: Prototype)
    requires Acyclic(h)
    ensures (forall p :: !FunctionDiffers(h, d, f, p)) <==> ImportedOnce(h, d, f)
  {
    hide ImportDiffers, ImportAgrees, OfName, Only, Acyclic;
    OneOfName(d.imports, SymbolOf, f.name);
    var found := OfName(d.imports, SymbolOf, f.name);
    if found == [] {
      assert FunctionDiffers(h, d, f, NotImported(f.name));
    } else if |found| > 1 {
      assert FunctionDiffers(h, d, f, ImportedOften(f.name, Files(found)));
    } else {
      ImportPart(h, f, found[0]);
      assert ImportedOnce(h, d, f) <==> ImportAgrees(h, f, found[0]);
      assert forall p :: FunctionDiffers(h, d, f, p) <==> ImportDiffers(h, f, found[0], p);
    }
  }

  lemma WantedPart(h: Header, i: Import)
    ensures (forall p :: !ImportUnwanted(h, i, p)) <==> ImportWanted(h, i)
  {
    hide Declares, Suppresses, MaySuppress;
    var at := At(i.file, i.symbol);
    if !Declares(h, i.symbol) { assert ImportUnwanted(h, i, NotDeclared(at)); }
    if Suppresses(i) && !MaySuppress(i.symbol) { assert ImportUnwanted(h, i, MayNotSuppress(at)); }
  }

  lemma FieldPart(h: Header, at: At, field: Param, slot: Slot)
    requires Acyclic(h)
    ensures (forall p :: !FieldProblem(h, at, field, slot, p))
      <==> FieldAgrees(h, field, slot)
  {
    hide TypeDifference, TypeAgrees, BufferLength, Acyclic;
    TypePart(h, field.ty, Field, slot.ty);
    var d := TypeDifference(h, field.ty, Field, slot.ty);
    if d.Some? { assert FieldProblem(h, at, field, slot, FieldDiffers(at, field.name, d.value)); }
    if field.name != slot.name { assert FieldProblem(h, at, field, slot, FieldName(at, field.name, slot.name)); }
    if BufferLength(field.ty) != slot.fixed_ {
      assert FieldProblem(h, at, field, slot, FieldBuffer(at, field.name, slot.fixed_, BufferLength(field.ty)));
    }
  }

  lemma FieldsPart(h: Header, at: At, s: Struct, m: LayoutStruct)
    requires Acyclic(h) && |m.fields| == |s.fields|
    ensures (forall p :: !FieldsDiffer(h, at, s.fields, m.fields, |s.fields|, p)) <==> StructAgrees(h, s, m)
  {
    hide FieldProblem, FieldAgrees, Acyclic;
    if StructAgrees(h, s, m) {
      forall p ensures !FieldsDiffer(h, at, s.fields, m.fields, |s.fields|, p) {
        forall k | 0 <= k < |s.fields| ensures !FieldProblem(h, at, s.fields[k], m.fields[k], p) {
          FieldPart(h, at, s.fields[k], m.fields[k]);
        }
      }
    } else {
      var k :| 0 <= k < |s.fields| && !FieldAgrees(h, s.fields[k], m.fields[k]);
      FieldPart(h, at, s.fields[k], m.fields[k]);
      var p :| FieldProblem(h, at, s.fields[k], m.fields[k], p);
      assert FieldsDiffer(h, at, s.fields, m.fields, |s.fields|, p);
    }
  }

  lemma StructPart(h: Header, d: Declarations, s: Struct)
    requires Acyclic(h)
    ensures (forall p :: !StructDiffers(h, d, s, p)) <==> StructOnce(h, d, s)
  {
    hide FieldsDiffer, FieldAgrees, OfName, Only, Acyclic;
    OneOfName(d.structs, StructName, s.name);
    var found := OfName(d.structs, StructName, s.name);
    if |found| != 1 {
      assert StructDiffers(h, d, s, StructCount(s.name, |found|));
    } else {
      var m, at := found[0], At(found[0].file, s.name);
      assert StructOnce(h, d, s) <==> StructAgrees(h, s, m);
      if |m.fields| != |s.fields| {
        assert StructDiffers(h, d, s, FieldCount(at, |m.fields|, |s.fields|));
      } else {
        FieldsPart(h, at, s, m);
        assert forall p :: StructDiffers(h, d, s, p) <==> FieldsDiffer(h, at, s.fields, m.fields, |s.fields|, p);
      }
    }
  }

  lemma MembersPart(at: At, wanted: map<string, int>, actual: map<string, int>)
    ensures (forall p :: !MembersDiffer(at, wanted, actual, p)) <==> wanted == actual
  {
    if wanted != actual {
      if member :| member in wanted && (member !in actual || actual[member] != wanted[member]) {
        var p := if member !in actual then NoMember(at, member, wanted[member])
                 else MemberIs(at, member, actual[member], wanted[member]);
        assert MemberDiffers(at, wanted, actual, member, p);
        assert MembersDiffer(at, wanted, actual, p);
      } else {
        var member :| member in actual && member !in wanted;
        assert MemberUnwanted(at, wanted, actual, member, NoVariant(at, member, actual[member]));
        assert MembersDiffer(at, wanted, actual, NoVariant(at, member, actual[member]));
      }
    }
  }

  lemma BackingPart(h: Header, at: At, e: CsEnum)
    ensures (forall p :: !BackingDiffers(h, at, e, p)) <==> BackingAgrees(h, at.name, e)
  {
    hide Underlying, CanonicalOf, TypeTokens;
    var u := Underlying(h, at.name);
    if u.None? {
      assert BackingDiffers(h, at, e, BackingUnknown(at));
    } else {
      SameSpelling(u.value, e.underlying);
      if CanonicalOf(u.value) != CanonicalOf(e.underlying) {
        assert BackingDiffers(h, at, e, BackedBy(at, e.underlying, u.value));
      }
    }
  }

  lemma EnumPart(h: Header, d: Declarations, e: Enum)
    ensures (forall p :: !EnumDiffers(h, d, e, p)) <==> EnumOnce(h, d, e)
  {
    hide BackingDiffers, MembersDiffer, OfName, Only, Underlying, TypeTokens, Values, Members;
    OneOfName(d.enums, EnumName, e.name);
    var found := OfName(d.enums, EnumName, e.name);
    if |found| != 1 {
      assert EnumDiffers(h, d, e, EnumCount(e.name, |found|));
    } else {
      var m, at := found[0], At(found[0].file, e.name);
      BackingPart(h, at, m);
      MembersPart(at, Values(Members(e)), Values(m.members));
      var wanted, actual := Values(Members(e)), Values(m.members);
      assert forall p :: EnumDiffers(h, d, e, p) <==> BackingDiffers(h, at, m, p) || MembersDiffer(at, wanted, actual, p);
      assert EnumOnce(h, d, e) <==> EnumAgrees(h, e, m);
    }
  }

  lemma FunctionsPart(h: Header, d: Declarations)
    requires Acyclic(h)
    ensures (forall k, p :: 0 <= k < |h.functions| ==> !FunctionDiffers(h, d, h.functions[k], p))
      <==> (forall f :: f in h.functions ==> ImportedOnce(h, d, f))
  {
    hide FunctionDiffers, ImportedOnce, Acyclic;
    forall k | 0 <= k < |h.functions|
      ensures (forall p :: !FunctionDiffers(h, d, h.functions[k], p)) <==> ImportedOnce(h, d, h.functions[k])
    {
      FunctionPart(h, d, h.functions[k]);
    }
  }

  lemma ImportsPart(h: Header, d: Declarations)
    ensures (forall k, p :: 0 <= k < |d.imports| ==> !ImportUnwanted(h, d.imports[k], p))
      <==> (forall i :: i in d.imports ==> ImportWanted(h, i))
  {
    hide ImportUnwanted, ImportWanted;
    forall k | 0 <= k < |d.imports|
      ensures (forall p :: !ImportUnwanted(h, d.imports[k], p)) <==> ImportWanted(h, d.imports[k])
    {
      WantedPart(h, d.imports[k]);
    }
  }

  lemma StructsPart(h: Header, d: Declarations)
    requires Acyclic(h)
    ensures (forall k, p :: 0 <= k < |h.structs| ==> !StructDiffers(h, d, h.structs[k], p))
      <==> (forall s :: s in h.structs ==> StructOnce(h, d, s))
    ensures (forall k, p :: 0 <= k < |d.structs| ==> !StructUnwanted(h, d.structs[k], p))
      <==> (forall m :: m in d.structs ==> IsStruct(h, m.name))
  {
    hide StructDiffers, StructOnce, StructUnwanted, IsStruct, Acyclic;
    forall k | 0 <= k < |h.structs|
      ensures (forall p :: !StructDiffers(h, d, h.structs[k], p)) <==> StructOnce(h, d, h.structs[k])
    {
      StructPart(h, d, h.structs[k]);
    }
    forall k | 0 <= k < |d.structs|
      ensures (forall p :: !StructUnwanted(h, d.structs[k], p)) <==> IsStruct(h, d.structs[k].name)
    {
      MirrorPart(h, d.structs[k]);
    }
  }

  lemma EnumsPart(h: Header, d: Declarations)
    ensures (forall k, p :: 0 <= k < |h.enums| ==> !EnumDiffers(h, d, h.enums[k], p))
      <==> (forall e :: e in h.enums ==> EnumOnce(h, d, e))
    ensures (forall k, p :: 0 <= k < |d.enums| ==> !EnumUnwanted(h, d.enums[k], p))
      <==> (forall m :: m in d.enums ==> IsEnum(h, m.name))
  {
    hide EnumDiffers, EnumOnce, EnumUnwanted, IsEnum;
    forall k | 0 <= k < |h.enums|
      ensures (forall p :: !EnumDiffers(h, d, h.enums[k], p)) <==> EnumOnce(h, d, h.enums[k])
    {
      EnumPart(h, d, h.enums[k]);
    }
    forall k | 0 <= k < |d.enums|
      ensures (forall p :: !EnumUnwanted(h, d.enums[k], p)) <==> IsEnum(h, d.enums[k].name)
    {
      MirrorEnumPart(h, d.enums[k]);
    }
  }

  lemma MirrorPart(h: Header, m: LayoutStruct)
    ensures (forall p :: !StructUnwanted(h, m, p)) <==> IsStruct(h, m.name)
  {
    hide IsStruct;
    assert !IsStruct(h, m.name) ==> StructUnwanted(h, m, MirrorsNoStruct(At(m.file, m.name)));
  }

  lemma MirrorEnumPart(h: Header, m: CsEnum)
    ensures (forall p :: !EnumUnwanted(h, m, p)) <==> IsEnum(h, m.name)
  {
    hide IsEnum;
    assert !IsEnum(h, m.name) ==> EnumUnwanted(h, m, MirrorsNoEnum(At(m.file, m.name)));
  }

  /** Nothing differs if and only if the declarations agree with the header. */
  lemma NoneDiffers(h: Header, d: Declarations)
    requires Acyclic(h)
    ensures (forall p :: !Differs(h, d, p)) <==> Agree(h, d)
  {
    hide FunctionDiffers, ImportedOnce, ImportUnwanted, ImportWanted, StructDiffers, StructOnce, StructUnwanted, IsStruct;
    hide EnumDiffers, EnumOnce, EnumUnwanted, IsEnum, Acyclic;
    FunctionsPart(h, d);
    ImportsPart(h, d);
    StructsPart(h, d);
    EnumsPart(h, d);
    if forall p :: !Differs(h, d, p) {
      forall k, p | 0 <= k < |h.functions| ensures !FunctionDiffers(h, d, h.functions[k], p) { assert !Differs(h, d, p); }
      forall k, p | 0 <= k < |d.imports| ensures !ImportUnwanted(h, d.imports[k], p) { assert !Differs(h, d, p); }
      forall k, p | 0 <= k < |h.structs| ensures !StructDiffers(h, d, h.structs[k], p) { assert !Differs(h, d, p); }
      forall k, p | 0 <= k < |d.structs| ensures !StructUnwanted(h, d.structs[k], p) { assert !Differs(h, d, p); }
      forall k, p | 0 <= k < |h.enums| ensures !EnumDiffers(h, d, h.enums[k], p) { assert !Differs(h, d, p); }
      forall k, p | 0 <= k < |d.enums| ensures !EnumUnwanted(h, d.enums[k], p) { assert !Differs(h, d, p); }
    }
  }
}
