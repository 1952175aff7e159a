/** What the comparison of the two surfaces reports of one function, struct or import that differs. */
module SurfaceProblems {
  import opened Wrappers
  import opened Header
  import opened Surface
  import opened SurfaceCheck

  /** Of a function nobody imports, that; of one imported more than once, the files in their order. */
  lemma ImportsCounted(h: Header, d: Declarations, f: Prototype)
    requires Acyclic(h)
    ensures (forall k :: 0 <= k < |d.imports| ==> d.imports[k].symbol != f.name)
        ==> FunctionProblems(h, d, f) == [NotImported(f.name)]
    ensures |d.imports| == 2 && d.imports[0].symbol == f.name && d.imports[1].symbol == f.name
        ==> FunctionProblems(h, d, f) == [ImportedOften(f.name, [d.imports[0].file, d.imports[1].file])]
  {
    hide ImportProblems, Acyclic;
    if forall k :: 0 <= k < |d.imports| ==> d.imports[k].symbol != f.name {
      NoneOfName(d.imports, SymbolOf, f.name);
    }
    if |d.imports| == 2 && d.imports[0].symbol == f.name && d.imports[1].symbol == f.name {
      TwoOfName(d.imports, f.name);
      assert Files(d.imports) == [d.imports[0].file, d.imports[1].file];
    }
  }

  lemma TwoOfName(imports: seq<Import>, name: string)
    requires |imports| == 2 && imports[0].symbol == name && imports[1].symbol == name
    ensures OfName(imports, SymbolOf, name) == imports
  {
    assert imports[..1] == [imports[0]] && imports[..1][..0] == [];
    assert OfName(imports[..1], SymbolOf, name) == [imports[0]];
    assert imports == [imports[0]] + [imports[1]];
  }

  /** The type an import or a field has, beside the one that the map gives: nothing is reported if they
      are one spelling, and both if they are not. */
  lemma TypesCompared(h: Header, ty: CType, position: Position, found: string)
    requires Acyclic(h)
    ensures TypeDifference(h, ty, position, found)
         == match CsType(h, ty, position)
            case Err(e) => Some(NoType(e))
            case Ok(wanted) => if TypeTokens(found) == TypeTokens(wanted) then None else Some(OtherType(found, wanted))
  {
    hide CsType, CanonicalOf, TypeTokens, Acyclic;
    if CsType(h, ty, position).Ok? { SameSpelling(CsType(h, ty, position).value, found); }
  }

  /** Of an import with another number of parameters, both numbers and nothing else. */
  lemma ParametersCounted(h: Header, f: Prototype, i: Import)
    requires Acyclic(h) && |i.params| != |f.signature.params|
    ensures ImportProblems(h, f, i) == [ParameterCount(At(i.file, f.name), |i.params|, |f.signature.params|)]
  {
    hide ReturnProblems, ParamsProblems, Acyclic;
  }

  /** Of an import with one parameter, its result type and its parameter type are compared. */
  lemma OneParameter(h: Header, f: Prototype, i: Import)
    requires Acyclic(h) && |i.params| == |f.signature.params| == 1
    ensures var result := TypeDifference(h, f.signature.result, Return, i.result);
            var param := TypeDifference(h, f.signature.params[0].ty, Parameter, i.params[0].ty);
            ImportProblems(h, f, i)
            == (if result.Some? then [ReturnDiffers(At(i.file, f.name), result.value)] else [])
               + if param.Some? then [ParameterDiffers(At(i.file, f.name), f.signature.params[0].name, param.value)] else []
  {
    hide TypeDifference, Acyclic;
    var at := At(i.file, f.name);
    assert ParamsProblems(h, at, f.signature.params, i.params, 0) == [];
    assert ParamsProblems(h, at, f.signature.params, i.params, 1)
        == [] + ParamProblems(h, at, f.signature.params[0], i.params[0]);
  }

  /** An import of no function of the header is reported, and one that skips the GC transition though
      it may not. */
  lemma ImportsWanted(h: Header, i: Import)
    ensures var at := At(i.file, i.symbol);
            var declared := exists k :: 0 <= k < |h.functions| && h.functions[k].name == i.symbol;
            var skips := exists k :: 0 <= k < |i.attributes| && i.attributes[k].name == "SuppressGCTransition";
            var may := i.symbol == "zero_abi_version" || i.symbol == "zero_req_view" || i.symbol == "zero_req_method"
                       || i.symbol == "zero_slot_route";
            UnwantedProblems(h, i)
            == (if declared then [] else [NotDeclared(at)]) + if skips && !may then [MayNotSuppress(at)] else []
  {
    MaySuppressIs(i.symbol);
    DeclaredIs(h, i.symbol);
    SuppressesIs(i);
    hide Declares, Suppresses, MaySuppress;
  }

  lemma MaySuppressIs(symbol: string)
    ensures MaySuppress(symbol)
       <==> symbol == "zero_abi_version" || symbol == "zero_req_view" || symbol == "zero_req_method" || symbol == "zero_slot_route"
  {
    var s := SUPPRESS_GC_TRANSITION;
    assert s[0] == "zero_abi_version" && s[1] == "zero_req_view" && s[2] == "zero_req_method" && s[3] == "zero_slot_route";
  }

  lemma DeclaredIs(h: Header, symbol: string)
    ensures Declares(h, symbol) <==> exists k :: 0 <= k < |h.functions| && h.functions[k].name == symbol
  {
    if Declares(h, symbol) {
      var f :| f in h.functions && f.name == symbol;
      var k :| 0 <= k < |h.functions| && h.functions[k] == f;
    }
    forall k | 0 <= k < |h.functions| && h.functions[k].name == symbol ensures Declares(h, symbol) {
      assert h.functions[k] in h.functions;
    }
  }

  lemma SuppressesIs(i: Import)
    ensures Suppresses(i) <==> exists k :: 0 <= k < |i.attributes| && i.attributes[k].name == "SuppressGCTransition"
  {
    if Suppresses(i) {
      var a :| a in i.attributes && a.name == "SuppressGCTransition";
      var k :| 0 <= k < |i.attributes| && i.attributes[k] == a;
    }
    forall k | 0 <= k < |i.attributes| && i.attributes[k].name == "SuppressGCTransition" ensures Suppresses(i) {
      assert i.attributes[k] in i.attributes;
    }
  }

  /** Of a struct without its one sequential struct, how many there are. */
  lemma StructsCounted(h: Header, d: Declarations, s: Struct)
    requires Acyclic(h) && forall k :: 0 <= k < |d.structs| ==> d.structs[k].name != s.name
    ensures StructProblems(h, d, s) == [StructCount(s.name, 0)]
  {
    hide FieldsProblems, FieldsDiffer, Acyclic;
    NoneOfName(d.structs, StructName, s.name);
  }

  /** Of a sequential struct with another number of fields, both numbers and nothing else. */
  lemma FieldsCounted(h: Header, d: Declarations, s: Struct, i: nat)
    requires Acyclic(h) && Only(d.structs, StructName, s.name, i) && |d.structs[i].fields| != |s.fields|
    ensures StructProblems(h, d, s) == [FieldCount(At(d.structs[i].file, s.name), |d.structs[i].fields|, |s.fields|)]
  {
    hide FieldsProblems, FieldsDiffer, Only, OfName, Acyclic;
    OneOfName(d.structs, StructName, s.name);
  }

  /** Of a field, its name, the length of its buffer and its type are compared. */
  lemma FieldCompared(h: Header, at: At, field: Param, slot: Slot)
    requires Acyclic(h)
    ensures var wanted := match field.ty case Array(_, len) => Some(len) case _ => None;
            var type_ := TypeDifference(h, field.ty, Field, slot.ty);
            FieldProblems(h, at, field, slot)
            == (if field.name == slot.name then [] else [FieldName(at, field.name, slot.name)])
               + (if wanted == slot.fixed_ then [] else [FieldBuffer(at, field.name, slot.fixed_, wanted)])
               + if type_.Some? then [FieldDiffers(at, field.name, type_.value)] else []
  {
    hide TypeDifference, Acyclic, FieldProblem;
  }

  /** A sequential struct of no struct of the header, and an enum of no enum, are reported. */
  lemma OthersReported(h: Header, d: Declarations)
    requires |d.structs| == 1 && |d.enums| == 1
    ensures var s, e := d.structs[0], d.enums[0];
            && MirrorsProblems(h, d, 1) == (if IsStruct(h, s.name) then [] else [MirrorsNoStruct(At(s.file, s.name))])
            && OthersProblems(h, d, 1) == if IsEnum(h, e.name) then [] else [MirrorsNoEnum(At(e.file, e.name))]
  {
    hide IsStruct, IsEnum, StructUnwanted, EnumUnwanted;
    assert MirrorsProblems(h, d, 0) == [] && OthersProblems(h, d, 0) == [];
  }

  /** The underlying type of an enum is compared: with none in C#, with another one, or the same. */
  lemma BackingCompared(h: Header, at: At, e: CsEnum)
    ensures BackingProblems(h, at, e)
         == match Underlying(h, at.name)
            case None => [BackingUnknown(at)]
            case Some(ty) => if TypeTokens(e.underlying) == TypeTokens(ty) then [] else [BackedBy(at, e.underlying, ty)]
  {
    hide Underlying, CanonicalOf, TypeTokens, BackingDiffers;
    if Underlying(h, at.name).Some? { SameSpelling(Underlying(h, at.name).value, e.underlying); }
  }

  /** The order of the report: functions, imports, structs, sequential structs, enums, C# enums. */
  lemma ReportOrder(h: Header, d: Declarations)
    requires Acyclic(h)
    ensures Problems(h, d)
         == FunctionsProblems(h, d, |h.functions|) + (ImportsProblems(h, d, |d.imports|) + (StructsProblems(h, d, |h.structs|)
            + (MirrorsProblems(h, d, |d.structs|) + (EnumsProblems(h, d, |h.enums|) + OthersProblems(h, d, |d.enums|)))))
  {
    hide FunctionsProblems, ImportsProblems, StructsProblems, MirrorsProblems, EnumsProblems, OthersProblems, Acyclic;
  }
}
