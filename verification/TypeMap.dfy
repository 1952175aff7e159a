/** What the map from C types to C# types gives, type by type: the same width and signedness, and the
    rules for structs, handles, pointers, buffers, callbacks and aliases. */
module TypeMap {
  import opened Wrappers
  import opened Text
  import opened Header

  // ----- Arithmetic types -----

  /** What an arithmetic type holds: integers of so many bits or of the width of a pointer, with or
      without a sign, or floating-point numbers. */
  datatype Kind = Integer(signed: bool, bits: nat) | PointerSized(signed: bool) | Floating(bits: nat)

  /** The arithmetic types of C on the targets of the header. */
  function CKind(name: string): Option<Kind> {
    if name == "uint8_t" || name == "unsigned char" || name == "char" then Some(Integer(false, 8))
    else if name == "int8_t" || name == "signed char" then Some(Integer(true, 8))
    else if name == "uint16_t" || name == "unsigned short" then Some(Integer(false, 16))
    else if name == "int16_t" || name == "short" then Some(Integer(true, 16))
    else if name == "uint32_t" || name == "unsigned int" || name == "unsigned" then Some(Integer(false, 32))
    else if name == "int32_t" || name == "int" then Some(Integer(true, 32))
    else if name == "uint64_t" || name == "unsigned long long" then Some(Integer(false, 64))
    else if name == "int64_t" || name == "long long" then Some(Integer(true, 64))
    else if name == "uintptr_t" || name == "size_t" then Some(PointerSized(false))
    else if name == "intptr_t" || name == "ptrdiff_t" then Some(PointerSized(true))
    else if name == "float" then Some(Floating(32))
    else if name == "double" then Some(Floating(64))
    else None
  }

  /** The arithmetic types of C#, by their keywords. */
  function CsKind(keyword: string): Option<Kind> {
    if keyword == "byte" then Some(Integer(false, 8))
    else if keyword == "sbyte" then Some(Integer(true, 8))
    else if keyword == "ushort" then Some(Integer(false, 16))
    else if keyword == "short" then Some(Integer(true, 16))
    else if keyword == "uint" then Some(Integer(false, 32))
    else if keyword == "int" then Some(Integer(true, 32))
    else if keyword == "ulong" then Some(Integer(false, 64))
    else if keyword == "long" then Some(Integer(true, 64))
    else if keyword == "nuint" then Some(PointerSized(false))
    else if keyword == "nint" then Some(PointerSized(true))
    else if keyword == "float" then Some(Floating(32))
    else if keyword == "double" then Some(Floating(64))
    else None
  }

  /** An arithmetic type of C maps to that of C# which holds the same, and nothing else maps to one. */
  lemma PrimitiveIs(name: string, keyword: string)
    ensures Primitive(name) == Some(keyword) <==> CKind(name).Some? && CsKind(keyword) == CKind(name)
  {
    PrimitiveHas(name);
    if Primitive(name).Some? { OneKeyword(Primitive(name).value, keyword); }
  }

  /** The types of 8 and 16 bits. */
  predicate IsNarrow(name: string) {
    || name == "uint8_t" || name == "unsigned char" || name == "char" || name == "int8_t" || name == "signed char"
    || name == "uint16_t" || name == "unsigned short" || name == "int16_t" || name == "short"
  }

  lemma PrimitiveHas(name: string)
    ensures Primitive(name).Some? <==> CKind(name).Some?
    ensures Primitive(name).Some? ==> CsKind(Primitive(name).value) == CKind(name)
  {
    hide *;
    if IsNarrow(name) { NarrowHas(name); } else { WideHas(name); }
  }

  lemma NarrowHas(name: string)
    requires IsNarrow(name)
    ensures Primitive(name).Some? && CKind(name).Some? && CsKind(Primitive(name).value) == CKind(name)
  {
  }

  lemma WideHas(name: string)
    requires !IsNarrow(name)
    ensures Primitive(name).Some? <==> CKind(name).Some?
    ensures Primitive(name).Some? ==> CsKind(Primitive(name).value) == CKind(name)
  {
  }

  lemma OneKeyword(a: string, b: string)
    requires CsKind(a).Some?
    ensures CsKind(a) == CsKind(b) <==> a == b
  {
  }

  // ----- Named types -----

  /** That a name is no `typedef` of a type or of a function pointer. */
  predicate NoAlias(h: Header, name: string) { Lookup(h.aliases, name).None? && Lookup(h.callbacks, name).None? }

  predicate Declared(h: Header, name: string) {
    || (exists k :: 0 <= k < |h.structs| && h.structs[k].name == name)
    || (exists k :: 0 <= k < |h.enums| && h.enums[k].name == name)
  }

  lemma DeclaredIs(h: Header, name: string)
    ensures Declared(h, name) <==> IsStruct(h, name) || IsEnum(h, name)
  {
  }

  /** Stars: a pointer to a pointer has one more. */
  function Stars(s: string, n: nat): string { if n == 0 then s else Stars(s, n - 1) + "*" }

  lemma {:induction false} StarsAre(s: string, n: nat)
    ensures Stars(s, n) == s + Repeat('*', n)
  {
    if n == 0 {
      assert Repeat('*', 0) == "";
    } else {
      StarsAre(s, n - 1);
      assert Repeat('*', n) == Repeat('*', n - 1) + "*";
    }
  }

  /** A struct or an enum is its own name, and an arithmetic type its keyword, by value anywhere; a
      pointer to one is the same with stars, but a plain `nint` when it is returned. */
  lemma NamedMaps(h: Header, name: string, pointers: nat, position: Position)
    requires Acyclic(h) && NoAlias(h, name) && name != "void" && name !in h.opaque_
    ensures CsType(h, Named(name, pointers), position)
         == if pointers > 0 && position == Return then Ok("nint")
            else if Declared(h, name) then Ok(Stars(name, pointers))
            else match Primitive(name)
              case Some(keyword) => Ok(Stars(keyword, pointers))
              case None => Err(NoSpelling(name))
  {
    hide Acyclic, Primitive, IsStruct, IsEnum, Declared;
    DeclaredIs(h, name);
    PointedTo(name, pointers);
    if Primitive(name).Some? { PointedTo(Primitive(name).value, pointers); }
  }

  lemma PointedTo(s: string, pointers: nat)
    ensures pointers > 0 ==> Stars(s, pointers) == s + "*" + Repeat('*', pointers - 1)
    ensures pointers == 0 ==> Stars(s, pointers) == s
  {
    StarsAre(s, pointers);
    assert pointers > 0 ==> Repeat('*', pointers) == "*" + Repeat('*', pointers - 1);
  }

  /** `void` is returned as `void` and is no value anywhere else; pointers to it are `void` with stars,
      and `nint` when they are returned. */
  lemma VoidMaps(h: Header, pointers: nat, position: Position)
    requires Acyclic(h) && NoAlias(h, "void") && "void" !in h.opaque_
    ensures CsType(h, Named("void", pointers), position)
         == if pointers == 0 then if position == Return then Ok("void") else Err(VoidValue)
            else if position == Return then Ok("nint") else Ok(Stars("void", pointers))
  {
    hide Acyclic, IsStruct, IsEnum;
    PointedTo("void", pointers);
  }

  /** A handle crosses behind a pointer only: that pointer is `nint`, and a pointer to it has a star. */
  lemma HandleMaps(h: Header, name: string, pointers: nat, position: Position)
    requires Acyclic(h) && NoAlias(h, name) && name != "void" && name in h.opaque_ && !Declared(h, name)
    ensures CsType(h, Named(name, pointers), position)
         == if pointers == 0 then Err(OpaqueValue(name))
            else if position == Return then Ok("nint") else Ok(Stars("nint", pointers - 1))
  {
    hide Acyclic, Primitive, IsStruct, IsEnum, Declared;
    DeclaredIs(h, name);
    if pointers > 0 { StarsAre("nint", pointers - 1); }
  }

  /** An alias of a named type is that type, with the stars of both; of another type it is that type,
      and no pointer to it. */
  lemma AliasMaps(h: Header, name: string, pointers: nat, position: Position)
    requires Acyclic(h) && Lookup(h.aliases, name).Some?
    ensures var target := Lookup(h.aliases, name).value;
            CsType(h, Named(name, pointers), position)
            == match target
               case Named(base, inner) => CsType(h, Named(base, inner + pointers), position)
               case _ => if pointers == 0 then CsType(h, target, position) else Err(PointerToAlias(name))
  {
  }

  /** The first `typedef` of a name counts. */
  lemma {:induction false} LookupFirst<T>(pairs: seq<(string, T)>, name: string, k: nat)
    requires k < |pairs| && pairs[k].0 == name && forall j :: 0 <= j < k ==> pairs[j].0 != name
    ensures Lookup(pairs, name) == Some(pairs[k].1)
    decreases k
  {
    if k > 0 {
      assert pairs[0].0 != name;
      LookupFirst(pairs[1..], name, k - 1);
    }
  }

  /** The elements of a fixed buffer are an arithmetic type that is not the size of a pointer. */
  lemma BufferMaps(h: Header, element: string, len: nat, position: Position)
    requires Acyclic(h)
    ensures CsType(h, Array(element, len), position)
         == match Primitive(element)
            case Some(keyword) =>
              if keyword == "nuint" || keyword == "nint" then Err(NoBuffer(element)) else Ok(keyword)
            case None => Err(NoBuffer(element))
  {
    hide Acyclic, Primitive;
  }

  // ----- Function pointers -----

  /** Types between commas. */
  function Listed(types: seq<string>, last: string): string {
    if types == [] then last else types[0] + ", " + Listed(types[1..], last)
  }

  lemma {:induction false} ListedIs(types: seq<string>, last: string)
    ensures JoinComma(types + [last]) == Listed(types, last)
  {
    if types == [] {
      assert [] + [last] == [last];
    } else {
      assert (types + [last])[1..] == types[1..] + [last];
      ListedIs(types[1..], last);
    }
  }

  lemma {:induction false} ParamsMap(h: Header, params: seq<Param>, types: seq<string>)
    requires Acyclic(h) && |params| == |types|
    requires forall k :: 0 <= k < |params| ==> CsType(h, params[k].ty, Parameter) == Ok(types[k])
    ensures CsParams(h, params) == Ok(types)
    decreases |params|
  {
    hide CsType, Acyclic;
    if params != [] {
      ParamsMap(h, params[1..], types[1..]);
      assert types == [types[0]] + types[1..];
    }
  }

  /** A function pointer is unmanaged, with its parameter types and its result type in brackets; so is
      a callback by value, and a pointer to a callback can only be returned, as `nint`. */
  lemma FunctionMaps(h: Header, signature: Signature, types: seq<string>, result: string, position: Position)
    requires Acyclic(h) && |signature.params| == |types| && CsType(h, signature.result, Return) == Ok(result)
    requires forall k :: 0 <= k < |types| ==> CsType(h, signature.params[k].ty, Parameter) == Ok(types[k])
    ensures CsType(h, Function(signature), position) == Ok("delegate* unmanaged<" + Listed(types, result) + ">")
  {
    hide CsType, Acyclic;
    ParamsMap(h, signature.params, types);
    ListedIs(types, result);
    FunctionStep(h, signature, position);
  }

  lemma FunctionStep(h: Header, signature: Signature, position: Position)
    requires Acyclic(h)
    ensures CsType(h, Function(signature), position) == CsFunctionPointer(h, signature)
  {
  }

  lemma CallbackMaps(h: Header, name: string, pointers: nat, position: Position)
    requires Acyclic(h) && Lookup(h.aliases, name).None? && Lookup(h.callbacks, name).Some?
    ensures CsType(h, Named(name, pointers), position)
         == if pointers == 0 then CsType(h, Function(Lookup(h.callbacks, name).value), position)
            else if position == Return then Ok("nint") else Err(PointerToCallback(name))
  {
    if pointers == 0 { FunctionStep(h, Lookup(h.callbacks, name).value, position); }
  }
}
