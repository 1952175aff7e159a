/** What a C header declares, and the C# types its types map to. */
module Header {
  import opened Wrappers
  import opened Text

  datatype CType =
    | Named(name: string, pointers: nat)
    | Array(element: string, len: nat)
    | Function(signature: Signature)

  datatype Signature = Signature(result: CType, params: seq<Param>)

  /** A parameter or a struct field. */
  datatype Param = Param(name: string, ty: CType, doc: seq<string>)

  datatype Prototype = Prototype(name: string, signature: Signature, doc: seq<string>)

  datatype Struct = Struct(name: string, fields: seq<Param>, doc: seq<string>)

  datatype Enum = Enum(name: string, underlying: Option<string>, variants: seq<(string, int)>)

  datatype Header = Header(
    opaque_: seq<string>,
    structs: seq<Struct>,
    enums: seq<Enum>,
    callbacks: seq<(string, Signature)>,
    aliases: seq<(string, CType)>,
    functions: seq<Prototype>)

  datatype Position = Return | Parameter | Field

  datatype TypeError =
    | NoBuffer(element: string)
    | PointerToAlias(name: string)
    | PointerToCallback(name: string)
    | VoidValue
    | OpaqueValue(name: string)
    | NoSpelling(name: string)

  /** The first value under a name. */
  function Lookup<T>(pairs: seq<(string, T)>, name: string): (r: Option<T>)
    ensures r.Some? ==> (name, r.value) in pairs
    ensures r.None? ==> forall p :: p in pairs ==> p.0 != name
  {
    if pairs == [] then None
    else if pairs[0].0 == name then Some(pairs[0].1)
    else Lookup(pairs[1..], name)
  }

  /** The imports that may skip the GC transition. */
  const SUPPRESS_GC_TRANSITION: seq<string> :=
    ["zero_abi_version", "zero_req_view", "zero_req_method", "zero_slot_route"]

  /** The C# type of a C arithmetic type. */
  function Primitive(name: string): Option<string> {
    match name
    case "uint8_t" => Some("byte") case "unsigned char" => Some("byte") case "char" => Some("byte")
    case "int8_t" => Some("sbyte") case "signed char" => Some("sbyte")
    case "uint16_t" => Some("ushort") case "unsigned short" => Some("ushort")
    case "int16_t" => Some("short") case "short" => Some("short")
    case "uint32_t" => Some("uint") case "unsigned int" => Some("uint") case "unsigned" => Some("uint")
    case "int32_t" => Some("int") case "int" => Some("int")
    case "uint64_t" => Some("ulong") case "unsigned long long" => Some("ulong")
    case "int64_t" => Some("long") case "long long" => Some("long")
    case "uintptr_t" => Some("nuint") case "size_t" => Some("nuint")
    case "intptr_t" => Some("nint") case "ptrdiff_t" => Some("nint")
    case "float" => Some("float")
    case "double" => Some("double")
    case _ => None
  }

  predicate IsOpaque(h: Header, name: string) { name in h.opaque_ }

  predicate IsStruct(h: Header, name: string) { exists s :: s in h.structs && s.name == name }

  predicate IsEnum(h: Header, name: string) { exists e :: e in h.enums && e.name == name }

  // ----- Acyclic headers -----

  ghost function RankOf(rank: map<string, nat>, name: string): nat { if name in rank then rank[name] else 0 }

  /** The highest rank of a name in a type. */
  ghost function TypeRank(ty: CType, rank: map<string, nat>): nat {
    match ty
    case Named(name, _) => RankOf(rank, name)
    case Array(_, _) => 0
    case Function(signature) => SignatureRank(signature, rank)
  }

  ghost function SignatureRank(s: Signature, rank: map<string, nat>): nat {
    var (params, result) := (ParamsRank(s.params, rank), TypeRank(s.result, rank));
    if params < result then result else params
  }

  ghost function ParamsRank(params: seq<Param>, rank: map<string, nat>): nat {
    if params == [] then 0
    else
      var (first, rest) := (TypeRank(params[0].ty, rank), ParamsRank(params[1..], rank));
      if first < rest then rest else first
  }

  /** That the types of `typedef`s use only names of lower rank. */
  ghost predicate Ranks(h: Header, rank: map<string, nat>) {
    && (forall a :: a in h.aliases ==> TypeRank(a.1, rank) < RankOf(rank, a.0))
    && (forall c :: c in h.callbacks ==> SignatureRank(c.1, rank) < RankOf(rank, c.0))
  }

  /** That no `typedef` comes back to itself, as C demands. */
  ghost predicate Acyclic(h: Header) { exists rank :: Ranks(h, rank) }

  ghost function RankIn(h: Header): (rank: map<string, nat>)
    requires Acyclic(h)
    ensures Ranks(h, rank)
  {
    var rank :| Ranks(h, rank); rank
  }

  // ----- The type map -----

  /** The C# spelling of a C type; of an array, of the elements of its fixed buffer. */
  function CsType(h: Header, ty: CType, position: Position): Result<string, TypeError>
    requires Acyclic(h)
    decreases TypeRank(ty, RankIn(h)), ty
  {
    match ty
    case Function(signature) => CsFunctionPointer(h, signature)
    case Array(element, _) => CsBuffer(element)
    case Named(name, pointers) =>
      var target := Lookup(h.aliases, name);
      if target.Some? then
        (match target.value
         case Named(base, inner) => CsType(h, CType.Named(base, inner + pointers), position)
         case _ => if pointers == 0 then CsType(h, target.value, position) else Err(PointerToAlias(name)))
      else
        var callback := Lookup(h.callbacks, name);
        if callback.Some? then
          if pointers == 0 then CsFunctionPointer(h, callback.value)
          else if position == Return then Ok("nint")
          else Err(PointerToCallback(name))
        else if pointers == 0 then CsValue(h, name, position)
        else CsPointer(h, name, pointers, position)
  }

  function CsBuffer(element: string): Result<string, TypeError> {
    var p := Primitive(element);
    if p.Some? && p.value != "nuint" && p.value != "nint" then Ok(p.value) else Err(NoBuffer(element))
  }

  /** The spelling of a named type that is no alias, by value. */
  function CsValue(h: Header, name: string, position: Position): Result<string, TypeError> {
    if name == "void" then if position == Return then Ok("void") else Err(VoidValue)
    else if IsStruct(h, name) || IsEnum(h, name) then Ok(name)
    else if IsOpaque(h, name) then Err(OpaqueValue(name))
    else if Primitive(name).Some? then Ok(Primitive(name).value) else Err(NoSpelling(name))
  }

  /** The spelling of a pointer to a named type that is no alias. */
  function CsPointer(h: Header, name: string, pointers: nat, position: Position): Result<string, TypeError>
    requires pointers > 0
  {
    var stars := Repeat('*', pointers - 1);
    if position == Return then Ok("nint")
    else if IsOpaque(h, name) then Ok("nint" + stars)
    else if name == "void" then Ok("void" + "*" + stars)
    else if IsStruct(h, name) || IsEnum(h, name) then Ok(name + "*" + stars)
    else if Primitive(name).Some? then Ok(Primitive(name).value + "*" + stars)
    else Err(NoSpelling(name))
  }

  function CsFunctionPointer(h: Header, signature: Signature): Result<string, TypeError>
    requires Acyclic(h)
    decreases SignatureRank(signature, RankIn(h)), signature
  {
    match CsParams(h, signature.params)
    case Err(e) => Err(e)
    case Ok(parts) =>
      match CsType(h, signature.result, Return)
      case Err(e) => Err(e)
      case Ok(result) => Ok("delegate* unmanaged<" + JoinComma(parts + [result]) + ">")
  }

  function CsParams(h: Header, params: seq<Param>): (r: Result<seq<string>, TypeError>)
    requires Acyclic(h)
    ensures r.Ok? ==> |r.value| == |params|
    decreases ParamsRank(params, RankIn(h)), params
  {
    if params == [] then Ok([])
    else
      match CsType(h, params[0].ty, Parameter)
      case Err(e) => Err(e)
      case Ok(first) =>
        match CsParams(h, params[1..])
        case Err(e) => Err(e)
        case Ok(rest) => Ok([first] + rest)
  }

  /** Some parts joined by `, `. */
  function JoinComma(parts: seq<string>): string {
    if parts == [] then "" else if |parts| == 1 then parts[0] else parts[0] + ", " + JoinComma(parts[1..])
  }
}
