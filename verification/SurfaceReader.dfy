/** Reading the declarations of a C# file. */
module SurfaceReader {
  import opened Wrappers
  import opened Text
  import opened Surface
  import Blanks = SurfaceBlank
  import opened Numbers
  import Condition

  datatype ReadError =
    | ConditionalCompilation(file: string, line: nat, name: string)
    | NoImportAttribute(file: string, declaration: string)
    | BadImport(file: string, declaration: string)
    | BadField(file: string, declaration: string)
    | NoEnumName(file: string, declaration: string)
    | BadValue(file: string, enumName: string, member: string)
    | ValueOverflows(file: string, enumName: string, member: string)

  // ----- Parts of a declaration -----

  function Less(depth: nat): nat { if depth == 0 then 0 else depth - 1 }

  /** The index of the bracket that closes the attribute list which is open to `depth` at `k`. */
  function BracketEnd(shape: string, k: nat, depth: nat): (r: Option<nat>)
    requires k <= |shape|
    ensures r.Some? ==> k <= r.value < |shape|
    ensures r.Some? && shape[k] == '[' ==> k < r.value
    decreases |shape| - k
  {
    if k == |shape| then None
    else if shape[k] == '[' || shape[k] == '(' then BracketEnd(shape, k + 1, depth + 1)
    else if shape[k] == ']' || shape[k] == ')' then
      if Less(depth) == 0 then Some(k) else BracketEnd(shape, k + 1, Less(depth))
    else BracketEnd(shape, k + 1, depth)
  }

  predicate Opening(c: char) { c == '(' || c == '[' || c == '<' || c == '{' }

  predicate Closing(c: char) { c == ')' || c == ']' || c == '>' || c == '}' }

  /** The ranges between the commas outside every bracket, from `k` on. */
  function CommasFrom(shape: string, k: nat, depth: nat, start: nat): (r: seq<(nat, nat)>)
    requires start <= k <= |shape|
    ensures forall i :: 0 <= i < |r| ==> r[i].0 <= r[i].1 <= |shape|
    decreases |shape| - k
  {
    if k == |shape| then [(start, k)]
    else if Opening(shape[k]) then CommasFrom(shape, k + 1, depth + 1, start)
    else if Closing(shape[k]) then CommasFrom(shape, k + 1, Less(depth), start)
    else if shape[k] == ',' && depth == 0 then [(start, k)] + CommasFrom(shape, k + 1, depth, k + 1)
    else CommasFrom(shape, k + 1, depth, start)
  }

  method TopLevelCommas(shape: string) returns (ranges: seq<(nat, nat)>)
    ensures ranges == CommasFrom(shape, 0, 0, 0)
  {
    hide Opening, Closing;
    ranges := [];
    var depth, start := 0, 0;
    for i := 0 to |shape|
      invariant start <= i
      invariant CommasFrom(shape, 0, 0, 0) == ranges + CommasFrom(shape, i, depth, start)
    {
      var c := shape[i];
      if Opening(c) {
        depth := depth + 1;
      } else if Closing(c) {
        depth := Less(depth);
      } else if c == ',' && depth == 0 {
        ranges := ranges + [(start, i)];
        start := i + 1;
      }
    }
    ranges := ranges + [(start, |shape|)];
  }

  /** The parts of a text between the top-level commas of its shape. */
  function Parts(text: string, shape: string): (r: seq<string>)
    requires |text| == |shape|
  {
    var ranges := CommasFrom(shape, 0, 0, 0);
    seq(|ranges|, k requires 0 <= k < |ranges| => text[ranges[k].0..ranges[k].1])
  }

  /** The index of the last `c` before `stop`, if any. */
  function LastChar(s: string, c: char, stop: nat): (r: Option<nat>)
    requires stop <= |s|
    ensures r.Some? ==> r.value < stop && s[r.value] == c && forall k :: r.value < k < stop ==> s[k] != c
    ensures r.None? ==> forall k :: 0 <= k < stop ==> s[k] != c
  {
    if stop == 0 then None else if s[stop - 1] == c then Some(stop - 1) else LastChar(s, c, stop - 1)
  }

  /** A text without the `c`s it ends with. */
  function TrimEndOf(s: string, c: char): string
    decreases |s|
  {
    if s != [] && s[|s| - 1] == c then TrimEndOf(s[..|s| - 1], c) else s
  }

  function WithoutSuffix(s: string, suffix: string): string {
    if EndsWith(s, suffix) then s[..|s| - |suffix|] else s
  }

  /** An attribute without its target: the text after a `:`, if no `(` stands before that. */
  function WithoutTarget(one: string): string {
    var colon := FindChar(one, ':');
    if colon < |one| && '(' !in one[..colon] then Trim(one[colon + 1..]) else one
  }

  /** One attribute of an attribute list. */
  function AttributeOf(text: string): Attribute {
    var one := WithoutTarget(Trim(text));
    var open := FindChar(one, '(');
    var (name, args) := if open < |one| then (Trim(one[..open]), TrimEndOf(TrimEnd(one[open + 1..]), ')')) else (one, "");
    var dot := LastChar(name, '.', |name|);
    var name := if dot.Some? then name[dot.value + 1..] else name;
    Attribute(WithoutSuffix(name, "Attribute"), Trim(args))
  }

  function AttributesOf(parts: seq<string>): (r: seq<Attribute>)
    ensures |r| == |parts| && forall k :: 0 <= k < |r| ==> r[k] == AttributeOf(parts[k])
  {
    seq(|parts|, k requires 0 <= k < |parts| => AttributeOf(parts[k]))
  }

  /** The attributes at the front of a declaration from `i` on, and the declaration after them. */
  function SplitFrom(segment: string, shape: string, i: nat): (seq<Attribute>, string)
    requires i <= |segment| == |shape|
    decreases |shape| - i
  {
    var at := SkipSpaces(shape, i);
    var end := if at < |shape| && shape[at] == '[' then BracketEnd(shape, at, 0) else None;
    if end.None? then ([], Trim(segment[at..]))
    else
      var attributes := AttributesOf(Parts(segment[at + 1..end.value], shape[at + 1..end.value]));
      var (more, rest) := SplitFrom(segment, shape, end.value + 1);
      (attributes + more, rest)
  }

  method SplitAttributes(segment: string, shape: string) returns (attributes: seq<Attribute>, rest: string)
    requires |segment| == |shape|
    ensures (attributes, rest) == SplitFrom(segment, shape, 0)
  {
    hide *;
    attributes := [];
    var i := 0;
    NothingSplit(SplitFrom(segment, shape, 0));
    while true
      invariant i <= |shape| && SplitFrom(segment, shape, 0) == After(attributes, SplitFrom(segment, shape, i))
      decreases |shape| - i
    {
      SplitStep(segment, shape, i);
      i := SkipSpaces(shape, i);
      if i == |shape| || shape[i] != '[' { break; }
      var end := FindBracketEnd(shape, i);
      if end.None? { break; }
      var more := ReadAttributes(segment[i + 1..end.value], shape[i + 1..end.value]);
      SplitTwice(attributes, more, SplitFrom(segment, shape, end.value + 1));
      attributes := attributes + more;
      i := end.value + 1;
    }
    SplitEnds(attributes, Trim(segment[i..]));
    return attributes, Trim(segment[i..]);
  }

  method ReadAttributes(inner: string, shape: string) returns (attributes: seq<Attribute>)
    requires |inner| == |shape|
    ensures attributes == AttributesOf(Parts(inner, shape))
  {
    hide AttributeOf, CommasFrom;
    var ranges := TopLevelCommas(shape);
    attributes := [];
    for n := 0 to |ranges|
      invariant |attributes| == n
      invariant forall k :: 0 <= k < n ==> attributes[k] == AttributeOf(inner[ranges[k].0..ranges[k].1])
    {
      var one := inner[ranges[n].0..ranges[n].1];
      attributes := attributes + [AttributeOf(one)];
    }
  }

  function After(attributes: seq<Attribute>, more: (seq<Attribute>, string)): (seq<Attribute>, string) {
    (attributes + more.0, more.1)
  }

  lemma NothingSplit(more: (seq<Attribute>, string))
    ensures After([], more) == more
  {
    assert [] + more.0 == more.0;
  }

  lemma SplitTwice(a: seq<Attribute>, b: seq<Attribute>, more: (seq<Attribute>, string))
    ensures After(a, After(b, more)) == After(a + b, more)
  {
    assert a + (b + more.0) == (a + b) + more.0;
  }

  lemma SplitEnds(attributes: seq<Attribute>, rest: string)
    ensures After(attributes, ([], rest)) == (attributes, rest)
  {
    assert attributes + [] == attributes;
  }

  lemma SplitStep(segment: string, shape: string, i: nat)
    requires i <= |segment| == |shape|
    ensures var at := SkipSpaces(shape, i);
            var end := if at < |shape| && shape[at] == '[' then BracketEnd(shape, at, 0) else None;
            SplitFrom(segment, shape, i)
            == if end.None? then ([], Trim(segment[at..]))
               else After(AttributesOf(Parts(segment[at + 1..end.value], shape[at + 1..end.value])),
                          SplitFrom(segment, shape, end.value + 1))
  {
  }

  method FindBracketEnd(shape: string, i: nat) returns (end: Option<nat>)
    requires i < |shape| && shape[i] == '['
    ensures end == BracketEnd(shape, i, 0)
  {
    var depth := 0;
    for k := i to |shape|
      invariant BracketEnd(shape, i, 0) == BracketEnd(shape, k, depth)
    {
      var c := shape[k];
      if c == '[' || c == '(' {
        depth := depth + 1;
      } else if c == ']' || c == ')' {
        depth := Less(depth);
        if depth == 0 { return Some(k); }
      }
    }
    return None;
  }

  // ----- What a brace opens -----

  datatype Container = Type(layout: Option<nat>) | EnumBody(index: nat) | Other

  const TYPE_KEYWORDS: seq<string> := ["class", "struct", "enum", "interface", "record"]

  /** The index of the first type keyword from `k` on, or the number of words. */
  function KeywordAt(words: seq<string>, k: nat): (r: nat)
    requires k <= |words|
    ensures k <= r <= |words|
    decreases |words| - k
  {
    if k == |words| || words[k] in TYPE_KEYWORDS then k else KeywordAt(words, k + 1)
  }

  /** Where the identifier a word starts with ends. */
  function IdentifierEnd(word: string, at: nat := 0): (r: nat)
    requires at <= |word|
    ensures at <= r <= |word|
    ensures forall k :: at <= k < r ==> IsIdentifierChar(word[k])
    ensures r < |word| ==> !IsIdentifierChar(word[r])
    decreases |word| - at
  {
    if at < |word| && IsIdentifierChar(word[at]) then IdentifierEnd(word, at + 1) else at
  }

  predicate Sequential(attributes: seq<Attribute>) {
    exists a :: a in attributes && a.name == "StructLayout" && Find(a.args, "Sequential").Some?
  }

  /** What the `{` after a declaration opens, recorded in the declarations. */
  function Opened(file: string, segment: string, shape: string, out: Declarations)
    : Result<(Container, Declarations), ReadError>
    requires |segment| == |shape|
  {
    var (attributes, rest) := SplitFrom(segment, shape, 0);
    var words := SplitWhitespace(rest[..FindChar(rest, '(')]);
    var keyword := KeywordAt(words, 0);
    if keyword == |words| then Ok((Other, out))
    else
      var name := if keyword + 1 < |words| then words[keyword + 1][..IdentifierEnd(words[keyword + 1])] else "";
      if words[keyword] == "struct" then
        if Sequential(attributes) then
          Ok((Type(Some(|out.structs|)), out.(structs := out.structs + [LayoutStruct(file, name, [])])))
        else Ok((Type(None), out))
      else if words[keyword] == "enum" then
        var colon := FindChar(rest, ':');
        var underlying := if colon < |rest| then Trim(rest[colon + 1..]) else "int";
        if name == "" then Err(NoEnumName(file, rest))
        else Ok((EnumBody(|out.enums|), out.(enums := out.enums + [CsEnum(file, name, underlying, [])])))
      else Ok((Type(None), out))
  }

  // ----- Members -----

  predicate IsNameChar(c: char) { IsIdentifierChar(c) || c == '@' }

  /** Where the name that ends at `stop` starts. */
  function NameStart(s: string, stop: nat): (r: nat)
    requires stop <= |s|
    ensures r <= stop && forall k :: r <= k < stop ==> IsNameChar(s[k])
    ensures r > 0 ==> !IsNameChar(s[r - 1])
  {
    if stop > 0 && IsNameChar(s[stop - 1]) then NameStart(s, stop - 1) else stop
  }

  function WithoutAt(name: string): string
    decreases |name|
  {
    if name != [] && name[0] == '@' then WithoutAt(name[1..]) else name
  }

  /** The text before the last identifier of a declaration, and that identifier. */
  function SplitName(declaration: string): Option<(string, string)> {
    var text := TrimEnd(declaration);
    var start := NameStart(text, |text|);
    if start == |text| then None else Some((TrimEnd(text[..start]), WithoutAt(text[start..])))
  }

  /** The index of the `(` that the parentheses closed from `k` down to `depth` belong to. */
  function OpenBefore(s: string, k: nat, depth: nat): (r: Option<nat>)
    requires k <= |s|
    ensures r.Some? ==> r.value < k
  {
    if k == 0 then None
    else if s[k - 1] == ')' then OpenBefore(s, k - 1, depth + 1)
    else if s[k - 1] == '(' then
      if Less(depth) == 0 then Some(k - 1) else OpenBefore(s, k - 1, Less(depth))
    else OpenBefore(s, k - 1, depth)
  }

  /** The parentheses of the parameter list that a declaration ends with. */
  function ParametersOf(declaration: string): (r: Option<(nat, nat)>)
    ensures r.Some? ==> r.value.0 < r.value.1 < |declaration|
  {
    var close := LastChar(declaration, ')', |declaration|);
    if close.None? || Trim(declaration[close.value + 1..]) != "" then None
    else
      var open := OpenBefore(declaration, close.value, 1);
      if open.None? then None else Some((open.value, close.value))
  }

  method ParameterList(declaration: string) returns (r: Option<(nat, nat)>)
    ensures r == ParametersOf(declaration)
  {
    hide LastChar, Trim, OpenBefore;
    var close := LastChar(declaration, ')', |declaration|);
    if close.None? || Trim(declaration[close.value + 1..]) != "" { return None; }
    var depth := 0;
    var at := close.value + 1;
    CloseOpens(declaration, close.value);
    while at > 0
      invariant 0 <= at <= close.value + 1
      invariant OpenBefore(declaration, close.value, 1) == OpenBefore(declaration, at, depth)
      decreases at
    {
      OpenStep(declaration, at, depth);
      at := at - 1;
      if declaration[at] == ')' {
        depth := depth + 1;
      } else if declaration[at] == '(' {
        depth := Less(depth);
        if depth == 0 { return Some((at, close.value)); }
      }
    }
    OpenStep(declaration, 0, depth);
    return None;
  }

  lemma OpenStep(s: string, k: nat, depth: nat)
    requires k <= |s|
    ensures OpenBefore(s, k, depth)
         == if k == 0 then None
            else if s[k - 1] == ')' then OpenBefore(s, k - 1, depth + 1)
            else if s[k - 1] == '(' then if Less(depth) == 0 then Some(k - 1) else OpenBefore(s, k - 1, Less(depth))
            else OpenBefore(s, k - 1, depth)
  {
  }

  lemma CloseOpens(declaration: string, close: nat)
    requires close < |declaration| && declaration[close] == ')'
    ensures OpenBefore(declaration, close + 1, 0) == OpenBefore(declaration, close, 1)
  {
  }

  /** That only the runtime or a source generator can supply the method's body. */
  predicate DeclaresNative(declaration: string) {
    var list := ParametersOf(declaration);
    if list.None? then false
    else
      var head := declaration[..list.value.0];
      var words := SplitWhitespace(head);
      '=' !in head && ("extern" in words || ("static" in words && "partial" in words))
  }

  const MODIFIERS: seq<string> :=
    ["public", "private", "internal", "protected", "static", "partial", "extern", "unsafe", "new", "readonly",
     "volatile", "file", "required", "abstract", "sealed", "virtual", "override"]

  predicate IsModifier(word: string) { word in MODIFIERS }

  function DropModifiers(words: seq<string>): seq<string> {
    if words != [] && IsModifier(words[0]) then DropModifiers(words[1..]) else words
  }

  function IsNativeImport(a: Attribute): bool { a.name == "LibraryImport" || a.name == "DllImport" }

  function FirstNative(attributes: seq<Attribute>): Option<Attribute> {
    if attributes == [] then None
    else if IsNativeImport(attributes[0]) then Some(attributes[0])
    else FirstNative(attributes[1..])
  }

  /** The `EntryPoint` argument of an import attribute. */
  function EntryPoint(args: string): Option<string> {
    var at := Find(args, "EntryPoint");
    if at.None? then None
    else
      var rest := TrimStart(args[at.value + 10..]);
      if !StartsWith(rest, "=") then None
      else
        var rest := TrimStart(rest[1..]);
        if !StartsWith(rest, "\"") then None
        else
          var end := FindChar(rest[1..], '"');
          if end == |rest[1..]| then None else Some(rest[1..][..end])
  }

  /** A parameter without its attributes and default value. */
  function ParameterOf(part: string): Option<Slot> {
    var declaration := SplitFrom(part, part, 0).1;
    var split := SplitName(declaration[..FindChar(declaration, '=')]);
    if split.None? || split.value.0 == "" then None else Some(Slot(split.value.1, split.value.0, None))
  }

  function ParametersIn(parts: seq<string>): (r: Option<seq<Slot>>)
    ensures r.Some? ==> |r.value| == |parts|
  {
    if parts == [] then Some([])
    else
      var slots := ParametersIn(parts[..|parts| - 1]);
      var last := ParameterOf(parts[|parts| - 1]);
      if slots.None? || last.None? then None else Some(slots.value + [last.value])
  }

  /** The import that a declaration with an import attribute is. */
  function ImportIn(file: string, attributes: seq<Attribute>, native: Attribute, rest: string): Option<Import> {
    var parens := ParametersOf(rest);
    if parens.None? then None
    else
      var split := SplitName(rest[..parens.value.0]);
      if split.None? then None
      else
        var result := JoinWords(DropModifiers(SplitWhitespace(split.value.0)));
        var list := rest[parens.value.0 + 1..parens.value.1];
        var slots := if Trim(list) == "" then Some([]) else ParametersIn(Parts(list, list));
        if result == "" || slots.None? then None
        else
          var entry := EntryPoint(native.args);
          Some(Import(file, if entry.Some? then entry.value else split.value.1, result, slots.value, attributes))
  }

  function Squash(text: string): string { JoinWords(SplitWhitespace(text)) }

  /** What a member declaration imports, if anything. */
  function ImportOf(file: string, segment: string, shape: string): Result<Option<Import>, ReadError>
    requires |segment| == |shape|
  {
    var (attributes, rest) := SplitFrom(segment, shape, 0);
    var native := FirstNative(attributes);
    if native.None? then
      if DeclaresNative(rest) then Err(NoImportAttribute(file, Squash(rest))) else Ok(None)
    else
      var found := ImportIn(file, attributes, native.value, rest);
      if found.None? then Err(BadImport(file, Squash(rest))) else Ok(found)
  }

  method ReadImport(file: string, segment: string, shape: string) returns (r: Result<Option<Import>, ReadError>)
    requires |segment| == |shape|
    ensures r == ImportOf(file, segment, shape)
  {
    hide DeclaresNative, SplitFrom, JoinWords, SplitWhitespace, SplitName, EntryPoint, Parts, Trim, ParametersOf;
    var attributes, rest := SplitAttributes(segment, shape);
    var native := FirstNative(attributes);
    if native.None? {
      if DeclaresNative(rest) { return Err(NoImportAttribute(file, Squash(rest))); }
      return Ok(None);
    }
    var parens := ParameterList(rest);
    if parens.None? { return Err(BadImport(file, Squash(rest))); }
    var split := SplitName(rest[..parens.value.0]);
    if split.None? { return Err(BadImport(file, Squash(rest))); }
    var words := SplitWhitespace(split.value.0);
    ghost var all := words;
    while words != [] && IsModifier(words[0])
      invariant DropModifiers(all) == DropModifiers(words)
    {
      words := words[1..];
    }
    var result := JoinWords(words);
    if result == "" { return Err(BadImport(file, Squash(rest))); }
    var list := rest[parens.value.0 + 1..parens.value.1];
    var params := Some([]);
    if Trim(list) != "" { params := ReadParameters(list); }
    if params.None? { return Err(BadImport(file, Squash(rest))); }
    var entry := EntryPoint(native.value.args);
    var symbol := if entry.Some? then entry.value else split.value.1;
    return Ok(Some(Import(file, symbol, result, params.value, attributes)));
  }

  method ReadParameters(list: string) returns (r: Option<seq<Slot>>)
    ensures r == ParametersIn(Parts(list, list))
  {
    hide CommasFrom, ParameterOf, SplitFrom, SplitName;
    var ranges := TopLevelCommas(list);
    ghost var parts := Parts(list, list);
    var params: seq<Slot> := [];
    for n := 0 to |ranges|
      invariant ParametersIn(parts[..n]) == Some(params)
    {
      assert parts[..n + 1][..n] == parts[..n];
      var part := list[ranges[n].0..ranges[n].1];
      var attributes, declaration := SplitAttributes(part, part);
      var split := SplitName(declaration[..FindChar(declaration, '=')]);
      ParameterStep(part, split);
      if split.None? || split.value.0 == "" {
        NoParameters(parts, n + 1);
        return None;
      }
      params := params + [Slot(split.value.1, split.value.0, None)];
    }
    assert parts[..|parts|] == parts;
    return Some(params);
  }

  lemma ParameterStep(part: string, split: Option<(string, string)>)
    requires var declaration := SplitFrom(part, part, 0).1; split == SplitName(declaration[..FindChar(declaration, '=')])
    ensures ParameterOf(part)
         == if split.None? || split.value.0 == "" then None else Some(Slot(split.value.1, split.value.0, None))
  {
  }

  lemma {:induction false} NoParameters(parts: seq<string>, n: nat)
    requires n <= |parts| && ParametersIn(parts[..n]).None?
    ensures ParametersIn(parts).None?
    decreases |parts| - n
  {
    hide ParameterOf;
    if n < |parts| {
      assert parts[..n + 1][..n] == parts[..n];
      NoParameters(parts, n + 1);
    } else {
      assert parts[..n] == parts;
    }
  }

  /** Whether `fixed` is among the modifiers in front of a field, and the words after them. */
  function FieldWords(words: seq<string>, isFixed: bool): (bool, seq<string>) {
    if words != [] && words[0] == "fixed" then FieldWords(words[1..], true)
    else if words != [] && IsModifier(words[0]) then FieldWords(words[1..], isFixed)
    else (isFixed, words)
  }

  const USIZE_MAX: int := 0xFFFF_FFFF_FFFF_FFFF

  /** A length as Rust's `usize` is parsed: digits, after a `+` if there is one. */
  function ParseUsize(s: string): Option<nat> {
    var digits := if StartsWith(s, "+") then s[1..] else s;
    var v := Digits(digits, 10);
    if digits == "" || v.None? || v.value > USIZE_MAX then None else Some(v.value)
  }

  /** The field in the words after its modifiers. */
  function SlotOf(isFixed: bool, declaration: string): Option<Slot> {
    var buffer := isFixed && EndsWith(declaration, "]");
    var inner := if buffer then declaration[..|declaration| - 1] else declaration;
    var open := if buffer then LastChar(inner, '[', |inner|) else None;
    var head := if open.Some? then inner[..open.value] else declaration;
    var length := if open.Some? then ParseUsize(Trim(inner[open.value + 1..])) else None;
    var split := SplitName(head);
    if (open.Some? && length.None?) || split.None? || split.value.0 == "" then None
    else Some(Slot(split.value.1, split.value.0, length))
  }

  /** The field that a member declaration of a sequential struct is, if it is one. */
  function FieldOf(file: string, segment: string, shape: string): Result<Option<Slot>, ReadError>
    requires |segment| == |shape|
  {
    var (_, rest) := SplitFrom(segment, shape, 0);
    var words := SplitWhitespace(rest);
    if rest == "" || '(' in rest || Find(rest, "=>").Some? then Ok(None)
    else if "static" in words || "const" in words then Ok(None)
    else
      var (isFixed, left) := FieldWords(words, false);
      var slot := SlotOf(isFixed, JoinWords(left));
      if slot.None? then Err(BadField(file, Squash(rest))) else Ok(slot)
  }

  method ReadField(file: string, segment: string, shape: string) returns (r: Result<Option<Slot>, ReadError>)
    requires |segment| == |shape|
    ensures r == FieldOf(file, segment, shape)
  {
    hide SplitFrom, JoinWords, SplitWhitespace, SlotOf;
    var attributes, rest := SplitAttributes(segment, shape);
    if rest == "" || '(' in rest || Find(rest, "=>").Some? { return Ok(None); }
    var words := SplitWhitespace(rest);
    if "static" in words || "const" in words { return Ok(None); }
    var isFixed := false;
    ghost var all := words;
    while words != []
      invariant FieldWords(all, false) == FieldWords(words, isFixed)
      decreases |words|
    {
      if words[0] == "fixed" {
        isFixed := true;
      } else if !IsModifier(words[0]) {
        break;
      }
      words := words[1..];
    }
    var slot := SlotOf(isFixed, JoinWords(words));
    if slot.None? { return Err(BadField(file, Squash(rest))); }
    return Ok(slot);
  }

  // ----- Enum members -----

  /** A number of a radix as Rust's `i128` is parsed: digits, after a sign if there is one. */
  function ParseI128(s: string, radix: int): Option<int>
    requires radix == 10 || radix == 16
  {
    var negative := StartsWith(s, "-");
    var digits := if negative || StartsWith(s, "+") then s[1..] else s;
    var v := Digits(digits, radix);
    if digits == "" || v.None? then None
    else if negative then if v.value <= Condition.I128_MAX + 1 then Some(-v.value) else None
    else if v.value <= Condition.I128_MAX then v else None
  }

  function WithoutChar(s: string, c: char): string {
    if s == [] then "" else (if s[0] == c then "" else [s[0]]) + WithoutChar(s[1..], c)
  }

  /** A C# integer literal. */
  function CsInteger(text: string): Option<int> {
    var negative := StartsWith(text, "-");
    var digits := WithoutChar(Condition.TrimSuffixes(if negative then Trim(text[1..]) else text), '_');
    var hex := StartsWith(digits, "0x") || StartsWith(digits, "0X");
    var v := if hex then ParseI128(digits[2..], 16) else ParseI128(digits, 10);
    if v.Some? && negative then Some(-v.value) else v
  }

  /** The members in the parts of an enum body, of which the first implicit value is `next`. */
  function MembersIn(file: string, name: string, parts: seq<string>, next: int): Result<seq<(string, int)>, ReadError> {
    if parts == [] then Ok([])
    else
      var part := SplitFrom(parts[0], parts[0], 0).1;
      if part == "" then MembersIn(file, name, parts[1..], next)
      else
        var equals := FindChar(part, '=');
        var member := Trim(part[..equals]);
        var value := if equals == |part| then Some(next) else CsInteger(Trim(part[equals + 1..]));
        if value.None? then Err(BadValue(file, name, member))
        else if value.value >= Condition.I128_MAX then Err(ValueOverflows(file, name, member))
        else
          Behind([(member, value.value)], MembersIn(file, name, parts[1..], value.value + 1))
  }

  function EnumMembersOf(file: string, name: string, body: string): Result<seq<(string, int)>, ReadError> {
    MembersIn(file, name, Parts(body, body), 0)
  }

  method ReadMembers(file: string, name: string, body: string) returns (r: Result<seq<(string, int)>, ReadError>)
    ensures r == EnumMembersOf(file, name, body)
  {
    hide CommasFrom, CsInteger, SplitFrom, Trim;
    var ranges := TopLevelCommas(body);
    ghost var parts := Parts(body, body);
    var out: seq<(string, int)> := [];
    var next := 0;
    NoMembers(MembersIn(file, name, parts, 0));
    assert parts[0..] == parts;
    for n := 0 to |ranges|
      invariant MembersIn(file, name, parts, 0) == Behind(out, MembersIn(file, name, parts[n..], next))
    {
      assert parts[n..][1..] == parts[n + 1..];
      var text := body[ranges[n].0..ranges[n].1];
      var attributes, part := SplitAttributes(text, text);
      if part == "" { continue; }
      var equals := FindChar(part, '=');
      var member := Trim(part[..equals]);
      var value := next;
      if equals < |part| {
        var read := CsInteger(Trim(part[equals + 1..]));
        if read.None? { return Err(BadValue(file, name, member)); }
        value := read.value;
      }
      if value >= Condition.I128_MAX { return Err(ValueOverflows(file, name, member)); }
      MemberBehind(out, (member, value), MembersIn(file, name, parts[n + 1..], value + 1));
      next := value + 1;
      out := out + [(member, value)];
    }
    assert out + [] == out;
    return Ok(out);
  }

  function Behind(out: seq<(string, int)>, more: Result<seq<(string, int)>, ReadError>)
    : Result<seq<(string, int)>, ReadError>
  {
    match more case Ok(rest) => Ok(out + rest) case Err(e) => Err(e)
  }

  lemma NoMembers(more: Result<seq<(string, int)>, ReadError>)
    ensures Behind([], more) == more
  {
    if more.Ok? { assert [] + more.value == more.value; }
  }

  lemma MemberBehind(out: seq<(string, int)>, member: (string, int), more: Result<seq<(string, int)>, ReadError>)
    ensures Behind(out, Behind([member], more)) == Behind(out + [member], more)
  {
    if more.Ok? { assert out + ([member] + more.value) == out + [member] + more.value; }
  }

  // ----- The file -----

  /** What a terminator makes of the declaration before it. */
  function Ended(
      file: string, c: char, segment: string, shape: string, stack: seq<Container>, out: Declarations)
    : Result<(seq<Container>, Declarations), ReadError>
    requires |segment| == |shape|
  {
    if c == '{' then
      match Opened(file, segment, shape, out)
      case Err(e) => Err(e)
      case Ok((container, more)) => Ok((stack + [container], more))
    else if c == '}' then
      if stack == [] then Ok((stack, out))
      else
        var (top, below) := (stack[|stack| - 1], stack[..|stack| - 1]);
        if top.EnumBody? && top.index < |out.enums| then
          var item := out.enums[top.index];
          match EnumMembersOf(file, item.name, segment)
          case Err(e) => Err(e)
          case Ok(members) => Ok((below, out.(enums := out.enums[top.index := item.(members := members)])))
        else Ok((below, out))
    else if stack == [] || !stack[|stack| - 1].Type? then Ok((stack, out))
    else
      match ImportOf(file, segment, shape)
      case Err(e) => Err(e)
      case Ok(Some(found)) => Ok((stack, out.(imports := out.imports + [found])))
      case Ok(None) =>
        var layout := stack[|stack| - 1].layout;
        if layout.None? then Ok((stack, out))
        else
          match FieldOf(file, segment, shape)
          case Err(e) => Err(e)
          case Ok(None) => Ok((stack, out))
          case Ok(Some(slot)) =>
            if layout.value >= |out.structs| then Ok((stack, out))
            else
              var item := out.structs[layout.value];
              Ok((stack, out.(structs := out.structs[layout.value := item.(fields := item.fields + [slot])])))
  }

  predicate Ends(c: char) { c == '{' || c == '}' || c == ';' }

  /** What is declared from `i` on. */
  function ReadFrom(
      file: string, content: string, structure: string, i: nat, stack: seq<Container>, depth: nat, start: nat,
      out: Declarations)
    : Result<Declarations, ReadError>
    requires start <= i <= |content| == |structure|
    decreases |content| - i
  {
    if i == |content| then Ok(out)
    else
      var c := structure[i];
      if c == '(' || c == '[' then ReadFrom(file, content, structure, i + 1, stack, depth + 1, start, out)
      else if c == ')' || c == ']' then ReadFrom(file, content, structure, i + 1, stack, Less(depth), start, out)
      else if Ends(c) && depth == 0 then
        match Ended(file, c, content[start..i], structure[start..i], stack, out)
        case Err(e) => Err(e)
        case Ok((after, more)) => ReadFrom(file, content, structure, i + 1, after, depth, i + 1, more)
      else ReadFrom(file, content, structure, i + 1, stack, depth, start, out)
  }

  /** What a C# file declares. */
  function Read(file: string, text: string): Result<Declarations, ReadError> {
    var content := Blanks.Blanked(text, false);
    if content.Err? then Err(ConditionalCompilation(file, content.error.line, content.error.name))
    else
      var structure := Blanks.Blanked(text, true);
      if structure.Err? then Err(ConditionalCompilation(file, structure.error.line, structure.error.name))
      else
        Blanks.BlankedKeeps(text, 0, true, false);
        Blanks.BlankedKeeps(text, 0, true, true);
        ReadFrom(file, content.value, structure.value, 0, [], 0, 0, Declarations([], [], []))
  }

  method ReadFile(file: string, text: string) returns (r: Result<Declarations, ReadError>)
    ensures r == Read(file, text)
  {
    hide Opened, ImportOf, FieldOf, EnumMembersOf, ReadFrom;
    var content := Blanks.Blank(text, false);
    if content.Err? { return Err(ConditionalCompilation(file, content.error.line, content.error.name)); }
    var structure := Blanks.Blank(text, true);
    if structure.Err? { return Err(ConditionalCompilation(file, structure.error.line, structure.error.name)); }
    Blanks.BlankedKeeps(text, 0, true, false);
    Blanks.BlankedKeeps(text, 0, true, true);
    r := ReadDeclarations(file, content.value, structure.value);
  }

  method ReadDeclarations(file: string, content: string, structure: string) returns (r: Result<Declarations, ReadError>)
    requires |content| == |structure|
    ensures r == ReadFrom(file, content, structure, 0, [], 0, 0, Declarations([], [], []))
  {
    hide Ended, ReadFrom;
    var out := Declarations([], [], []);
    var stack: seq<Container> := [];
    var depth, start := 0, 0;
    for i := 0 to |structure|
      invariant start <= i
      invariant ReadFrom(file, content, structure, 0, [], 0, 0, Declarations([], [], []))
             == ReadFrom(file, content, structure, i, stack, depth, start, out)
    {
      ReadStep(file, content, structure, i, stack, depth, start, out);
      var c := structure[i];
      if c == '(' || c == '[' {
        depth := depth + 1;
      } else if c == ')' || c == ']' {
        depth := Less(depth);
      } else if Ends(c) && depth == 0 {
        var segment, shape := content[start..i], structure[start..i];
        start := i + 1;
        var ended := End(file, c, segment, shape, stack, out);
        if ended.Err? { return Err(ended.error); }
        stack, out := ended.value.0, ended.value.1;
      }
    }
    ReadStep(file, content, structure, |structure|, stack, depth, start, out);
    return Ok(out);
  }

  lemma ReadStep(
      file: string, content: string, structure: string, i: nat, stack: seq<Container>, depth: nat, start: nat,
      out: Declarations)
    requires start <= i <= |content| == |structure|
    ensures ReadFrom(file, content, structure, i, stack, depth, start, out)
         == if i == |content| then Ok(out)
            else if structure[i] == '(' || structure[i] == '[' then
              ReadFrom(file, content, structure, i + 1, stack, depth + 1, start, out)
            else if structure[i] == ')' || structure[i] == ']' then
              ReadFrom(file, content, structure, i + 1, stack, Less(depth), start, out)
            else if Ends(structure[i]) && depth == 0 then
              var ended := Ended(file, structure[i], content[start..i], structure[start..i], stack, out);
              if ended.Err? then Err(ended.error)
              else ReadFrom(file, content, structure, i + 1, ended.value.0, depth, i + 1, ended.value.1)
            else ReadFrom(file, content, structure, i + 1, stack, depth, start, out)
  {
    hide Ended;
  }

  /** Takes in what a terminator ends. */
  method End(file: string, c: char, segment: string, shape: string, stack: seq<Container>, out: Declarations)
    returns (r: Result<(seq<Container>, Declarations), ReadError>)
    requires |segment| == |shape| && Ends(c)
    ensures r == Ended(file, c, segment, shape, stack, out)
  {
    hide Opened, ImportOf, FieldOf, EnumMembersOf;
    if c == '{' {
      var brace := Opened(file, segment, shape, out);
      if brace.Err? { return Err(brace.error); }
      return Ok((stack + [brace.value.0], brace.value.1));
    }
    if c == '}' {
      if stack == [] { return Ok((stack, out)); }
      var top, below := stack[|stack| - 1], stack[..|stack| - 1];
      if !top.EnumBody? || top.index >= |out.enums| { return Ok((below, out)); }
      var item := out.enums[top.index];
      var members := ReadMembers(file, item.name, segment);
      if members.Err? { return Err(members.error); }
      return Ok((below, out.(enums := out.enums[top.index := item.(members := members.value)])));
    }
    if stack == [] || !stack[|stack| - 1].Type? { return Ok((stack, out)); }
    var imported := ReadImport(file, segment, shape);
    if imported.Err? { return Err(imported.error); }
    if imported.value.Some? { return Ok((stack, out.(imports := out.imports + [imported.value.value]))); }
    var layout := stack[|stack| - 1].layout;
    if layout.None? { return Ok((stack, out)); }
    var field := ReadField(file, segment, shape);
    if field.Err? { return Err(field.error); }
    if field.value.None? || layout.value >= |out.structs| { return Ok((stack, out)); }
    var item := out.structs[layout.value];
    return Ok((stack, out.(structs := out.structs[layout.value := item.(fields := item.fields + [field.value.value])])));
  }
}
