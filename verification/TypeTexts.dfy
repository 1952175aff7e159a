/** How the C# types that the type map gives are spelled. */
module TypeTexts {
  import opened Wrappers
  import opened Text
  import opened Words
  import opened Header
  import opened SurfaceReader
  import Surface

  // ----- Brackets and commas -----

  /** The depth of brackets after a text, if no comma and no closing bracket stands at depth 0. */
  function Level(t: string, d: nat): Option<nat> {
    if t == "" then Some(d)
    else if Opening(t[0]) then Level(t[1..], d + 1)
    else if Closing(t[0]) then if d == 0 then None else Level(t[1..], d - 1)
    else if t[0] == ',' && d == 0 then None
    else Level(t[1..], d)
  }

  lemma {:induction false} LevelAppend(a: string, b: string, d: nat)
    ensures Level(a + b, d) == if Level(a, d).None? then None else Level(b, Level(a, d).value)
    decreases |a|
  {
    if a == "" {
      assert a + b == b;
    } else {
      assert (a + b)[1..] == a[1..] + b;
      var c := a[0];
      var e := if Opening(c) then d + 1 else if Closing(c) && d > 0 then d - 1 else d;
      LevelAppend(a[1..], b, e);
    }
  }

  /** One bracket further in, a text that is level is level, and may hold commas. */
  lemma {:induction false} LevelRaise(t: string, d: nat)
    requires Level(t, d).Some?
    ensures Level(t, d + 1) == Some(Level(t, d).value + 1)
    decreases |t|
  {
    if t != "" {
      var c := t[0];
      LevelRaise(t[1..], if Opening(c) then d + 1 else if Closing(c) then d - 1 else d);
    }
  }

  predicate Unbracketed(t: string) {
    forall k :: 0 <= k < |t| ==> !Opening(t[k]) && !Closing(t[k]) && t[k] != ','
  }

  lemma {:induction false} LevelPlain(t: string, d: nat)
    requires Unbracketed(t)
    ensures Level(t, d) == Some(d)
    decreases |t|
  {
    if t != "" { LevelPlain(t[1..], d); }
  }

  lemma LevelComma(d: nat)
    ensures Level(", ", d + 1) == Some(d + 1)
  {
    assert ", "[1..] == " ";
    LevelPlain(" ", d + 1);
  }

  // ----- Words of a type -----

  /** That a word is not left out of a type or a field by the reader. */
  predicate OrdinaryWord(w: string) { !IsModifier(w) && w != "fixed" && w != "const" }

  /** That a word is more than a word: it cannot be a modifier. */
  predicate Marked(w: string) { exists k :: 0 <= k < |w| && !IsWordChar(w[k]) }

  predicate TypeChar(c: char) { IsWordChar(c) || c == '*' || c == '<' || c == '>' || c == ',' || c == ' ' }

  predicate TypeChars(t: string) { forall k :: 0 <= k < |t| ==> TypeChar(t[k]) }

  predicate AllMarked(ws: seq<string>) { forall k :: 0 <= k < |ws| ==> Marked(ws[k]) }

  /** That a text is one ordinary word or several that are all marked. */
  predicate TypeText(t: string, ws: seq<string>) {
    && ws != [] && AreWords(ws) && t == JoinWords(ws)
    && ((|ws| == 1 && OrdinaryWord(ws[0])) || AllMarked(ws))
    && TypeChars(t) && Level(t, 0) == Some(0)
  }

  predicate AllWordChars(s: string) { s != "" && forall k :: 0 <= k < |s| ==> IsWordChar(s[k]) }

  /** The names of the types of a header: identifiers that the reader takes for no modifier. */
  predicate OrdinaryNames(h: Header) {
    && (forall s :: s in h.structs ==> AllWordChars(s.name) && OrdinaryWord(s.name))
    && (forall e :: e in h.enums ==> AllWordChars(e.name) && OrdinaryWord(e.name))
  }

  lemma WordCharPlain(c: char)
    requires IsWordChar(c)
    ensures !IsSpace(c) && TypeChar(c) && !Opening(c) && !Closing(c) && c != ','
  {
  }

  /** A modifier is lower-case letters only. */
  lemma ModifierLowercase(w: string)
    requires IsModifier(w) || w == "fixed" || w == "const"
    ensures Surface.Lowercase(w)
  {
  }

  lemma MarkedOrdinary(w: string)
    requires Marked(w)
    ensures OrdinaryWord(w)
  {
    if !OrdinaryWord(w) { ModifierLowercase(w); }
  }

  lemma JoinOne(w: string)
    ensures JoinWords([w]) == w
  {
  }

  /** A name, by value or behind pointers. */
  lemma NamedText(name: string, stars: string)
    requires AllWordChars(name) && (stars == "" ==> OrdinaryWord(name)) && forall k :: 0 <= k < |stars| ==> stars[k] == '*'
    ensures TypeText(name + stars, [name + stars])
  {
    hide IsSpace, IsWordChar, OrdinaryWord;
    var t := name + stars;
    forall k | 0 <= k < |t| ensures !IsSpace(t[k]) && TypeChar(t[k]) && !Opening(t[k]) && !Closing(t[k]) && t[k] != ',' {
      if k < |name| { WordCharPlain(name[k]); } else { assert t[k] == stars[k - |name|]; StarPlain(); }
    }
    LevelPlain(t, 0);
    JoinOne(t);
    assert IsWord(t);
    if stars == "" {
      assert t == name;
    } else {
      assert t[|name|] == stars[0] == '*';
      StarPlain();
      assert Marked(t);
    }
  }

  lemma StarPlain()
    ensures !IsSpace('*') && TypeChar('*') && !Opening('*') && !Closing('*') && !IsWordChar('*')
  {
  }

  lemma PrimitiveName(name: string)
    requires Primitive(name).Some?
    ensures AllWordChars(Primitive(name).value) && OrdinaryWord(Primitive(name).value)
  {
    var p := Primitive(name).value;
    assert p in ["byte", "sbyte", "ushort", "short", "uint", "int", "ulong", "long", "nuint", "nint", "float", "double"];
    BuiltIn(p);
  }

  /** The built-in types are ordinary names. */
  lemma BuiltIn(p: string)
    requires p in ["byte", "sbyte", "ushort", "short", "uint", "int", "ulong", "long", "nuint", "nint", "float", "double", "void"]
    ensures AllWordChars(p) && OrdinaryWord(p)
  {
    assert Surface.Lowercase(p);
    LowercaseWord(p);
    if IsModifier(p) { ModifierStarts(p); }
  }

  lemma LowercaseWord(p: string)
    requires Surface.Lowercase(p)
    ensures forall k :: 0 <= k < |p| ==> IsWordChar(p[k])
  {
  }

  lemma ModifierStarts(m: string)
    requires IsModifier(m)
    ensures |m| == 3 || |m| == 4 || |m| >= 6
    ensures |m| == 3 ==> m[0] == 'n'
    ensures |m| == 4 ==> m[0] == 'f'
    ensures |m| == 6 ==> m[0] != 'd' && m[1] != 's'
  {
  }

  // ----- Function pointers -----

  /** Words with a text put at the end of the last. */
  function Suffixed(ws: seq<string>, s: string): (r: seq<string>)
    requires ws != []
    ensures |r| == |ws|
  {
    ws[|ws| - 1 := ws[|ws| - 1] + s]
  }

  /** Words with a text put before the first. */
  function Prefixed(s: string, ws: seq<string>): (r: seq<string>)
    requires ws != []
    ensures |r| == |ws|
  {
    ws[0 := s + ws[0]]
  }

  lemma JoinSuffixed(ws: seq<string>, s: string)
    requires ws != []
    ensures JoinWords(Suffixed(ws, s)) == JoinWords(ws) + s
  {
    var r, last := Suffixed(ws, s), |ws| - 1;
    assert r[..last] == ws[..last];
    if last > 0 {
      assert JoinWords(ws[..last]) + " " + (ws[last] + s) == JoinWords(ws[..last]) + " " + ws[last] + s;
    }
  }

  lemma JoinPrefixed(s: string, ws: seq<string>)
    requires ws != []
    ensures JoinWords(Prefixed(s, ws)) == s + JoinWords(ws)
  {
    hide JoinWords;
    var rest := ws[1..];
    assert ws == [ws[0]] + rest && Prefixed(s, ws) == [s + ws[0]] + rest;
    JoinFirst(ws[0], rest);
    JoinFirst(s + ws[0], rest);
    if rest != [] {
      assert s + ws[0] + " " + JoinWords(rest) == s + (ws[0] + " " + JoinWords(rest));
    }
  }

  predicate NoSpaceIn(s: string) { forall k :: 0 <= k < |s| ==> !IsSpace(s[k]) }

  lemma SuffixedWords(ws: seq<string>, s: string)
    requires ws != [] && AreWords(ws) && NoSpaceIn(s)
    ensures AreWords(Suffixed(ws, s))
    ensures (exists k :: 0 <= k < |s| && !IsWordChar(s[k])) ==> Marked(Suffixed(ws, s)[|ws| - 1])
  {
    hide IsSpace, IsWordChar;
    var last := |ws| - 1;
    var w := ws[last] + s;
    assert IsWord(ws[last]);
    assert forall k :: 0 <= k < |s| ==> w[|ws[last]| + k] == s[k];
    assert IsWord(w);
  }

  lemma PrefixedWords(s: string, ws: seq<string>)
    requires ws != [] && AreWords(ws) && NoSpaceIn(s)
    ensures AreWords(Prefixed(s, ws))
    ensures (exists k :: 0 <= k < |s| && !IsWordChar(s[k])) ==> Marked(Prefixed(s, ws)[0])
  {
    hide IsSpace, IsWordChar;
    var w := s + ws[0];
    assert IsWord(ws[0]);
    assert forall k :: 0 <= k < |s| ==> w[k] == s[k];
    assert IsWord(w);
  }

  /** That of some words all but the last are marked. */
  predicate MostMarked(ws: seq<string>) { forall k :: 0 <= k < |ws| - 1 ==> Marked(ws[k]) }

  /** The spelled types of a parameter list. */
  ghost predicate TypeTexts(parts: seq<string>) { forall k :: 0 <= k < |parts| ==> Spelled(parts[k]) }

  ghost predicate Spelled(t: string) { exists ws :: TypeText(t, ws) }

  lemma CharsAppend(a: string, b: string)
    requires TypeChars(a) && TypeChars(b)
    ensures TypeChars(a + b)
  {
  }

  lemma CommaChars()
    ensures TypeChars(", ") && TypeChars("delegate* unmanaged<") && TypeChars(">")
    ensures NoSpaceIn(",") && NoSpaceIn(">") && NoSpaceIn("unmanaged<")
    ensures !IsWordChar(","[0]) && !IsWordChar(">"[0]) && !IsWordChar("unmanaged<"[9])
  {
  }

  lemma JoinCommaCons(first: string, rest: seq<string>)
    ensures JoinComma([first] + rest) == if rest == [] then first else first + ", " + JoinComma(rest)
  {
    assert ([first] + rest)[1..] == rest;
  }

  /** Types with commas between them: level inside a bracket, and words of which only the last may
      be unmarked. */
  lemma {:induction false} ListText(parts: seq<string>) returns (ws: seq<string>)
    requires parts != [] && TypeTexts(parts)
    ensures ws != [] && AreWords(ws) && JoinComma(parts) == JoinWords(ws) && MostMarked(ws)
    ensures TypeChars(JoinComma(parts)) && Level(JoinComma(parts), 1) == Some(1)
    decreases |parts|
  {
    hide JoinWords, JoinComma, AreWords, TypeChars, Marked, Level, IsWordChar;
    var first, rest := parts[0], parts[1..];
    assert parts == [first] + rest;
    JoinCommaCons(first, rest);
    assert Spelled(first);
    var v :| TypeText(first, v);
    LevelRaise(first, 0);
    if rest == [] {
      ws := v;
    } else {
      assert forall k :: 0 <= k < |rest| ==> rest[k] == parts[k + 1];
      var more := ListText(rest);
      var glued := Suffixed(v, ",");
      CommaChars();
      SuffixedWords(v, ",");
      JoinSuffixed(v, ",");
      ws := glued + more;
      JoinAppend(glued, more);
      assert first + "," + " " + JoinWords(more) == first + ", " + JoinWords(more);
      WordsAppend(glued, more);
      assert MostMarked(ws);
      CharsAppend(first, ", ");
      CharsAppend(first + ", ", JoinComma(rest));
      LevelAppend(first, ", ", 1);
      LevelComma(0);
      LevelAppend(first + ", ", JoinComma(rest), 1);
    }
  }

  lemma WordsAppend(a: seq<string>, b: seq<string>)
    requires AreWords(a) && AreWords(b)
    ensures AreWords(a + b)
  {
  }

  /** The words of a function pointer: those of its list, closed in. */
  lemma PointerWords(inner: seq<string>) returns (ws: seq<string>)
    requires inner != [] && AreWords(inner) && MostMarked(inner)
    ensures ws != [] && AreWords(ws) && AllMarked(ws)
    ensures JoinWords(ws) == "delegate*" + " " + ("unmanaged<" + JoinWords(inner) + ">")
  {
    hide JoinWords, AreWords, IsWordChar, NoSpaceIn, Marked, MostMarked;
    CommaChars();
    var front := Prefixed("unmanaged<", inner);
    PrefixedWords("unmanaged<", inner);
    JoinPrefixed("unmanaged<", inner);
    var closed := Suffixed(front, ">");
    SuffixedWords(front, ">");
    JoinSuffixed(front, ">");
    ClosedMarked(inner, front, closed);
    DelegateWord();
    ws := ["delegate*"] + closed;
    WordsAppend(["delegate*"], closed);
    JoinFirst("delegate*", closed);
    forall k | 0 <= k < |ws| ensures Marked(ws[k]) {
      if k > 0 { assert ws[k] == closed[k - 1]; }
    }
  }

  /** A function pointer. */
  lemma PointerText(parts: seq<string>) returns (ws: seq<string>)
    requires parts != [] && TypeTexts(parts)
    ensures TypeText("delegate* unmanaged<" + JoinComma(parts) + ">", ws)
  {
    hide JoinWords, JoinComma, AreWords, TypeChars, Level, MostMarked, AllMarked, TypeTexts;
    var inner := ListText(parts);
    ws := PointerWords(inner);
    PointerSpelled(JoinComma(parts));
    AngleLevel(JoinComma(parts));
  }

  lemma PointerSpelled(list: string)
    requires TypeChars(list)
    ensures "delegate* unmanaged<" + list + ">" == "delegate*" + " " + ("unmanaged<" + list + ">")
    ensures TypeChars("delegate* unmanaged<" + list + ">")
  {
    hide TypeChars;
    CommaChars();
    assert "delegate* unmanaged<" == "delegate*" + " " + "unmanaged<";
    CharsAppend("delegate* unmanaged<", list);
    CharsAppend("delegate* unmanaged<" + list, ">");
  }

  lemma ClosedMarked(inner: seq<string>, prefixed: seq<string>, closed: seq<string>)
    requires inner != [] && MostMarked(inner)
    requires prefixed == Prefixed("unmanaged<", inner) && Marked(prefixed[0])
    requires closed == Suffixed(prefixed, ">") && Marked(closed[|closed| - 1])
    ensures AllMarked(closed)
  {
    hide Marked;
    forall k | 0 <= k < |closed| ensures Marked(closed[k]) {
      if 0 < k < |closed| - 1 { assert closed[k] == inner[k]; }
    }
  }

  lemma DelegateWord()
    ensures AreWords(["delegate*"]) && Marked("delegate*")
  {
    assert !IsWordChar("delegate*"[8]);
  }

  lemma AngleLevel(list: string)
    requires Level(list, 1) == Some(1)
    ensures Level("delegate* unmanaged<" + list + ">", 0) == Some(0)
  {
    hide Level;
    LevelPlain("delegate* unmanaged", 0);
    AngleOpens();
    LevelAppend("delegate* unmanaged", "<", 0);
    assert "delegate* unmanaged" + "<" == "delegate* unmanaged<";
    LevelAppend("delegate* unmanaged<", list, 0);
    LevelAppend("delegate* unmanaged<" + list, ">", 0);
  }

  lemma AngleOpens()
    ensures Level("<", 0) == Some(1) && Level(">", 1) == Some(0)
  {
    assert "<"[1..] == "" && ">"[1..] == "";
  }

  // ----- The type map -----

  /** Every type that the type map gives is spelled so. */
  lemma {:induction false} CsTypeText(h: Header, ty: CType, position: Position) returns (ws: seq<string>)
    requires Acyclic(h) && OrdinaryNames(h) && CsType(h, ty, position).Ok?
    ensures TypeText(CsType(h, ty, position).value, ws)
    decreases TypeRank(ty, RankIn(h)), ty
  {
    hide TypeText, OrdinaryNames, Primitive, CsValue, CsPointer;
    match ty
    case Function(signature) =>
      ws := CsPointerText(h, signature);
    case Array(element, _) =>
      ws := BufferText(element);
    case Named(name, pointers) =>
      var target := Lookup(h.aliases, name);
      if target.Some? {
        match target.value {
          case Named(base, inner) => ws := CsTypeText(h, CType.Named(base, inner + pointers), position);
          case _ => ws := CsTypeText(h, target.value, position);
        }
      } else {
        var callback := Lookup(h.callbacks, name);
        if callback.Some? {
          if pointers == 0 { ws := CsPointerText(h, callback.value); } else { ws := BuiltInText("nint"); }
        } else if pointers == 0 {
          ws := ValueText(h, name, position);
        } else {
          ws := StarsText(h, name, pointers, position);
        }
      }
  }

  lemma {:induction false} CsPointerText(h: Header, signature: Signature) returns (ws: seq<string>)
    requires Acyclic(h) && OrdinaryNames(h) && CsFunctionPointer(h, signature).Ok?
    ensures TypeText(CsFunctionPointer(h, signature).value, ws)
    decreases SignatureRank(signature, RankIn(h)), signature
  {
    hide TypeText, OrdinaryNames;
    CsParamsText(h, signature.params);
    var last := CsTypeText(h, signature.result, Return);
    var params, result := CsParams(h, signature.params).value, CsType(h, signature.result, Return).value;
    AnotherText(params, result, last);
    ws := PointerText(params + [result]);
  }

  lemma {:induction false} CsParamsText(h: Header, params: seq<Param>)
    requires Acyclic(h) && OrdinaryNames(h) && CsParams(h, params).Ok?
    ensures TypeTexts(CsParams(h, params).value)
    decreases ParamsRank(params, RankIn(h)), params
  {
    hide TypeText, OrdinaryNames;
    if params != [] {
      var ws := CsTypeText(h, params[0].ty, Parameter);
      CsParamsText(h, params[1..]);
      FirstTextOf(CsType(h, params[0].ty, Parameter).value, ws, CsParams(h, params[1..]).value);
    }
  }

  lemma AnotherText(parts: seq<string>, last: string, ws: seq<string>)
    requires TypeTexts(parts) && TypeText(last, ws)
    ensures TypeTexts(parts + [last])
  {
    hide TypeText;
    assert Spelled(last);
  }

  lemma FirstTextOf(first: string, ws: seq<string>, parts: seq<string>)
    requires TypeTexts(parts) && TypeText(first, ws)
    ensures TypeTexts([first] + parts)
  {
    hide TypeText;
    assert Spelled(first);
  }

  lemma BuiltInText(p: string) returns (ws: seq<string>)
    requires p in ["byte", "sbyte", "ushort", "short", "uint", "int", "ulong", "long", "nuint", "nint", "float", "double", "void"]
    ensures TypeText(p, ws)
  {
    hide TypeText;
    BuiltIn(p);
    NamedText(p, "");
    assert p + "" == p;
    ws := [p];
  }

  lemma BufferText(element: string) returns (ws: seq<string>)
    requires CsBuffer(element).Ok?
    ensures TypeText(CsBuffer(element).value, ws)
  {
    hide TypeText, Primitive;
    var p := CsBuffer(element).value;
    PrimitiveName(element);
    NamedText(p, "");
    assert p + "" == p;
    ws := [p];
  }

  lemma ValueText(h: Header, name: string, position: Position) returns (ws: seq<string>)
    requires OrdinaryNames(h) && CsValue(h, name, position).Ok?
    ensures TypeText(CsValue(h, name, position).value, ws)
  {
    hide TypeText, Primitive, AllWordChars, OrdinaryWord;
    var p := CsValue(h, name, position).value;
    if name == "void" {
      ws := BuiltInText("void");
    } else {
      if !IsStruct(h, name) && !IsEnum(h, name) { PrimitiveName(name); }
      NamedText(p, "");
      assert p + "" == p;
      ws := [p];
    }
  }

  lemma StarsText(h: Header, name: string, pointers: nat, position: Position) returns (ws: seq<string>)
    requires pointers > 0 && OrdinaryNames(h) && CsPointer(h, name, pointers, position).Ok?
    ensures TypeText(CsPointer(h, name, pointers, position).value, ws)
  {
    hide TypeText, Primitive, AllWordChars, OrdinaryWord;
    var p, stars := CsPointer(h, name, pointers, position).value, Repeat('*', pointers - 1);
    if position == Return {
      ws := BuiltInText("nint");
    } else if IsOpaque(h, name) {
      BuiltIn("nint");
      NamedText("nint", stars);
      ws := [p];
    } else {
      if name == "void" {
        BuiltIn("void");
      } else if !IsStruct(h, name) && !IsEnum(h, name) {
        PrimitiveName(name);
      }
      var base := if name == "void" || IsStruct(h, name) || IsEnum(h, name) then name else Primitive(name).value;
      NamedText(base, "*" + stars);
      assert base + "*" + stars == base + ("*" + stars);
      ws := [p];
    }
  }
}
