/** What C# files declare, and the spelling in which their types are compared. */
module Surface {
  import opened Wrappers
  import opened Text

  datatype Attribute = Attribute(name: string, args: string)

  /** A parameter, or a field of a struct. */
  datatype Slot = Slot(name: string, ty: string, fixed_: Option<nat>)

  datatype Import = Import(file: string, symbol: string, result: string, params: seq<Slot>, attributes: seq<Attribute>)

  datatype LayoutStruct = LayoutStruct(file: string, name: string, fields: seq<Slot>)

  datatype CsEnum = CsEnum(file: string, name: string, underlying: string, members: seq<(string, int)>)

  datatype Declarations = Declarations(imports: seq<Import>, structs: seq<LayoutStruct>, enums: seq<CsEnum>)

  // ----- The canonical spelling of a type -----

  /** The keyword of a built-in type that was given its name in `System`. */
  function Keyword(word: string): string {
    match word
    case "IntPtr" => "nint"
    case "UIntPtr" => "nuint"
    case "Byte" => "byte"
    case "SByte" => "sbyte"
    case "Int16" => "short"
    case "UInt16" => "ushort"
    case "Int32" => "int"
    case "UInt32" => "uint"
    case "Int64" => "long"
    case "UInt64" => "ulong"
    case "Single" => "float"
    case "Double" => "double"
    case "Void" => "void"
    case _ => word
  }

  /** A text without the occurrences of `part`. */
  function Without(s: string, part: string, at: nat := 0): string
    requires at <= |s| && part != ""
    decreases |s| - at
  {
    if at == |s| then ""
    else if StandsAt(s, part, at) then Without(s, part, at + |part|)
    else [s[at]] + Without(s, part, at + 1)
  }

  /** A word, or one character that is neither in a word nor white space. */
  datatype Token = Word(word: string) | Mark(mark: char)

  /** A word that is flushed: the built-in types under their keywords. */
  function Flushed(word: string): seq<Token> { if word == "" then [] else [Word(Keyword(word))] }

  /** The tokens of a type from `at` on, of which `word` was begun. */
  function TokensFrom(ty: string, at: nat, word: string): seq<Token>
    requires at <= |ty|
    decreases |ty| - at
  {
    if at == |ty| then Flushed(word)
    else if IsIdentifierChar(ty[at]) then TokensFrom(ty, at + 1, word + [ty[at]])
    else Flushed(word) + (if IsSpace(ty[at]) then [] else [Mark(ty[at])]) + TokensFrom(ty, at + 1, "")
  }

  /** The tokens of a type, qualifiers left out. */
  function TypeTokens(ty: string): seq<Token> {
    TokensFrom(Without(Without(ty, "global::"), "System."), 0, "")
  }

  /** Tokens written with a space between two words only. */
  function Written(ts: seq<Token>, afterWord: bool): string {
    if ts == [] then ""
    else if ts[0].Mark? then [ts[0].mark] + Written(ts[1..], false)
    else (if afterWord then " " else "") + ts[0].word + Written(ts[1..], true)
  }

  function EndsInWord(ts: seq<Token>, afterWord: bool): bool { if ts == [] then afterWord else ts[|ts| - 1].Word? }

  function CanonicalOf(ty: string): string { Written(TypeTokens(ty), false) }

  method Canonical(written: string) returns (out: string)
    ensures out == CanonicalOf(written)
  {
    hide *;
    var ty := Without(Without(written, "global::"), "System.");
    out := "";
    var word: string := "";
    var lastWasWord := false;
    ghost var done: seq<Token> := [];
    CanonicalStarts(written);
    for at := 0 to |ty|
      invariant TypeTokens(written) == done + TokensFrom(ty, at, word)
      invariant out == Written(done, false) && lastWasWord == EndsInWord(done, false)
    {
      var c := ty[at];
      TokensStep(ty, at, word);
      if IsIdentifierChar(c) {
        word := word + [c];
        continue;
      }
      var rest := TokensFrom(ty, at + 1, "");
      assert done + (Flushed(word) + Marking(c) + rest) == done + Flushed(word) + Marking(c) + rest;
      WrittenAppend(done, Flushed(word), false);
      WrittenAppend(done + Flushed(word), Marking(c), false);
      WrittenMark(c, EndsInWord(done + Flushed(word), false));
      out, lastWasWord := Flush(word, out, lastWasWord);
      done := done + Flushed(word) + Marking(c);
      word := "";
      if !IsSpace(c) {
        out := out + [c];
        lastWasWord := false;
      }
    }
    TokensStep(ty, |ty|, word);
    WrittenAppend(done, Flushed(word), false);
    out, lastWasWord := Flush(word, out, lastWasWord);
    CanonicalEnds(written);
  }

  function Marking(c: char): seq<Token> { if IsSpace(c) then [] else [Mark(c)] }

  lemma TokensStep(ty: string, at: nat, word: string)
    requires at <= |ty|
    ensures TokensFrom(ty, at, word)
         == if at == |ty| then Flushed(word)
            else if IsIdentifierChar(ty[at]) then TokensFrom(ty, at + 1, word + [ty[at]])
            else Flushed(word) + Marking(ty[at]) + TokensFrom(ty, at + 1, "")
  {
    hide IsSpace, IsIdentifierChar, Flushed;
  }

  lemma CanonicalStarts(written: string)
    ensures TypeTokens(written) == [] + TokensFrom(Without(Without(written, "global::"), "System."), 0, "")
    ensures Written([], false) == "" && !EndsInWord([], false)
  {
  }

  lemma CanonicalEnds(written: string)
    ensures CanonicalOf(written) == Written(TypeTokens(written), false)
  {
    hide TypeTokens, Written;
  }

  lemma WrittenMark(c: char, afterWord: bool)
    ensures Written(Marking(c), afterWord) == if IsSpace(c) then "" else [c]
    ensures EndsInWord(Marking(c), afterWord) == (IsSpace(c) && afterWord)
  {
    hide IsSpace;
  }

  method Flush(word: string, written: string, afterWord: bool) returns (out: string, lastWasWord: bool)
    ensures out == written + Written(Flushed(word), afterWord)
    ensures lastWasWord == EndsInWord(Flushed(word), afterWord)
  {
    hide Keyword;
    out, lastWasWord := written, afterWord;
    if word == "" { return; }
    if lastWasWord { out := out + " "; }
    out := out + Keyword(word);
    lastWasWord := true;
  }

  lemma {:induction false} WrittenAppend(a: seq<Token>, b: seq<Token>, afterWord: bool)
    ensures Written(a + b, afterWord) == Written(a, afterWord) + Written(b, EndsInWord(a, afterWord))
    ensures EndsInWord(a + b, afterWord) == EndsInWord(b, EndsInWord(a, afterWord))
    decreases |a|
  {
    EndsAppend(a, b, afterWord);
    if a == [] {
      assert a + b == b;
    } else {
      hide Written, EndsInWord, Start;
      var t, more, after := a[0], a[1..], EndsInWord(a, afterWord);
      EndsStep(a, afterWord);
      assert a + b == [t] + (more + b) && a == [t] + more;
      WrittenStep(t, more + b, afterWord);
      WrittenStep(t, more, afterWord);
      WrittenAppend(more, b, t.Word?);
      StartThen(t, Written(more, t.Word?), Written(b, after), afterWord);
    }
  }

  lemma EndsStep(a: seq<Token>, afterWord: bool)
    requires a != []
    ensures EndsInWord(a, afterWord) == EndsInWord(a[1..], a[0].Word?)
  {
  }

  lemma EndsAppend(a: seq<Token>, b: seq<Token>, afterWord: bool)
    ensures EndsInWord(a + b, afterWord) == EndsInWord(b, EndsInWord(a, afterWord))
  {
    assert b == [] ==> a + b == a;
    assert b != [] ==> (a + b)[|a + b| - 1] == b[|b| - 1];
  }

  lemma StartThen(t: Token, more: string, last: string, afterWord: bool)
    ensures Start(t, more + last, afterWord) == Start(t, more, afterWord) + last
  {
    if t.Word? {
      var space := if afterWord then " " else "";
      assert space + (t.word + (more + last)) == space + (t.word + more) + last;
    }
  }

  function Start(t: Token, more: string, afterWord: bool): string {
    if t.Mark? then [t.mark] + more else (if afterWord then " " else "") + (t.word + more)
  }

  lemma WrittenStep(t: Token, rest: seq<Token>, afterWord: bool)
    ensures Written([t] + rest, afterWord) == Start(t, Written(rest, t.Word?), afterWord)
  {
    assert ([t] + rest)[1..] == rest;
  }

  // ----- Two spellings of one type -----

  predicate TokenOk(t: Token) {
    if t.Word? then t.word != "" && forall c :: c in t.word ==> IsIdentifierChar(c)
    else !IsIdentifierChar(t.mark) && !IsSpace(t.mark)
  }

  lemma {:induction false} TokensAreOk(ty: string, at: nat, word: string)
    requires at <= |ty| && forall c :: c in word ==> IsIdentifierChar(c)
    ensures forall t :: t in TokensFrom(ty, at, word) ==> TokenOk(t)
    decreases |ty| - at
  {
    hide IsSpace, IsIdentifierChar, Flushed;
    FlushedOk(word);
    TokensStep(ty, at, word);
    if at < |ty| {
      if IsIdentifierChar(ty[at]) {
        TokensAreOk(ty, at + 1, word + [ty[at]]);
      } else {
        TokensAreOk(ty, at + 1, "");
      }
    }
  }

  lemma FlushedOk(word: string)
    requires forall c :: c in word ==> IsIdentifierChar(c)
    ensures forall t :: t in Flushed(word) ==> TokenOk(t)
  {
    hide Keyword, IsIdentifierChar;
    KeywordOk(word);
  }

  predicate Lowercase(s: string) { forall k :: 0 <= k < |s| ==> 'a' <= s[k] <= 'z' }

  lemma KeywordOk(word: string)
    requires forall c :: c in word ==> IsIdentifierChar(c)
    ensures word != "" ==> Keyword(word) != ""
    ensures forall c :: c in Keyword(word) ==> IsIdentifierChar(c)
  {
    var keyword := Keyword(word);
    if keyword != word {
      assert Lowercase(keyword);
      forall c | c in keyword ensures IsIdentifierChar(c) {
        var k :| 0 <= k < |keyword| && keyword[k] == c;
        assert 'a' <= keyword[k] <= 'z';
      }
    }
  }

  /** A word stands apart from what is written after it. */
  lemma WordsApart(v: string, a: string, w: string, b: string)
    requires v + a == w + b
    requires (forall c :: c in v ==> IsIdentifierChar(c)) && (forall c :: c in w ==> IsIdentifierChar(c))
    requires (a == "" || !IsIdentifierChar(a[0])) && (b == "" || !IsIdentifierChar(b[0]))
    ensures v == w && a == b
  {
    hide IsIdentifierChar;
    var s := v + a;
    assert forall k :: 0 <= k < |w| ==> s[k] == w[k] && w[k] in w;
    assert forall k :: 0 <= k < |v| ==> s[k] == v[k] && v[k] in v;
    assert a != "" ==> s[|v|] == a[0];
    assert b != "" ==> s[|w|] == b[0];
    assert v == s[..|v|] && w == s[..|w|];
    assert a == (v + a)[|v|..] && b == (w + b)[|w|..];
  }

  lemma AfterWord(ts: seq<Token>)
    requires forall t :: t in ts ==> TokenOk(t)
    ensures Written(ts, true) != "" ==> !IsIdentifierChar(Written(ts, true)[0])
  {
    if ts != [] { assert TokenOk(ts[0]); }
  }

  lemma WrittenOne(ts: seq<Token>, afterWord: bool)
    requires ts != [] && forall t :: t in ts ==> TokenOk(t)
    ensures TokenOk(ts[0]) && (forall t :: t in ts[1..] ==> TokenOk(t))
    ensures Written(ts, afterWord) == Start(ts[0], Written(ts[1..], ts[0].Word?), afterWord)
  {
    assert ts == [ts[0]] + ts[1..];
  }

  lemma FirstOf(t: Token)
    requires TokenOk(t)
    ensures t.Mark? ==> !IsIdentifierChar(t.mark) && t.mark != ' '
    ensures t.Word? ==> t.word != "" && IsIdentifierChar(t.word[0]) && (forall c :: c in t.word ==> IsIdentifierChar(c))
  {
    assert t.Word? ==> t.word[0] in t.word;
  }

  lemma NothingWritten(ts: seq<Token>, afterWord: bool)
    requires forall t :: t in ts ==> TokenOk(t)
    ensures Written(ts, afterWord) == "" <==> ts == []
  {
    if ts != [] {
      hide Written;
      WrittenOne(ts, afterWord);
    }
  }

  /** Written tokens can be told apart. */
  lemma {:induction false} WrittenApart(ts: seq<Token>, us: seq<Token>, afterWord: bool)
    requires (forall t :: t in ts ==> TokenOk(t)) && (forall t :: t in us ==> TokenOk(t))
    requires Written(ts, afterWord) == Written(us, afterWord)
    ensures ts == us
    decreases |ts|
  {
    hide IsIdentifierChar, TokenOk, Written;
    NothingWritten(ts, afterWord);
    NothingWritten(us, afterWord);
    if ts != [] {
      WrittenOne(ts, afterWord);
      WrittenOne(us, afterWord);
      FirstOf(ts[0]);
      FirstOf(us[0]);
      var t, u := ts[1..], us[1..];
      if ts[0].Mark? {
        MarkFirst(ts[0].mark, Written(t, false), us[0], Written(u, us[0].Word?), afterWord);
        WrittenApart(t, u, false);
      } else {
        WordFirst(ts[0].word, Written(t, true), us[0], Written(u, us[0].Word?), afterWord);
        AfterWord(t);
        AfterWord(u);
        WordsApart(ts[0].word, Written(t, true), us[0].word, Written(u, true));
        WrittenApart(t, u, true);
      }
      assert ts == [ts[0]] + t && us == [us[0]] + u;
    }
  }

  /** How a written token starts, and what is left after its mark or the space before it. */
  lemma StartIs(t: Token, more: string, afterWord: bool)
    requires TokenOk(t)
    ensures var s := Start(t, more, afterWord);
            && s != "" && s[0] == (if t.Mark? then t.mark else if afterWord then ' ' else t.word[0])
            && (t.Mark? ==> s[1..] == more && !IsIdentifierChar(t.mark) && t.mark != ' ')
            && (t.Word? ==> IsIdentifierChar(t.word[0]) && (if afterWord then s[1..] else s) == t.word + more)
  {
    FirstOf(t);
    hide IsIdentifierChar, TokenOk;
    assert t.Word? && afterWord ==> Start(t, more, afterWord) == [' '] + (t.word + more);
  }

  lemma MarkFirst(mark: char, more: string, u: Token, rest: string, afterWord: bool)
    requires TokenOk(Mark(mark)) && TokenOk(u) && [mark] + more == Start(u, rest, afterWord)
    ensures u == Mark(mark) && more == rest
  {
    hide IsIdentifierChar, TokenOk, Start;
    MarkStart(mark, more, afterWord);
    StartIs(Mark(mark), more, afterWord);
    StartIs(u, rest, afterWord);
  }

  lemma MarkStart(mark: char, more: string, afterWord: bool)
    ensures Start(Mark(mark), more, afterWord) == [mark] + more
  {
  }

  lemma WordFirst(word: string, more: string, u: Token, rest: string, afterWord: bool)
    requires TokenOk(Word(word)) && TokenOk(u) && Start(Word(word), more, afterWord) == Start(u, rest, afterWord)
    ensures u.Word? && word + more == u.word + rest
  {
    hide IsIdentifierChar, TokenOk, Start;
    StartIs(Word(word), more, afterWord);
    StartIs(u, rest, afterWord);
  }

  /** Two types are compared as one if and only if they are the same words and marks, but for
      white space, qualifiers and the names of the built-in types. */
  lemma SameSpelling(a: string, b: string)
    ensures CanonicalOf(a) == CanonicalOf(b) <==> TypeTokens(a) == TypeTokens(b)
  {
    hide Written, IsIdentifierChar, IsSpace, TokensFrom, Without, TokenOk;
    TokensAreOk(Without(Without(a, "global::"), "System."), 0, "");
    TokensAreOk(Without(Without(b, "global::"), "System."), 0, "");
    if CanonicalOf(a) == CanonicalOf(b) {
      WrittenApart(TypeTokens(a), TypeTokens(b), false);
    }
  }
}
