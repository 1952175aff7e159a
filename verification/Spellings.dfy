/** Which spellings of a C# type are taken for the same: the names of the built-in types in `System`,
    qualifiers and white space. */
module Spellings {
  import opened Wrappers
  import opened Text
  import opened Words
  import opened Surface
  import opened TypeMap

  // ----- Built-in types -----

  /** The types of `System` that have keywords, by what they hold. */
  function SystemKind(name: string): Option<Kind> {
    if name == "Byte" then Some(Integer(false, 8))
    else if name == "SByte" then Some(Integer(true, 8))
    else if name == "UInt16" then Some(Integer(false, 16))
    else if name == "Int16" then Some(Integer(true, 16))
    else if name == "UInt32" then Some(Integer(false, 32))
    else if name == "Int32" then Some(Integer(true, 32))
    else if name == "UInt64" then Some(Integer(false, 64))
    else if name == "Int64" then Some(Integer(true, 64))
    else if name == "UIntPtr" then Some(PointerSized(false))
    else if name == "IntPtr" then Some(PointerSized(true))
    else if name == "Single" then Some(Floating(32))
    else if name == "Double" then Some(Floating(64))
    else None
  }

  /** The name of a built-in type is spelled as the keyword of the type that holds the same; `Void` is
      `void`, and any other word is spelled as it is. */
  lemma KeywordIs(word: string)
    ensures SystemKind(word).Some? ==> CsKind(Keyword(word)) == SystemKind(word)
    ensures word == "Void" ==> Keyword(word) == "void"
    ensures SystemKind(word).None? && word != "Void" ==> Keyword(word) == word
  {
  }

  // ----- Tokens -----

  predicate IsTypeWord(w: string) { w != "" && forall k :: 0 <= k < |w| ==> IsIdentifierChar(w[k]) }

  /** A word is read to its end. */
  lemma {:induction false} WordRead(ty: string, at: nat, word: string, w: string)
    requires at + |w| <= |ty| && ty[at..at + |w|] == w && forall k :: 0 <= k < |w| ==> IsIdentifierChar(w[k])
    ensures TokensFrom(ty, at, word) == TokensFrom(ty, at + |w|, word + w)
    decreases |w|
  {
    hide IsIdentifierChar;
    if w == "" {
      assert word + w == word;
    } else {
      assert ty[at] == ty[at..at + |w|][0] == w[0];
      assert ty[at + 1..at + 1 + |w[1..]|] == ty[at..at + |w|][1..] == w[1..];
      TokensStep(ty, at, word);
      WordRead(ty, at + 1, word + [w[0]], w[1..]);
      assert word + [w[0]] + w[1..] == word + w;
    }
  }

  /** A text of tokens: words, marks and white space. */
  datatype Part = WordPart(word: string) | MarkPart(mark: char) | SpacePart(white: string)

  predicate PartOk(p: Part) {
    match p
    case WordPart(w) => IsTypeWord(w)
    case MarkPart(c) => !IsIdentifierChar(c) && !IsSpace(c)
    case SpacePart(s) => White(s)
  }

  /** That something stands between any two words. */
  predicate PartsOk(ps: seq<Part>) {
    && (forall k :: 0 <= k < |ps| ==> PartOk(ps[k]))
    && (forall k :: 0 <= k < |ps| - 1 && ps[k].WordPart? ==> ps[k + 1].MarkPart? || (ps[k + 1].SpacePart? && ps[k + 1].white != ""))
  }

  function PartText(p: Part): string {
    match p case WordPart(w) => w case MarkPart(c) => [c] case SpacePart(s) => s
  }

  function PartsText(ps: seq<Part>): string { if ps == [] then "" else PartText(ps[0]) + PartsText(ps[1..]) }

  /** The words under their keywords and the marks, in their order. */
  function PartTokens(ps: seq<Part>): seq<Token> {
    if ps == [] then [] else PartToken(ps[0]) + PartTokens(ps[1..])
  }

  lemma SpaceNoIdentifier(c: char)
    requires IsSpace(c)
    ensures !IsIdentifierChar(c)
  {
  }

  lemma {:induction false} SpaceRead(ty: string, at: nat, s: string)
    requires at + |s| <= |ty| && ty[at..at + |s|] == s && White(s)
    ensures TokensFrom(ty, at, "") == TokensFrom(ty, at + |s|, "")
    decreases |s|
  {
    hide IsIdentifierChar, IsSpace;
    if s != "" {
      assert ty[at] == ty[at..at + |s|][0] == s[0];
      SpaceNoIdentifier(s[0]);
      assert ty[at + 1..at + 1 + |s[1..]|] == ty[at..at + |s|][1..] == s[1..];
      TokensStep(ty, at, "");
      SpaceRead(ty, at + 1, s[1..]);
    }
  }

  /** How a text of parts starts. */
  lemma PartsStart(ps: seq<Part>)
    requires PartsOk(ps) && ps != [] && ps[0].WordPart?
    ensures PartsText(ps[1..]) != "" ==> !IsIdentifierChar(PartsText(ps[1..])[0])
  {
    if |ps| > 1 {
      assert PartOk(ps[1]) && ps[1..][0] == ps[1];
      var text := PartText(ps[1]);
      assert PartsText(ps[1..])[0] == text[0];
      if ps[1].SpacePart? { SpaceNoIdentifier(text[0]); }
    }
  }

  /** Where a word ends, it is flushed. */
  lemma FlushedAt(ty: string, at: nat, w: string)
    requires at <= |ty| && w != "" && (at < |ty| ==> !IsIdentifierChar(ty[at]))
    ensures TokensFrom(ty, at, w) == [Word(Keyword(w))] + TokensFrom(ty, at, "")
  {
    hide IsIdentifierChar, IsSpace, Keyword;
    TokensStep(ty, at, w);
    TokensStep(ty, at, "");
  }

  function PartToken(p: Part): seq<Token> {
    match p case WordPart(w) => [Word(Keyword(w))] case MarkPart(c) => [Mark(c)] case SpacePart(_) => []
  }

  /** One part is read, if no word goes on behind a word. */
  lemma PartRead(ty: string, at: nat, p: Part)
    requires PartOk(p) && at + |PartText(p)| <= |ty| && ty[at..at + |PartText(p)|] == PartText(p)
    requires p.WordPart? && at + |PartText(p)| < |ty| ==> !IsIdentifierChar(ty[at + |PartText(p)|])
    ensures TokensFrom(ty, at, "") == PartToken(p) + TokensFrom(ty, at + |PartText(p)|, "")
  {
    hide IsIdentifierChar, IsSpace, Keyword, TokensFrom;
    match p
    case WordPart(w) =>
      WordRead(ty, at, "", w);
      assert "" + w == w;
      FlushedAt(ty, at + |w|, w);
    case MarkPart(c) =>
      assert ty[at] == ty[at..at + 1][0] == c;
      TokensStep(ty, at, "");
      NoWord(c);
    case SpacePart(s) =>
      SpaceRead(ty, at, s);
  }

  lemma NoWord(c: char)
    requires !IsSpace(c)
    ensures Flushed("") == [] && Marking(c) == [Mark(c)]
  {
  }

  /** A text of parts is read as its words and marks, whatever white space is between them. */
  lemma {:induction false} PartsRead(ty: string, at: nat, ps: seq<Part>)
    requires at <= |ty| && ty[at..] == PartsText(ps) && PartsOk(ps)
    ensures TokensFrom(ty, at, "") == PartTokens(ps)
    decreases |ps|
  {
    hide IsIdentifierChar, IsSpace, TokensFrom, PartText, PartToken, PartOk;
    if ps == [] {
      TokensStep(ty, at, "");
      assert Flushed("") == [];
    } else {
      var text, rest := PartText(ps[0]), ps[1..];
      var next := at + |text|;
      assert PartOk(ps[0]);
      assert ty[at..next] == ty[at..][..|text|] == text && ty[next..] == ty[at..][|text|..] == PartsText(rest);
      RestOk(ps);
      PartsRead(ty, next, rest);
      if ps[0].WordPart? {
        PartsStart(ps);
        assert next < |ty| ==> ty[next] == ty[next..][0];
      }
      PartRead(ty, at, ps[0]);
    }
  }

  lemma RestOk(ps: seq<Part>)
    requires PartsOk(ps) && ps != []
    ensures PartsOk(ps[1..])
  {
    var rest := ps[1..];
    assert forall k :: 0 <= k < |rest| ==> rest[k] == ps[k + 1];
  }

  // ----- Qualifiers -----

  /** That no qualifier stands in a text. */
  predicate Unqualified(s: string) { forall k :: 0 <= k < |s| ==> !StandsAt(s, "global::", k) && !StandsAt(s, "System.", k) }

  lemma {:induction false} NothingWithout(s: string, part: string, at: nat)
    requires at <= |s| && part != "" && forall k :: at <= k < |s| ==> !StandsAt(s, part, k)
    ensures Without(s, part, at) == s[at..]
    decreases |s| - at
  {
    hide StandsAt;
    if at < |s| { NothingWithout(s, part, at + 1); }
  }

  /** A text after a qualifier. */
  lemma QualifierDropped(part: string, s: string)
    requires part != "" && forall k :: 0 <= k < |s| ==> !StandsAt(s, part, k)
    ensures Without(part + s, part) == s
  {
    var all := part + s;
    assert StandsAt(all, part, 0);
    forall k | |part| <= k < |all| ensures !StandsAt(all, part, k) {
      var j := k - |part|;
      StandsBehind(all, |part|, s, j, part);
    }
    NothingWithout(all, part, |part|);
    assert all[|part|..] == s;
  }

  lemma NoGlobalInSystem(s: string)
    requires forall k :: 0 <= k < |s| ==> !StandsAt(s, "global::", k)
    ensures forall k :: 0 <= k < |"System." + s| ==> !StandsAt("System." + s, "global::", k)
  {
    var all := "System." + s;
    assert |"System."| == 7 && "global::"[0] == 'g';
    forall k | 0 <= k < |all| ensures !StandsAt(all, "global::", k) {
      if k < 7 {
        assert all[k + 0] == "System."[k];
        assert "System."[k] != 'g';
      } else {
        StandsBehind(all, 7, s, k - 7, "global::");
      }
    }
  }

  /** A type is read as the same with `System.` or `global::System.` before it. */
  lemma QualifiedRead(s: string)
    requires Unqualified(s)
    ensures TypeTokens(s) == TokensFrom(s, 0, "")
    ensures TypeTokens("System." + s) == TypeTokens("global::" + ("System." + s)) == TokensFrom(s, 0, "")
  {
    hide StandsAt, TokensFrom, Without;
    NothingWithout(s, "global::", 0);
    NothingWithout(s, "System.", 0);
    assert s[0..] == s;
    var all := "System." + s;
    NoGlobalInSystem(s);
    NothingWithout(all, "global::", 0);
    assert all[0..] == all;
    QualifierDropped("System.", s);
    QualifierDropped("global::", all);
  }

  /** So two texts of the same words and marks are one spelling, qualified or not and whatever white
      space is in them, if and only if their words are the same under their keywords. */
  lemma SpellingIsParts(ps: seq<Part>, qs: seq<Part>)
    requires PartsOk(ps) && PartsOk(qs) && Unqualified(PartsText(ps)) && Unqualified(PartsText(qs))
    ensures CanonicalOf("System." + PartsText(ps)) == CanonicalOf(PartsText(qs)) <==> PartTokens(ps) == PartTokens(qs)
    ensures CanonicalOf(PartsText(ps)) == CanonicalOf(PartsText(qs)) <==> PartTokens(ps) == PartTokens(qs)
  {
    hide CanonicalOf, TypeTokens, TokensFrom, Unqualified, PartsOk;
    var s, t := PartsText(ps), PartsText(qs);
    QualifiedRead(s);
    QualifiedRead(t);
    assert s[0..] == s && t[0..] == t;
    PartsRead(s, 0, ps);
    PartsRead(t, 0, qs);
    SameSpelling("System." + s, t);
    SameSpelling(s, t);
  }
}
