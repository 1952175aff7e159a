/** How the reader takes the fields and imports that are rendered. */
module MembersBack {
  import opened Wrappers
  import opened Text
  import opened Numbers
  import opened Words
  import opened Surface
  import opened SurfaceReader
  import opened TypeTexts
  import opened ReadBack
  import Render

  // ----- Names -----

  predicate NameText(s: string) { s != "" && forall k :: 0 <= k < |s| ==> IsNameChar(s[k]) }

  /** A C# name is a word, which the reader takes for the C name it stands for. */
  lemma CsNameIs(name: string)
    requires AllWordChars(name)
    ensures var n := Render.CsName(name);
            NameText(n) && IsWord(n) && WithoutAt(n) == name && n != "static" && n != "const" && n[0] != '['
  {
    hide IsWordChar, IsIdentifierChar, IsNameChar, IsSpace, Render.IsKeyword;
    var n := Render.CsName(name);
    forall k | 0 <= k < |n| ensures IsNameChar(n[k]) && !IsSpace(n[k]) && n[k] != '[' {
      if n == name { NamePlain(name[k]); } else if k > 0 { assert n[k] == name[k - 1]; NamePlain(name[k - 1]); } else { AtPlain(); }
    }
    NamePlain(name[0]);
    WithoutAtIs(n, name);
    KeywordsAre();
  }

  lemma KeywordsAre()
    ensures Render.IsKeyword("static") && Render.IsKeyword("const") && "static"[0] == 's' && "const"[0] == 'c'
  {
    assert Render.KEYWORDS_A_TO_D[11] == "const";
    assert "static" in Render.KEYWORDS_S_TO_W;
  }

  lemma WithoutAtIs(n: string, name: string)
    requires name != "" && name[0] != '@' && (n == name || n == "@" + name)
    ensures WithoutAt(n) == name
  {
    assert ("@" + name)[1..] == name;
  }

  lemma NamePlain(c: char)
    requires IsWordChar(c)
    ensures IsNameChar(c) && IsIdentifierChar(c) && !IsSpace(c) && c != '@' && c != '[' && c != '='
  {
  }

  lemma AtPlain()
    ensures IsNameChar('@') && !IsSpace('@')
  {
  }

  /** The name after a space is split off a declaration. */
  lemma NameSplit(before: string, name: string)
    requires Trimmed(before) && NameText(name) && IsWord(name)
    ensures SplitName(before + " " + name) == Some((before, WithoutAt(name)))
  {
    hide IsSpace, TrimEnd, WithoutAt, IsNameChar;
    var text, start := before + " " + name, |before| + 1;
    assert Trimmed(text);
    TrimSame(text);
    assert forall k :: start <= k < |text| ==> text[k] == name[k - start];
    assert text[start - 1] == ' ';
    SpaceNoName();
    NameStarts(text, |text|, start);
    assert text[start..] == name && text[..start] == before + " ";
    NoWhite();
    TrimEndAround(before, " ");
  }

  lemma SpaceNoName()
    ensures !IsNameChar(' ')
  {
  }

  lemma NameStarts(s: string, stop: nat, start: nat)
    requires 0 < start <= stop <= |s| && (forall k :: start <= k < stop ==> IsNameChar(s[k])) && !IsNameChar(s[start - 1])
    ensures NameStart(s, stop) == start
  {
    hide IsNameChar;
  }

  // ----- Characters that the reader looks for -----

  predicate Quiet(s: string) { forall k :: 0 <= k < |s| ==> s[k] != '(' && s[k] != ')' && s[k] != '=' }

  lemma QuietAppend(a: string, b: string)
    requires Quiet(a) && Quiet(b)
    ensures Quiet(a + b)
  {
  }

  lemma QuietType(t: string)
    requires TypeChars(t)
    ensures Quiet(t)
  {
  }

  lemma QuietName(name: string)
    requires NameText(name)
    ensures Quiet(name)
  {
  }

  lemma QuietNoList(s: string)
    requires Quiet(s)
    ensures ParametersOf(s).None? && '(' !in s && Find(s, "=>").None? && FindChar(s, '=') == |s|
  {
    hide Trim, OpenBefore;
    forall k | 0 <= k <= |s| ensures !StandsAt(s, "=>", k) {
      assert "=>"[0] == '=' && (k < |s| ==> s[k + 0] != '=');
    }
  }

  // ----- Fields -----

  lemma LowercaseIsWord(w: string)
    requires Surface.Lowercase(w) && w != ""
    ensures IsWord(w) && Quiet(w)
  {
  }

  lemma PublicText()
    ensures IsModifier("public") && IsModifier("static") && IsModifier("partial") && !IsModifier("fixed")
    ensures IsWord("public") && IsWord("static") && IsWord("partial") && IsWord("fixed")
    ensures Quiet("public ") && Quiet("fixed ") && Quiet("[") && Quiet("]") && Quiet(" ")
  {
    hide IsWord, Quiet, Surface.Lowercase;
    assert MODIFIERS[0] == "public" && MODIFIERS[4] == "static" && MODIFIERS[5] == "partial";
    NoFixed();
    PublicLowercase();
    LowercaseIsWord("public");
    LowercaseIsWord("static");
    LowercaseIsWord("partial");
    LowercaseIsWord("fixed");
    QuietMarks();
    QuietAppend("public", " ");
    QuietAppend("fixed", " ");
    assert "public" + " " == "public " && "fixed" + " " == "fixed ";
  }

  lemma PublicLowercase()
    ensures Surface.Lowercase("public") && Surface.Lowercase("static") && Surface.Lowercase("partial") && Surface.Lowercase("fixed")
  {
  }

  lemma QuietMarks()
    ensures Quiet("[") && Quiet("]") && Quiet(" ")
  {
  }

  lemma NoFixed()
    ensures !IsModifier("fixed")
  {
    if IsModifier("fixed") { ModifierStarts("fixed"); }
  }

  lemma WordOrdinary(t: string, ws: seq<string>, k: nat)
    requires TypeText(t, ws) && k < |ws|
    ensures OrdinaryWord(ws[k])
  {
    hide OrdinaryWord, Marked;
    if |ws| > 1 || !OrdinaryWord(ws[0]) { MarkedOrdinary(ws[k]); }
  }

  lemma StaticOrdinary(w: string)
    requires OrdinaryWord(w)
    ensures w != "static" && w != "const" && w != "fixed" && !IsModifier(w)
  {
  }

  /** The words of a field: what is in front of its type, its type and its name. */
  lemma FieldWordsAre(front: seq<string>, t: string, ws: seq<string>, last: string)
    requires AreWords(front) && TypeText(t, ws) && IsWord(last)
    requires front == ["public"] || front == ["public", "fixed"]
    requires last != "static" && last != "const"
    ensures var all := front + (ws + [last]);
            && AreWords(all) && JoinWords(all) == JoinWords(front) + " " + (t + " " + last)
            && "static" !in all && "const" !in all
            && FieldWords(all, false) == (front == ["public", "fixed"], ws + [last])
            && JoinWords(ws + [last]) == t + " " + last
  {
    hide AreWords, OrdinaryWord, Marked, TypeChars, Level, JoinWords, IsWord, IsModifier;
    var left := ws + [last];
    OneIsWord(last);
    WordsAppend(ws, [last]);
    WordsAppend(front, left);
    JoinAppend(ws, [last]);
    JoinOne(last);
    JoinAppend(front, left);
    PublicText();
    forall k | 0 <= k < |ws| ensures ws[k] != "static" && ws[k] != "const" && ws[k] != "fixed" && !IsModifier(ws[k]) {
      WordOrdinary(t, ws, k);
      StaticOrdinary(ws[k]);
    }
    var all := front + left;
    assert left[0] == ws[0];
    if front == ["public"] {
      assert all[0] == "public" && all[1..] == left;
    } else {
      assert all[0] == "public" && all[1..][0] == "fixed" && all[1..][1..] == left;
    }
    FieldWordsEnd(left, front == ["public", "fixed"]);
    NotFixed();
  }

  lemma NotFixed()
    ensures "public" != "fixed" && "public" != "static" && "public" != "const" && "fixed" != "static" && "fixed" != "const"
  {
  }

  lemma FieldWordsEnd(left: seq<string>, isFixed: bool)
    requires left != [] && left[0] != "fixed" && !IsModifier(left[0])
    ensures FieldWords(left, isFixed) == (isFixed, left)
  {
  }

  lemma OneIsWord(w: string)
    requires IsWord(w)
    ensures AreWords([w])
  {
  }

  /** A declaration of some words, which are no import. */
  lemma QuietMember(file: string, white: string, all: seq<string>)
    requires White(white) && AreWords(all) && all != [] && Quiet(JoinWords(all)) && JoinWords(all)[0] != '['
    ensures var segment := white + JoinWords(all);
            && SplitFrom(segment, segment, 0) == ([], JoinWords(all)) && JoinWords(all) != ""
            && ImportOf(file, segment, segment) == Ok(None) && SplitWhitespace(JoinWords(all)) == all
  {
    hide SplitFrom, IsSpace, JoinWords, SplitWhitespace, ParametersOf, AreWords, White;
    var declaration := JoinWords(all);
    var segment := white + declaration;
    JoinTrimmed(all);
    NoWhite();
    assert segment[0..] == white + declaration + "";
    DeclarationLeft(segment, 0, white, declaration, "");
    QuietNoList(declaration);
    SplitOfJoined(all);
  }

  lemma JoinStarts(front: seq<string>, more: string)
    requires front == ["public"] || front == ["public", "fixed"]
    ensures JoinWords(front) == (if front == ["public"] then "public" else "public" + " " + "fixed")
    ensures (JoinWords(front) + more)[0] == 'p'
  {
    assert ["public", "fixed"][..1] == ["public"];
    assert "public"[0] == 'p';
  }

  lemma TypeTrimmed(t: string, ws: seq<string>)
    requires TypeText(t, ws)
    ensures Trimmed(t) && Quiet(t) && t != ""
  {
    hide IsSpace, TypeChar, JoinWords, OrdinaryWord, Marked, Level;
    JoinTrimmed(ws);
    QuietType(t);
  }

  /** A field of some words is read to the slot that its last words are. */
  lemma MemberRead(file: string, white: string, front: seq<string>, t: string, ws: seq<string>, last: string, slot: Slot)
    requires White(white) && TypeText(t, ws) && IsWord(last) && Quiet(last) && last != "static" && last != "const"
    requires front == ["public"] || front == ["public", "fixed"]
    requires SlotOf(front == ["public", "fixed"], t + " " + last) == Some(slot)
    ensures var segment := white + (JoinWords(front) + " " + (t + " " + last));
            && ImportOf(file, segment, segment) == Ok(None)
            && FieldOf(file, segment, segment) == Ok(Some(slot))
  {
    hide White, TypeText, IsWord, AreWords, JoinWords, SplitFrom, SplitWhitespace, ImportOf;
    hide Quiet, Trimmed, FieldWords, FindChar, Find, SlotOf;
    FrontWords(front);
    FieldWordsAre(front, t, ws, last);
    JoinStarts(front, " " + (t + " " + last));
    var all := front + (ws + [last]);
    TypeTrimmed(t, ws);
    QuietDeclaration(JoinWords(front) + " ", t, last);
    assert JoinWords(all) == JoinWords(front) + " " + (t + " " + last) == JoinWords(front) + (" " + (t + " " + last));
    QuietMember(file, white, all);
    QuietNoList(JoinWords(all));
  }

  lemma FrontWords(front: seq<string>)
    requires front == ["public"] || front == ["public", "fixed"]
    ensures AreWords(front) && Quiet(JoinWords(front) + " ") && Quiet(" ")
    ensures JoinWords(front) + " " == if front == ["public"] then "public " else "public fixed "
  {
    hide IsWord, Quiet, JoinWords;
    PublicText();
    JoinStarts(front, "");
    if front == ["public"] {
      OneIsWord("public");
      assert "public" + " " == "public ";
    } else {
      QuietAppend("public ", "fixed ");
      FixedSpelled();
    }
  }

  lemma FixedSpelled()
    ensures "public" + " " + "fixed" + " " == "public " + "fixed " == "public fixed "
  {
  }

  /** A field that is no buffer is read as it was rendered. */
  lemma FieldRead(file: string, white: string, t: string, ws: seq<string>, name: string)
    requires White(white) && TypeText(t, ws) && AllWordChars(name)
    ensures var segment := white + ("public " + (t + " " + Render.CsName(name)));
            && ImportOf(file, segment, segment) == Ok(None)
            && FieldOf(file, segment, segment) == Ok(Some(Slot(name, t, None)))
  {
    hide White, TypeText, AllWordChars, IsWord, JoinWords, ImportOf, FieldOf, Render.CsName;
    hide NameText, Quiet, Trimmed, SplitName, WithoutAt, SlotOf;
    var n := Render.CsName(name);
    CsNameIs(name);
    FrontWords(["public"]);
    TypeTrimmed(t, ws);
    QuietName(n);
    NameSplit(t, n);
    SlotPlain(t, n, name);
    MemberRead(file, white, ["public"], t, ws, n, Slot(name, t, None));
  }

  lemma QuietDeclaration(front: string, t: string, last: string)
    requires Quiet(front) && Quiet(t) && Quiet(last) && Quiet(" ")
    ensures Quiet(front + (t + " " + last))
  {
    QuietAppend(t, " ");
    QuietAppend(t + " ", last);
    QuietAppend(front, t + " " + last);
  }

  lemma SlotPlain(t: string, n: string, name: string)
    requires SplitName(t + " " + n) == Some((t, name)) && t != ""
    ensures SlotOf(false, t + " " + n) == Some(Slot(name, t, None))
  {
  }

  // ----- Buffers -----

  lemma DecimalText(n: nat)
    ensures var d := Decimal(n); IsWord(d) && Quiet(d) && Trimmed(d) && d[0] != '+' && forall k :: 0 <= k < |d| ==> d[k] != '['
  {
    hide Decimal;
    var d := Decimal(n);
    forall k | 0 <= k < |d| ensures IsDigit(d[k]) && !IsSpace(d[k]) {
      assert d[k] in d;
    }
  }

  lemma LengthRead(n: nat)
    requires n <= USIZE_MAX
    ensures ParseUsize(Trim(Decimal(n))) == Some(n)
  {
    hide Decimal, Digits, Trim;
    DecimalText(n);
    TrimSame(Decimal(n));
    DigitsDecimal(n);
    assert "+"[0] == '+';
  }

  /** The name and the length of a buffer. */
  function BufferName(n: string, length: nat): string { n + "[" + Decimal(length) + "]" }

  lemma BufferWord(n: string, length: nat)
    requires IsWord(n) && NameText(n) && n != "static" && n != "const"
    ensures var b := BufferName(n, length); IsWord(b) && Quiet(b) && b != "static" && b != "const"
  {
    hide IsSpace, Decimal, IsNameChar;
    var d, b := Decimal(length), BufferName(n, length);
    DecimalText(length);
    BracketsPlain();
    QuietName(n);
    QuietMarks();
    QuietAppend(n, "[");
    QuietAppend(n + "[", d);
    QuietAppend(n + "[" + d, "]");
    assert b[|b| - 1] == ']';
    assert "static"[5] == 'c' && "const"[4] == 't';
    forall k | 0 <= k < |b| ensures !IsSpace(b[k]) {
      if k < |n| { assert b[k] == n[k]; } else if |n| < k < |b| - 1 { assert b[k] == d[k - |n| - 1]; }
    }
  }

  lemma BracketsPlain()
    ensures !IsSpace('[') && !IsSpace(']')
  {
  }

  /** The length of a buffer is taken off its name. */
  lemma SlotBuffer(t: string, n: string, name: string, length: nat)
    requires SplitName(t + " " + n) == Some((t, name)) && t != "" && length <= USIZE_MAX
    ensures SlotOf(true, t + " " + BufferName(n, length)) == Some(Slot(name, t, Some(length)))
  {
    hide Decimal, ParseUsize, Trim, SplitName;
    var d, declaration := Decimal(length), t + " " + BufferName(n, length);
    var head := t + " " + n;
    assert declaration == head + "[" + d + "]";
    assert declaration[|declaration| - 1..] == "]";
    var inner := declaration[..|declaration| - 1];
    assert inner == head + "[" + d;
    DecimalText(length);
    forall k | |head| < k < |inner| ensures inner[k] != '[' { assert inner[k] == d[k - |head| - 1]; }
    assert inner[|head|] == '[';
    LastIs(inner, '[', |inner|, |head|);
    assert inner[|head| + 1..] == d && inner[..|head|] == head;
    LengthRead(length);
  }

  lemma LastIs(s: string, c: char, stop: nat, at: nat)
    requires at < stop <= |s| && s[at] == c && forall k :: at < k < stop ==> s[k] != c
    ensures LastChar(s, c, stop) == Some(at)
  {
  }

  /** A buffer is read as it was rendered. */
  lemma BufferRead(file: string, white: string, t: string, ws: seq<string>, name: string, length: nat)
    requires White(white) && TypeText(t, ws) && AllWordChars(name) && length <= USIZE_MAX
    ensures var segment := white + ("public fixed " + (t + " " + BufferName(Render.CsName(name), length)));
            && ImportOf(file, segment, segment) == Ok(None)
            && FieldOf(file, segment, segment) == Ok(Some(Slot(name, t, Some(length))))
  {
    hide White, TypeText, AllWordChars, IsWord, JoinWords, ImportOf, FieldOf, Render.CsName;
    hide NameText, Quiet, Trimmed, SplitName, WithoutAt, BufferName, SlotOf;
    var n := Render.CsName(name);
    var b := BufferName(n, length);
    CsNameIs(name);
    BufferWord(n, length);
    FrontWords(["public", "fixed"]);
    TypeTrimmed(t, ws);
    NameSplit(t, n);
    SlotBuffer(t, n, name, length);
    MemberRead(file, white, ["public", "fixed"], t, ws, b, Slot(name, t, Some(length)));
  }
}
