/** How the reader takes the declarations that are rendered. */
module ReadBack {
  import opened Wrappers
  import opened Text
  import opened Words
  import opened Surface
  import opened SurfaceReader
  import opened TypeTexts

  // ----- Attributes -----

  predicate NoBracket(c: char) { c != '(' && c != ')' && c != '[' && c != ']' }

  predicate Unclosed(t: string) { forall k :: 0 <= k < |t| ==> NoBracket(t[k]) }

  lemma {:induction false} BracketPassed(shape: string, k: nat, t: string, d: nat)
    requires StandsAt(shape, t, k) && Unclosed(t)
    ensures BracketEnd(shape, k, d) == BracketEnd(shape, k + |t|, d)
    decreases |t|
  {
    hide BracketEnd;
    if t != "" {
      assert [t[0]] + t[1..] == t;
      StandsSplit(shape, [t[0]], t[1..], k);
      assert shape[k + 0] == t[0];
      BracketStep(shape, k, d);
      BracketPassed(shape, k + 1, t[1..], d);
    }
  }

  /** The text of an attribute: its name, and its arguments in parentheses if it has any. */
  function AttributeText(a: Attribute): string {
    if a.args == "" then a.name else a.name + "(" + a.args + ")"
  }

  predicate ArgChar(c: char) { IsWordChar(c) || c == '.' }

  predicate PlainAttribute(a: Attribute) {
    && AllWordChars(a.name) && !EndsWith(a.name, "Attribute")
    && forall k :: 0 <= k < |a.args| ==> ArgChar(a.args[k])
  }

  lemma ArgCharIs(c: char)
    requires ArgChar(c)
    ensures !IsSpace(c) && NoBracket(c) && c != ':' && c != ',' && !Opening(c) && !Closing(c)
  {
  }

  lemma AttributeChars(a: Attribute)
    requires PlainAttribute(a)
    ensures Unclosed(a.name) && Unclosed(a.args) && Trimmed(AttributeText(a))
    ensures forall k :: 0 <= k < |AttributeText(a)| ==> AttributeText(a)[k] != ':' && AttributeText(a)[k] != '['
    ensures forall k :: 0 <= k < |a.name| ==> a.name[k] != '.' && !IsSpace(a.name[k])
    ensures forall k :: 0 <= k < |a.args| ==> !IsSpace(a.args[k])
  {
    hide IsSpace, IsWordChar, NoBracket, Opening, Closing, ArgChar, EndsWith;
    forall k | 0 <= k < |a.name|
      ensures NoBracket(a.name[k]) && !IsSpace(a.name[k]) && a.name[k] != ':' && a.name[k] != '.'
    {
      WordArg(a.name[k]);
      ArgCharIs(a.name[k]);
    }
    forall k | 0 <= k < |a.args| ensures NoBracket(a.args[k]) && !IsSpace(a.args[k]) && a.args[k] != ':' {
      ArgCharIs(a.args[k]);
    }
    BracketsAre();
  }

  lemma BracketsAre()
    ensures !IsSpace('(') && !IsSpace(')') && NoBracket(':')
    ensures forall c :: NoBracket(c) ==> c != '['
  {
  }

  lemma WordArg(c: char)
    requires IsWordChar(c)
    ensures ArgChar(c) && c != '.'
  {
  }

  /** An attribute list of one attribute is closed where it ends. */
  lemma ListCloses(shape: string, at: nat, a: Attribute)
    requires PlainAttribute(a) && StandsAt(shape, "[" + AttributeText(a) + "]", at)
    ensures BracketEnd(shape, at, 0) == Some(at + 1 + |AttributeText(a)|)
  {
    hide BracketEnd, PlainAttribute, StandsAt, NoBracket;
    AttributeChars(a);
    var t := AttributeText(a);
    assert "[" + t + "]" == "[" + (t + "]");
    StandsSplit(shape, "[", t + "]", at);
    StandsSplit(shape, t, "]", at + 1);
    StandsSlice(shape, "[", at);
    StandsSlice(shape, "]", at + 1 + |t|);
    InsideStands(shape, at);
    InsideStands(shape, at + 1 + |t|);
    BracketStep(shape, at, 0);
    InnerPassed(shape, at + 1, a);
    BracketStep(shape, at + 1 + |t|, 1);
  }

  lemma InsideStands(shape: string, at: nat)
    requires StandsAt(shape, "[", at) || StandsAt(shape, "]", at) || StandsAt(shape, "(", at) || StandsAt(shape, ")", at)
    ensures at < |shape|
  {
  }

  lemma InnerPassed(shape: string, k: nat, a: Attribute)
    requires PlainAttribute(a) && StandsAt(shape, AttributeText(a), k)
    ensures BracketEnd(shape, k, 1) == BracketEnd(shape, k + |AttributeText(a)|, 1)
  {
    hide BracketEnd, PlainAttribute, StandsAt, NoBracket;
    AttributeChars(a);
    if a.args == "" {
      BracketPassed(shape, k, a.name, 1);
    } else {
      var open := k + |a.name|;
      var close := open + 1 + |a.args|;
      assert AttributeText(a) == a.name + ("(" + (a.args + ")"));
      StandsSplit(shape, a.name, "(" + (a.args + ")"), k);
      StandsSplit(shape, "(", a.args + ")", open);
      StandsSplit(shape, a.args, ")", open + 1);
      StandsSlice(shape, "(", open);
      StandsSlice(shape, ")", close);
      InsideStands(shape, open);
      InsideStands(shape, close);
      BracketPassed(shape, k, a.name, 1);
      BracketStep(shape, open, 1);
      BracketPassed(shape, open + 1, a.args, 2);
      BracketStep(shape, close, 2);
    }
  }

  lemma BracketStep(shape: string, k: nat, d: nat)
    requires k < |shape|
    ensures NoBracket(shape[k]) ==> BracketEnd(shape, k, d) == BracketEnd(shape, k + 1, d)
    ensures shape[k] == '[' || shape[k] == '(' ==> BracketEnd(shape, k, d) == BracketEnd(shape, k + 1, d + 1)
    ensures shape[k] == ']' || shape[k] == ')' ==>
              BracketEnd(shape, k, d) == if Less(d) == 0 then Some(k) else BracketEnd(shape, k + 1, Less(d))
  {
  }

  lemma TargetNone(one: string)
    requires forall k :: 0 <= k < |one| ==> one[k] != ':'
    ensures WithoutTarget(one) == one
  {
  }

  lemma NoDot(name: string)
    requires forall k :: 0 <= k < |name| ==> name[k] != '.'
    ensures LastChar(name, '.', |name|).None?
  {
  }

  lemma AllSpaceless(s: string)
    requires s != "" && forall k :: 0 <= k < |s| ==> !IsSpace(s[k])
    ensures Trimmed(s)
  {
  }

  lemma OneClosing(args: string)
    requires forall k :: 0 <= k < |args| ==> args[k] != ')'
    ensures TrimEndOf(args + ")", ')') == args
  {
    assert (args + ")")[..|args|] == args;
    assert args != "" ==> args[|args| - 1] != ')';
  }

  /** The text of an attribute is read as that attribute. */
  lemma AttributeRead(a: Attribute)
    requires PlainAttribute(a)
    ensures AttributeOf(AttributeText(a)) == a
  {
    hide PlainAttribute, IsSpace, Trim, TrimEnd, TrimEndOf, WithoutTarget, LastChar, EndsWith, ArgChar;
    AttributeChars(a);
    var t := AttributeText(a);
    TrimSame(t);
    TargetNone(t);
    NoDot(a.name);
    PlainName(a);
    AllSpaceless(a.name);
    TrimSame(a.name);
    if a.args == "" {
      assert FindChar(t, '(') == |t|;
      TrimNothing();
    } else {
      assert t[|a.name|] == '(';
      assert forall k :: 0 <= k < |a.name| ==> t[k] == a.name[k];
      assert FindChar(t, '(') == |a.name|;
      assert t[..|a.name|] == a.name;
      var args := a.args + ")";
      assert t[|a.name| + 1..] == args;
      assert args[|args| - 1] == ')' && args[0] == a.args[0];
      BracketsAre();
      TrimSame(args);
      OneClosing(a.args);
      AllSpaceless(a.args);
      TrimSame(a.args);
    }
  }

  lemma TrimNothing()
    ensures Trim("") == ""
  {
  }

  lemma PlainName(a: Attribute)
    requires PlainAttribute(a)
    ensures a.name != "" && WithoutSuffix(a.name, "Attribute") == a.name
  {
  }

  // ----- Commas -----

  /** A text that is level is passed over without a comma. */
  lemma {:induction false} CommasPassed(list: string, k: nat, t: string, d: nat, start: nat)
    requires start <= k && StandsAt(list, t, k) && Level(t, d).Some?
    ensures CommasFrom(list, k, d, start) == CommasFrom(list, k + |t|, Level(t, d).value, start)
    decreases |t|
  {
    hide Opening, Closing;
    if t != "" {
      assert [t[0]] + t[1..] == t;
      StandsSplit(list, [t[0]], t[1..], k);
      assert list[k + 0] == t[0];
      var c := t[0];
      CommasPassed(list, k + 1, t[1..], if Opening(c) then d + 1 else if Closing(c) then d - 1 else d, start);
    }
  }

  /** A level text is one part. */
  lemma OnePart(t: string)
    requires Level(t, 0) == Some(0)
    ensures Parts(t, t) == [t]
  {
    assert t[0..|t|] == t;
    CommasPassed(t, 0, t, 0, 0);
  }

  /** Parts with a comma between two. */
  function Listed(parts: seq<string>): string {
    if parts == [] then "" else if |parts| == 1 then parts[0] else parts[0] + "," + Listed(parts[1..])
  }

  lemma ListedCons(first: string, rest: seq<string>)
    ensures Listed([first] + rest) == if rest == [] then first else first + "," + Listed(rest)
  {
    assert ([first] + rest)[1..] == rest;
  }

  lemma CommaStep(list: string, k: nat, start: nat)
    requires start <= k < |list| && list[k] == ','
    ensures CommasFrom(list, k, 0, start) == [(start, k)] + CommasFrom(list, k + 1, 0, k + 1)
  {
  }

  lemma CommaEnds(list: string, start: nat)
    requires start <= |list|
    ensures CommasFrom(list, |list|, 0, start) == [(start, |list|)]
  {
  }

  /** That some ranges of a list hold some parts. */
  ghost predicate Hold(list: string, ranges: seq<(nat, nat)>, parts: seq<string>) {
    && |ranges| == |parts|
    && forall k :: 0 <= k < |ranges| ==> ranges[k].0 <= ranges[k].1 <= |list| && list[ranges[k].0..ranges[k].1] == parts[k]
  }

  lemma HoldCons(list: string, range: (nat, nat), part: string, ranges: seq<(nat, nat)>, parts: seq<string>)
    requires range.0 <= range.1 <= |list| && list[range.0..range.1] == part && Hold(list, ranges, parts)
    ensures Hold(list, [range] + ranges, [part] + parts)
  {
  }

  lemma PartCut(list: string, start: nat, part: string, after: string)
    requires start <= |list| && list[start..] == part + after && Level(part, 0) == Some(0)
    ensures var end := start + |part|;
            && end <= |list| && list[start..end] == part && list[end..] == after
            && CommasFrom(list, start, 0, start) == CommasFrom(list, end, 0, start)
  {
    hide Level, CommasFrom, StandsAt;
    StandsRest(list, part, after, start);
    StandsSlice(list, part, start);
    CommasPassed(list, start, part, 0, start);
  }

  lemma CommaCut(list: string, start: nat, end: nat, rest: string)
    requires start <= end <= |list| && list[end..] == "," + rest
    ensures end < |list| && list[end + 1..] == rest
    ensures CommasFrom(list, end, 0, start) == [(start, end)] + CommasFrom(list, end + 1, 0, end + 1)
  {
    hide CommasFrom, StandsAt;
    StandsRest(list, ",", rest, end);
    StandsSlice(list, ",", end);
    assert |list[end..]| > 0;
    CommaStep(list, end, start);
  }

  /** A list of level parts is cut at the commas between them. */
  lemma {:induction false} ListCut(list: string, start: nat, parts: seq<string>)
    requires parts != [] && start <= |list| && list[start..] == Listed(parts)
    requires forall k :: 0 <= k < |parts| ==> Level(parts[k], 0) == Some(0)
    ensures Hold(list, CommasFrom(list, start, 0, start), parts)
    decreases |parts|
  {
    hide Level, CommasFrom, Listed, Hold;
    var first, rest := parts[0], parts[1..];
    ListedCons(first, rest);
    assert parts == [first] + rest;
    var end := start + |first|;
    if rest == [] {
      assert list[start..] == first + "";
      PartCut(list, start, first, "");
      assert end == |list|;
      CommaEnds(list, start);
      NothingHeld(list);
      HoldCons(list, (start, end), first, [], []);
      assert [(start, end)] + [] == [(start, end)];
    } else {
      assert list[start..] == first + ("," + Listed(rest));
      PartCut(list, start, first, "," + Listed(rest));
      CommaCut(list, start, end, Listed(rest));
      ListCut(list, end + 1, rest);
      HoldCons(list, (start, end), first, CommasFrom(list, end + 1, 0, end + 1), rest);
    }
  }

  lemma NothingHeld(list: string)
    ensures Hold(list, [], [])
  {
  }

  lemma PartsHeld(list: string, parts: seq<string>)
    requires Hold(list, CommasFrom(list, 0, 0, 0), parts)
    ensures Parts(list, list) == parts
  {
    hide CommasFrom;
  }

  /** Level parts are read back from their list. */
  lemma ListedParts(parts: seq<string>)
    requires parts != [] && forall k :: 0 <= k < |parts| ==> Level(parts[k], 0) == Some(0)
    ensures Parts(Listed(parts), Listed(parts)) == parts
  {
    hide Level, CommasFrom, Listed, Hold;
    assert Listed(parts)[0..] == Listed(parts);
    ListCut(Listed(parts), 0, parts);
    PartsHeld(Listed(parts), parts);
  }

  lemma AttributeLevel(a: Attribute)
    requires PlainAttribute(a)
    ensures Level(AttributeText(a), 0) == Some(0)
  {
    hide Level, PlainAttribute, ArgChar, Opening, Closing;
    forall k | 0 <= k < |a.name| ensures !Opening(a.name[k]) && !Closing(a.name[k]) && a.name[k] != ',' {
      PlainChar(a, k);
    }
    LevelPlain(a.name, 0);
    if a.args != "" {
      forall k | 0 <= k < |a.args| ensures !Opening(a.args[k]) && !Closing(a.args[k]) && a.args[k] != ',' {
        PlainArg(a, k);
      }
      LevelPlain(a.args, 1);
      ParensLevel();
      LevelAppend(a.name, "(", 0);
      LevelAppend(a.name + "(", a.args, 0);
      LevelAppend(a.name + "(" + a.args, ")", 0);
    }
  }

  lemma PlainChar(a: Attribute, k: nat)
    requires PlainAttribute(a) && k < |a.name|
    ensures !Opening(a.name[k]) && !Closing(a.name[k]) && a.name[k] != ','
  {
    WordCharPlain(a.name[k]);
  }

  lemma PlainArg(a: Attribute, k: nat)
    requires PlainAttribute(a) && k < |a.args|
    ensures !Opening(a.args[k]) && !Closing(a.args[k]) && a.args[k] != ','
  {
    ArgCharIs(a.args[k]);
  }

  lemma ParensLevel()
    ensures Level("(", 0) == Some(1) && Level(")", 1) == Some(0)
  {
    assert "("[1..] == "" && ")"[1..] == "";
  }

  // ----- What stands before and after attributes -----

  /** Where an attribute list stands. */
  lemma ListStands(segment: string, i: nat, white: string, list: string, rest: string)
    requires White(white) && i <= |segment| && list != "" && list[0] == '[' && segment[i..] == white + (list + rest)
    ensures var at := i + |white|;
            && at + |list| <= |segment| && SkipSpaces(segment, i) == at && segment[at] == '['
            && StandsAt(segment, list, at) && segment[at..at + |list|] == list && segment[at + |list|..] == rest
  {
    hide IsSpace, StandsAt, White, SkipSpaces;
    var at := i + |white|;
    StandsRest(segment, white, list + rest, i);
    StandsRest(segment, list, rest, at);
    StandsSlice(segment, list, at);
    WhiteSkipped(segment, i, white);
  }

  lemma WhiteSkipped(segment: string, i: nat, white: string)
    requires White(white) && StandsAt(segment, white, i) && i + |white| < |segment| && segment[i + |white|] == '['
    ensures SkipSpaces(segment, i) == i + |white|
  {
    hide IsSpace, StandsAt, SkipSpaces;
    StandsSlice(segment, white, i);
    BracketIs();
    SkipIs(segment, i, i + |white|);
  }

  /** A list of one attribute is split off. */
  lemma SplitOne(segment: string, i: nat, at: nat, end: nat, a: Attribute)
    requires i <= |segment| && at == SkipSpaces(segment, i) < end < |segment| && segment[at] == '['
    requires BracketEnd(segment, at, 0) == Some(end)
    requires AttributesOf(Parts(segment[at + 1..end], segment[at + 1..end])) == [a]
    ensures SplitFrom(segment, segment, i) == After([a], SplitFrom(segment, segment, end + 1))
  {
    hide SplitFrom, SkipSpaces, BracketEnd, AttributesOf, Parts, After;
    SplitStep(segment, segment, i);
  }

  lemma OneAttribute(a: Attribute)
    requires PlainAttribute(a)
    ensures AttributesOf(Parts(AttributeText(a), AttributeText(a))) == [a]
  {
    hide AttributeText, PlainAttribute, AttributeOf, Parts, Level;
    AttributeLevel(a);
    OnePart(AttributeText(a));
    AttributeRead(a);
    assert AttributesOf([AttributeText(a)]) == [a];
  }

  /** One attribute list at the front of a declaration is taken off it. */
  lemma AttributeTaken(segment: string, i: nat, white: string, a: Attribute, rest: string)
    requires PlainAttribute(a) && White(white) && i <= |segment|
    requires segment[i..] == white + (("[" + AttributeText(a) + "]") + rest)
    ensures var next := i + |white| + |AttributeText(a)| + 2;
            && next <= |segment| && segment[next..] == rest
            && SplitFrom(segment, segment, i) == After([a], SplitFrom(segment, segment, next))
  {
    hide SplitFrom, AttributeText, PlainAttribute, AttributesOf, Parts, BracketEnd, White, StandsAt, SkipSpaces, After;
    var t, at := AttributeText(a), i + |white|;
    ListStands(segment, i, white, "[" + t + "]", rest);
    ListCloses(segment, at, a);
    InnerOf(segment, at, t);
    OneAttribute(a);
    SplitOne(segment, i, at, at + 1 + |t|, a);
  }

  lemma InnerOf(segment: string, at: nat, t: string)
    requires at + |t| + 2 <= |segment| && segment[at..at + |t| + 2] == "[" + t + "]"
    ensures segment[at + 1..at + 1 + |t|] == t
  {
    PartAt(segment, at, "[" + t + "]", 1, 1 + |t|);
    assert ("[" + t + "]")[1..1 + |t|] == t;
  }

  lemma BracketIs()
    ensures !IsSpace('[')
  {
  }

  /** A declaration without attributes is left as it is. */
  lemma DeclarationLeft(segment: string, i: nat, white: string, declaration: string, after: string)
    requires White(white) && Trimmed(declaration) && White(after) && declaration[0] != '['
    requires i <= |segment| && segment[i..] == white + declaration + after
    ensures SplitFrom(segment, segment, i) == ([], declaration)
  {
    hide SplitFrom, Trim, IsSpace, SkipSpaces;
    var at := i + |white|;
    assert segment[i..] == white + (declaration + after);
    StandsRest(segment, white, declaration + after, i);
    StandsSlice(segment, white, i);
    assert segment[at..][0] == declaration[0];
    SkipIs(segment, i, at);
    SplitStep(segment, segment, i);
    NoWhite();
    TrimAround("", declaration, after);
    assert "" + declaration + after == declaration + after;
  }
}
