/** What the reader of C# files makes of attributes, import attributes, heads, parameters and members
    as hand-written files have them. */
module ReaderForms {
  import opened Wrappers
  import opened Text
  import opened Words
  import opened Surface
  import opened SurfaceReader
  import opened Numbers

  // ----- Attributes -----

  predicate Lacks(s: string, c: char) { c !in s }

  lemma NotFound(s: string, c: char)
    requires c !in s
    ensures FindChar(s, c) == |s| && LastChar(s, c, |s|) == None
  {
    assert forall k :: 0 <= k < |s| ==> s[k] in s;
  }

  /** Where the first `c` stands. */
  lemma FoundAt(a: string, c: char, b: string)
    requires c !in a
    ensures var s := a + ([c] + b); FindChar(s, c) == |a| < |s| && s[..|a|] == a && s[|a| + 1..] == b
  {
    var s := a + ([c] + b);
    assert forall k :: 0 <= k < |a| ==> s[k] == a[k] && a[k] in a;
    assert s[|a|] == c;
  }

  /** The name of an attribute as it is written: with a target before a colon, with the names of
      its namespaces before dots, and with `Attribute` behind it, or without any of these. */
  datatype AttributeName = AttributeName(target: string, space: string, name: string, long: bool)

  predicate NameOk(n: AttributeName) {
    && (n.target != "" ==> '(' !in n.target && ':' !in n.target && Trimmed(n.target))
    && '(' !in n.space && ':' !in n.space
    && n.name != "" && '(' !in n.name && ':' !in n.name && '.' !in n.name && IsWord(n.name)
    && (n.space == "" || Trimmed(n.space)) && (!n.long ==> !EndsWith(n.name, "Attribute"))
  }

  function Qualified(n: AttributeName): string {
    (if n.space == "" then "" else n.space + ".") + (n.name + if n.long then "Attribute" else "")
  }

  /** An attribute with or without arguments in parentheses. */
  function AttributeWritten(n: AttributeName, gap: string, args: Option<string>): string {
    (if n.target == "" then "" else n.target + (":" + gap))
    + (Qualified(n) + if args.Some? then "(" + args.value + ")" else "")
  }

  lemma QualifiedPlain(n: AttributeName)
    requires NameOk(n)
    ensures Trimmed(Qualified(n)) && '(' !in Qualified(n) && ':' !in Qualified(n)
  {
    hide IsSpace;
    var q := Qualified(n);
    LongPlain();
    var last := n.name + if n.long then "Attribute" else "";
    assert q[|q| - 1] == last[|last| - 1];
    assert q[0] == if n.space == "" then n.name[0] else n.space[0];
    assert last[|last| - 1] == if n.long then "Attribute"[8] else n.name[|n.name| - 1];
  }

  lemma LongPlain()
    ensures |"Attribute"| == 9 && '(' !in "Attribute" && ':' !in "Attribute" && '.' !in "Attribute" && !IsSpace("Attribute"[8])
    ensures !IsSpace('(') && !IsSpace(')')
  {
  }

  /** A name is taken without its namespaces and without `Attribute` behind it. */
  lemma NameRead(n: AttributeName)
    requires NameOk(n)
    ensures var q := Qualified(n); var dot := LastChar(q, '.', |q|);
            WithoutSuffix(if dot.Some? then q[dot.value + 1..] else q, "Attribute") == n.name
  {
    LongPlain();
    var q, last := Qualified(n), n.name + if n.long then "Attribute" else "";
    assert '.' !in last;
    if n.space == "" {
      assert q == last;
      NotFound(q, '.');
    } else {
      LastDot(n.space, last);
      assert q == n.space + "." + last;
    }
    if n.long {
      assert last[|last| - 9..] == "Attribute" && last[..|last| - 9] == n.name;
    } else {
      assert last == n.name;
    }
  }

  lemma LastDot(a: string, b: string)
    requires '.' !in b
    ensures var s := a + "." + b; LastChar(s, '.', |s|) == Some(|a|) && s[|a| + 1..] == b
  {
    var s := a + "." + b;
    assert s[|a|] == '.';
    assert forall k :: |a| < k < |s| ==> s[k] == b[k - |a| - 1] && b[k - |a| - 1] in b;
  }

  /** An attribute without its target. */
  function Called(n: AttributeName, args: Option<string>): string {
    Qualified(n) + if args.Some? then "(" + args.value + ")" else ""
  }

  lemma WithTarget(target: string, gap: string, rest: string)
    requires White(gap) && Trimmed(rest) && Trimmed(target) && ':' !in target && '(' !in target
    ensures var one := target + (":" + gap) + rest; Trimmed(one) && WithoutTarget(one) == rest
  {
    hide IsSpace, FindChar, Trim;
    var one := target + (":" + gap) + rest;
    assert one == target + ([':'] + (gap + rest));
    FoundAt(target, ':', gap + rest);
    assert gap + rest == gap + rest + "";
    NoWhite();
    TrimAround(gap, rest, "");
    assert one[0] == target[0] && one[|one| - 1] == rest[|rest| - 1];
  }

  lemma WithoutOne(q: string, args: Option<string>)
    requires ':' !in q
    ensures var one := q + if args.Some? then "(" + args.value + ")" else ""; WithoutTarget(one) == one
  {
    hide FindChar, Trim;
    if args.None? {
      assert q + "" == q;
      NotFound(q, ':');
    } else {
      assert q + ("(" + args.value + ")") == q + (['('] + (args.value + ")"));
      ColonBehind(q, args.value + ")");
    }
  }

  lemma TargetDropped(n: AttributeName, gap: string, args: Option<string>)
    requires NameOk(n) && White(gap) && (args.Some? ==> args.value == "" || Trimmed(args.value))
    ensures Trimmed(AttributeWritten(n, gap, args)) && WithoutTarget(AttributeWritten(n, gap, args)) == Called(n, args)
  {
    hide IsSpace, Qualified, White, FindChar, WithoutTarget, Trimmed;
    QualifiedPlain(n);
    RestTrimmed(n, args);
    if n.target != "" {
      WithTarget(n.target, gap, Called(n, args));
    } else {
      assert AttributeWritten(n, gap, args) == Called(n, args);
      WithoutOne(Qualified(n), args);
    }
  }

  lemma RestTrimmed(n: AttributeName, args: Option<string>)
    requires NameOk(n) && (args.Some? ==> args.value == "" || Trimmed(args.value))
    ensures Trimmed(Called(n, args))
  {
    hide IsSpace, Qualified;
    QualifiedPlain(n);
    LongPlain();
    var rest := Called(n, args);
    assert rest[0] == Qualified(n)[0];
    if args.Some? { assert rest[|rest| - 1] == ')'; } else { assert rest == Qualified(n); }
  }

  /** A colon within the arguments is no target's. */
  lemma ColonBehind(q: string, more: string)
    requires ':' !in q
    ensures var s := q + (['('] + more); var colon := FindChar(s, ':'); colon < |s| ==> '(' in s[..colon]
  {
    var s := q + (['('] + more);
    var colon := FindChar(s, ':');
    assert s[|q|] == '(';
    assert forall k :: 0 <= k < |q| ==> s[k] == q[k] && q[k] in q;
    if colon < |s| { assert s[..colon][|q|] == '('; }
  }

  /** An attribute is its name alone, and its arguments without their parentheses. */
  lemma AttributeRead(n: AttributeName, gap: string, args: Option<string>, before: string, after: string)
    requires NameOk(n) && White(gap) && White(before) && White(after)
    requires args.Some? ==> (args.value == "" || (Trimmed(args.value) && args.value[|args.value| - 1] != ')'))
    ensures AttributeOf(before + AttributeWritten(n, gap, args) + after)
         == Attribute(n.name, if args.Some? then args.value else "")
  {
    hide IsSpace, Qualified, White, FindChar, WithoutTarget, WithoutSuffix, LastChar, TrimEndOf, Trim, TrimEnd, AttributeWritten;
    QualifiedPlain(n);
    NameRead(n);
    TargetDropped(n, gap, args);
    TrimAround(before, AttributeWritten(n, gap, args), after);
    var q := Qualified(n);
    if args.None? {
      assert q + "" == q;
      NotFound(q, '(');
      NothingTrimmed();
    } else {
      assert q + ("(" + args.value + ")") == q + (['('] + (args.value + ")"));
      FoundAt(q, '(', args.value + ")");
      TrimSame(q);
      ArgumentsRead(args.value);
    }
  }

  lemma NothingTrimmed()
    ensures Trim("") == ""
  {
  }

  lemma ArgumentsRead(args: string)
    requires args == "" || (Trimmed(args) && args[|args| - 1] != ')')
    ensures Trim(TrimEndOf(TrimEnd(args + ")"), ')')) == args
  {
    hide IsSpace, Trim, TrimEnd;
    LongPlain();
    var s := args + ")";
    assert s[|s| - 1] == ')' && s[..|s| - 1] == args;
    if args == "" {
      assert s == ")";
      assert Trimmed(")");
      TrimSame(")");
      NothingTrimmed();
    } else {
      assert s[0] == args[0];
      TrimSame(s);
      TrimSame(args);
    }
  }

  // ----- Import attributes -----

  /** The first attribute named `LibraryImport` or `DllImport` makes an import. */
  lemma {:induction false} NativeIs(attributes: seq<Attribute>, k: nat)
    requires k < |attributes| && (attributes[k].name == "LibraryImport" || attributes[k].name == "DllImport")
    requires forall j :: 0 <= j < k ==> attributes[j].name != "LibraryImport" && attributes[j].name != "DllImport"
    ensures FirstNative(attributes) == Some(attributes[k])
    decreases k
  {
    if k > 0 {
      assert attributes[0].name != "LibraryImport";
      NativeIs(attributes[1..], k - 1);
    }
  }

  /** The symbol that an import names in its arguments, in any white space. */
  lemma EntryPointRead(before: string, a: string, b: string, symbol: string, after: string)
    requires White(a) && White(b) && '"' !in symbol && forall k :: 0 <= k < |before| ==> !StandsAt(before + "EntryPoint", "EntryPoint", k)
    ensures var args := before + ("EntryPoint" + (a + ("=" + (b + ("\"" + (symbol + ("\"" + after)))))));
            EntryPoint(args) == Some(symbol)
  {
    MarksPlain();
    hide IsSpace, White, StandsAt, TrimStart, FindChar;
    var quoted := symbol + ("\"" + after);
    var right := b + ("\"" + quoted);
    var rest := a + ("=" + right);
    var args := before + ("EntryPoint" + rest);
    FirstNamed(before, rest);
    StartsAfter(a, '=', right);
    StartsAfter(b, '"', quoted);
    assert "=" + right == ['='] + right && "\"" + quoted == ['"'] + quoted;
    assert (['='] + right)[1..] == right && (['"'] + quoted)[1..] == quoted;
    assert quoted == symbol + (['"'] + after);
    FoundAt(symbol, '"', after);
  }

  lemma MarksPlain()
    ensures !IsSpace('=') && !IsSpace('"')
  {
  }

  lemma StartsAfter(white: string, c: char, more: string)
    requires White(white) && !IsSpace(c)
    ensures TrimStart(white + ([c] + more)) == [c] + more
    ensures StartsWith([c] + more, [c])
  {
    hide IsSpace;
    var s := white + ([c] + more);
    assert s[0..|white|] == white && s[|white|] == c;
    SkipIs(s, 0, |white|);
  }

  lemma FirstNamed(before: string, rest: string)
    requires forall k :: 0 <= k < |before| ==> !StandsAt(before + "EntryPoint", "EntryPoint", k)
    ensures var args := before + ("EntryPoint" + rest);
            Find(args, "EntryPoint") == Some(|before|) && args[|before| + 10..] == rest
  {
    var args := before + ("EntryPoint" + rest);
    var named := before + "EntryPoint";
    assert |"EntryPoint"| == 10;
    assert args == named + rest;
    assert forall k :: 0 <= k < |named| ==> args[k] == named[k];
    assert StandsAt(args, "EntryPoint", |before|) by {
      assert forall k :: 0 <= k < 10 ==> args[|before| + k] == "EntryPoint"[k];
    }
    forall k | 0 <= k < |before| ensures !StandsAt(args, "EntryPoint", k) {
      StandsBefore(args, named, "EntryPoint", k);
    }
    assert args[|before| + 10..] == rest;
  }

  lemma StandsBefore(s: string, prefix: string, part: string, k: nat)
    requires |prefix| <= |s| && s[..|prefix|] == prefix && k + |part| <= |prefix|
    ensures StandsAt(s, part, k) <==> StandsAt(prefix, part, k)
  {
    assert forall i :: 0 <= i < |prefix| ==> s[i] == prefix[i];
    if StandsAt(s, part, k) {
      forall i | 0 <= i < |part| ensures prefix[k + i] == part[i] { assert s[k + i] == part[i]; }
    }
    if StandsAt(prefix, part, k) {
      forall i | 0 <= i < |part| ensures s[k + i] == part[i] { assert prefix[k + i] == part[i]; }
    }
  }

  // ----- Heads -----

  predicate IsTypeWord(word: string) {
    word == "class" || word == "struct" || word == "enum" || word == "interface" || word == "record"
  }

  lemma TypeWordIs(word: string)
    ensures word in TYPE_KEYWORDS <==> IsTypeWord(word)
  {
    var k := TYPE_KEYWORDS;
    assert k[0] == "class" && k[1] == "struct" && k[2] == "enum" && k[3] == "interface" && k[4] == "record";
  }

  lemma {:induction false} KeywordIs(words: seq<string>, k: nat, at: nat)
    requires k <= at <= |words| && (forall j :: k <= j < at ==> !IsTypeWord(words[j])) && (at < |words| ==> IsTypeWord(words[at]))
    ensures KeywordAt(words, k) == at
    decreases at - k
  {
    if k < |words| { TypeWordIs(words[k]); }
    if k < at { KeywordIs(words, k + 1, at); }
  }

  lemma NameIs(word: string, name: string, behind: string)
    requires word == name + behind && (forall k :: 0 <= k < |name| ==> IsIdentifierChar(name[k]))
    requires behind == "" || !IsIdentifierChar(behind[0])
    ensures word[..IdentifierEnd(word)] == name
  {
    hide IsIdentifierChar;
    assert forall k :: 0 <= k < |name| ==> word[k] == name[k];
    assert behind != "" ==> word[|name|] == behind[0];
  }

  /** The words of a head before any parameter list. */
  function HeadWords(head: string): seq<string> { SplitWhitespace(head[..FindChar(head, '(')]) }

  /** That the first type keyword of a head is its word `at`, and a name comes next. */
  predicate Heads(head: string, at: nat, keyword: string, name: string, behind: string) {
    var words := HeadWords(head);
    && at + 1 < |words| && (forall j :: 0 <= j < at ==> !IsTypeWord(words[j])) && words[at] == keyword && IsTypeWord(keyword)
    && words[at + 1] == name + behind && (forall k :: 0 <= k < |name| ==> IsIdentifierChar(name[k]))
    && (behind == "" || !IsIdentifierChar(behind[0]))
  }

  /** What the head of a type opens: a struct in a sequential layout is recorded with its name, an
      enum has to have a name, and of any other type only the body is entered. */
  lemma TypeOpened(
      file: string, segment: string, shape: string, out: Declarations, attributes: seq<Attribute>, head: string, at: nat,
      keyword: string, name: string, behind: string)
    requires |segment| == |shape| && SplitFrom(segment, shape, 0) == (attributes, head)
    requires Heads(head, at, keyword, name, behind)
    ensures keyword == "struct" && Sequential(attributes)
        ==> Opened(file, segment, shape, out)
            == Ok((Type(Some(|out.structs|)), out.(structs := out.structs + [LayoutStruct(file, name, [])])))
    ensures keyword == "struct" && !Sequential(attributes) ==> Opened(file, segment, shape, out) == Ok((Type(None), out))
    ensures keyword == "class" || keyword == "interface" || keyword == "record"
        ==> Opened(file, segment, shape, out) == Ok((Type(None), out))
    ensures keyword == "enum" && name == "" ==> Opened(file, segment, shape, out) == Err(NoEnumName(file, head))
  {
    hide SplitFrom, HeadWords, Opened, Sequential, IsIdentifierChar;
    var words := HeadWords(head);
    KeywordIs(words, 0, at);
    NameIs(words[at + 1], name, behind);
    if keyword == "struct" {
      StructOpens(file, segment, shape, out, attributes, head, at);
    } else if keyword == "enum" {
      EnumOpens(file, segment, shape, out, attributes, head, at);
    } else {
      BodyOpens(file, segment, shape, out, attributes, head, at, keyword);
    }
  }

  /** That a declaration's first type keyword is the word `at` of its head, and not the last. */
  predicate OpensAt(segment: string, shape: string, attributes: seq<Attribute>, head: string, at: nat, keyword: string)
    requires |segment| == |shape|
  {
    && SplitFrom(segment, shape, 0) == (attributes, head) && at + 1 < |HeadWords(head)|
    && KeywordAt(HeadWords(head), 0) == at && HeadWords(head)[at] == keyword
  }

  function NameAt(head: string, at: nat): string
    requires at + 1 < |HeadWords(head)|
  {
    var word := HeadWords(head)[at + 1];
    word[..IdentifierEnd(word)]
  }

  lemma StructOpens(file: string, segment: string, shape: string, out: Declarations, attributes: seq<Attribute>, head: string, at: nat)
    requires |segment| == |shape| && OpensAt(segment, shape, attributes, head, at, "struct")
    ensures Opened(file, segment, shape, out)
         == if Sequential(attributes) then
              Ok((Type(Some(|out.structs|)), out.(structs := out.structs + [LayoutStruct(file, NameAt(head, at), [])])))
            else Ok((Type(None), out))
  {
    hide SplitFrom, SplitWhitespace, FindChar, Sequential, IdentifierEnd, KeywordAt, Trim;
  }

  lemma EnumOpens(file: string, segment: string, shape: string, out: Declarations, attributes: seq<Attribute>, head: string, at: nat)
    requires |segment| == |shape| && OpensAt(segment, shape, attributes, head, at, "enum")
    ensures NameAt(head, at) == "" ==> Opened(file, segment, shape, out) == Err(NoEnumName(file, head))
  {
    hide SplitFrom, SplitWhitespace, FindChar, IdentifierEnd, KeywordAt, Trim, Opened, NameAt, OpensAt;
    OpensEnum(segment, shape, attributes, head, at);
    var words := SplitWhitespace(head[..FindChar(head, '(')]);
    UnnamedEnum(file, segment, shape, out, head, words, at, NameAt(head, at));
  }

  lemma UnnamedEnum(
      file: string, segment: string, shape: string, out: Declarations, head: string, words: seq<string>, at: nat, name: string)
    requires |segment| == |shape| && SplitFrom(segment, shape, 0).1 == head
    requires words == SplitWhitespace(head[..FindChar(head, '(')]) && at + 1 < |words| && KeywordAt(words, 0) == at
    requires words[at] == "enum" && words[at] != "struct" && name == words[at + 1][..IdentifierEnd(words[at + 1])]
    ensures name == "" ==> Opened(file, segment, shape, out) == Err(NoEnumName(file, head))
  {
    hide SplitFrom, SplitWhitespace, FindChar, Sequential, IdentifierEnd, KeywordAt, Trim;
  }

  /** What the reader finds of the head of an enum. */
  lemma OpensEnum(segment: string, shape: string, attributes: seq<Attribute>, head: string, at: nat)
    requires |segment| == |shape| && OpensAt(segment, shape, attributes, head, at, "enum")
    ensures SplitFrom(segment, shape, 0) == (attributes, head)
    ensures var words := SplitWhitespace(head[..FindChar(head, '(')]);
            && at + 1 < |words| && KeywordAt(words, 0) == at && words[at] == "enum" && words[at] != "struct"
            && NameAt(head, at) == words[at + 1][..IdentifierEnd(words[at + 1])]
  {
    hide SplitFrom, SplitWhitespace, FindChar, IdentifierEnd, KeywordAt;
    NotStruct();
  }

  lemma NotStruct()
    ensures "enum" != "struct"
  {
  }

  lemma BodyOpens(file: string, segment: string, shape: string, out: Declarations, attributes: seq<Attribute>, head: string, at: nat, keyword: string)
    requires |segment| == |shape| && OpensAt(segment, shape, attributes, head, at, keyword)
    requires keyword == "class" || keyword == "interface" || keyword == "record"
    ensures Opened(file, segment, shape, out) == Ok((Type(None), out))
  {
    hide SplitFrom, SplitWhitespace, FindChar, Sequential, IdentifierEnd, KeywordAt, Trim;
  }

  /** Without a type's keyword before the first parenthesis, a brace opens neither type nor enum. */
  lemma OtherOpened(file: string, segment: string, shape: string, out: Declarations, attributes: seq<Attribute>, head: string)
    requires |segment| == |shape| && SplitFrom(segment, shape, 0) == (attributes, head)
    requires forall w :: w in HeadWords(head) ==> !IsTypeWord(w)
    ensures Opened(file, segment, shape, out) == Ok((Other, out))
  {
    hide SplitFrom, SplitWhitespace, FindChar;
    var words := HeadWords(head);
    KeywordIs(words, 0, |words|);
  }

  /** The layout of a struct is sequential if an attribute says so. */
  lemma LayoutIs(attributes: seq<Attribute>)
    ensures Sequential(attributes)
       <==> exists k, i :: 0 <= k < |attributes| && attributes[k].name == "StructLayout" && 0 <= i <= |attributes[k].args|
              && StandsAt(attributes[k].args, "Sequential", i)
  {
    hide StandsAt;
    if Sequential(attributes) {
      var a :| a in attributes && a.name == "StructLayout" && Find(a.args, "Sequential").Some?;
      var k :| 0 <= k < |attributes| && attributes[k] == a;
      var i := Find(a.args, "Sequential").value;
      StandsWithin(a.args, "Sequential", i);
      assert StandsAt(attributes[k].args, "Sequential", i);
    }
    forall k, i | 0 <= k < |attributes| && attributes[k].name == "StructLayout" && 0 <= i <= |attributes[k].args|
                  && StandsAt(attributes[k].args, "Sequential", i)
      ensures Sequential(attributes)
    {
      assert attributes[k] in attributes;
    }
  }

  lemma StandsWithin(s: string, part: string, i: nat)
    requires StandsAt(s, part, i)
    ensures i <= |s|
  {
  }

  // ----- Methods without bodies -----

  /** A declaration that ends in a parameter list: a head, and the list in its parentheses. */
  lemma ListFound(head: string, list: string)
    requires '(' !in list && ')' !in list
    ensures ParametersOf(head + ("(" + (list + ")"))) == Some((|head|, |head| + |list| + 1))
  {
    hide Trim;
    var s := head + ("(" + (list + ")"));
    var close := |head| + |list| + 1;
    assert s[close] == ')' && s[close + 1..] == "";
    assert LastChar(s, ')', |s|) == Some(close);
    NothingTrimmed();
    assert forall k :: |head| < k < close ==> s[k] == list[k - |head| - 1] && list[k - |head| - 1] in list;
    assert s[|head|] == '(';
    ListOpens(s, |head|, close);
  }

  lemma {:induction false} ListOpens(s: string, open: nat, k: nat)
    requires open < k <= |s| && s[open] == '(' && forall j :: open < j < k ==> s[j] != '(' && s[j] != ')'
    ensures OpenBefore(s, k, 1) == Some(open)
    decreases k
  {
    if k > open + 1 { ListOpens(s, open, k - 1); }
  }

  /** A method without a body is an error without an import attribute, if it is `extern`, or `static`
      and `partial`; any other such member is passed over. */
  lemma NativeWithoutAttribute(file: string, segment: string, shape: string, attributes: seq<Attribute>, head: string, list: string)
    requires |segment| == |shape| && SplitFrom(segment, shape, 0) == (attributes, head + ("(" + (list + ")")))
    requires forall k :: 0 <= k < |attributes| ==> attributes[k].name != "LibraryImport" && attributes[k].name != "DllImport"
    requires '(' !in list && ')' !in list && '=' !in head
    ensures var words, declaration := SplitWhitespace(head), head + ("(" + (list + ")"));
            ImportOf(file, segment, shape)
            == if "extern" in words || ("static" in words && "partial" in words) then
                 Err(NoImportAttribute(file, JoinWords(SplitWhitespace(declaration))))
               else Ok(None)
  {
    hide SplitFrom, SplitWhitespace, ParametersOf, JoinWords;
    var declaration := head + ("(" + (list + ")"));
    NoNative(attributes);
    ListFound(head, list);
    assert declaration[..|head|] == head;
  }

  lemma {:induction false} NoNative(attributes: seq<Attribute>)
    requires forall k :: 0 <= k < |attributes| ==> attributes[k].name != "LibraryImport" && attributes[k].name != "DllImport"
    ensures FirstNative(attributes).None?
  {
    if attributes != [] {
      assert attributes[0].name != "LibraryImport" && attributes[0].name != "DllImport";
      NoNative(attributes[1..]);
    }
  }

  // ----- Imports -----

  /** The words that may stand before the type of a member. */
  predicate Modifier(w: string) {
    || w == "public" || w == "private" || w == "internal" || w == "protected" || w == "static" || w == "partial"
    || w == "extern" || w == "unsafe" || w == "new" || w == "readonly" || w == "volatile" || w == "file"
    || w == "required" || w == "abstract" || w == "sealed" || w == "virtual" || w == "override"
  }

  lemma ModifierIs(w: string)
    ensures IsModifier(w) <==> Modifier(w)
  {
    var m := MODIFIERS;
    assert m[0] == "public" && m[1] == "private" && m[2] == "internal" && m[3] == "protected" && m[4] == "static";
    assert m[5] == "partial" && m[6] == "extern" && m[7] == "unsafe" && m[8] == "new" && m[9] == "readonly";
    assert m[10] == "volatile" && m[11] == "file" && m[12] == "required" && m[13] == "abstract" && m[14] == "sealed";
    assert m[15] == "virtual" && m[16] == "override";
  }

  /** Modifiers in front are dropped, up to the first word that is none. */
  lemma {:induction false} ModifiersDropped(front: seq<string>, words: seq<string>)
    requires (forall k :: 0 <= k < |front| ==> Modifier(front[k])) && (words == [] || !Modifier(words[0]))
    ensures DropModifiers(front + words) == words
    ensures words != [] && words[0] != "fixed" ==> FieldWords(front + words, false) == (false, words)
    decreases |front|
  {
    hide Modifier, IsModifier;
    if front == [] {
      assert front + words == words;
      if words != [] { ModifierIs(words[0]); }
    } else {
      ModifierIs(front[0]);
      NotFixed(front[0]);
      assert (front + words)[0] == front[0] && (front + words)[1..] == front[1..] + words;
      ModifiersDropped(front[1..], words);
    }
  }

  lemma NotFixed(w: string)
    ensures Modifier(w) ==> w != "fixed"
  {
  }

  /** The last identifier of a declaration, without the at sign of a keyword, and what is before it. */
  lemma NameSplitOff(before: string, gap: string, name: string, after: string)
    requires Trimmed(before) && White(gap) && gap != "" && White(after)
    requires name != "" && (forall k :: 0 <= k < |name| ==> IsIdentifierChar(name[k]))
    ensures SplitName(before + gap + name + after) == Some((before, name))
    ensures SplitName(before + gap + ("@" + name) + after) == Some((before, name))
  {
    hide IsSpace, IsIdentifierChar, TrimEnd, NameStart, White, Trimmed;
    NameEnds(before, gap, name, after);
    NameEnds(before, gap, "@" + name, after);
    assert ("@" + name)[1..] == name;
    NoAtSign(name);
  }

  lemma NoAtSign(name: string)
    requires name != "" && (forall k :: 0 <= k < |name| ==> IsIdentifierChar(name[k]))
    ensures WithoutAt(name) == name && WithoutAt("@" + name) == name
  {
    assert ("@" + name)[1..] == name;
  }

  lemma NameEnds(before: string, gap: string, written: string, after: string)
    requires Trimmed(before) && White(gap) && gap != "" && White(after)
    requires written != "" && forall k :: 0 <= k < |written| ==> IsNameChar(written[k])
    ensures var declaration := before + gap + written + after; var text := TrimEnd(declaration);
            && text == before + gap + written && NameStart(text, |text|) == |before + gap| < |text|
            && TrimEnd(text[..|before + gap|]) == before && text[|before + gap|..] == written
  {
    hide IsSpace, TrimEnd, NameStart, IsNameChar;
    var front := before + gap;
    var text := front + written;
    var last := written[|written| - 1];
    NameNoSpace(last);
    assert text[|text| - 1] == last && text[0] == before[0];
    TrimEndAround(text, after);
    assert before + gap + written + after == text + after;
    assert forall k :: |front| <= k < |text| ==> text[k] == written[k - |front|];
    assert text[|front| - 1] == gap[|gap| - 1];
    SpaceNoName(gap[|gap| - 1]);
    StartsAt(text, |text|, |front|);
    assert text[..|front|] == before + gap;
    TrimEndAround(before, gap);
  }

  lemma NameNoSpace(c: char)
    requires IsNameChar(c)
    ensures !IsSpace(c)
  {
  }

  lemma SpaceNoName(c: char)
    requires IsSpace(c)
    ensures !IsNameChar(c)
  {
  }

  lemma StartsAt(s: string, stop: nat, start: nat)
    requires 0 < start <= stop <= |s| && (forall k :: start <= k < stop ==> IsNameChar(s[k])) && !IsNameChar(s[start - 1])
    ensures NameStart(s, stop) == start
  {
    hide IsNameChar;
  }

  /** A parameter is its type and its name, without a default value. */
  lemma ParameterRead(part: string, ty: string, gap: string, name: string, after: string, value: Option<string>)
    requires SplitFrom(part, part, 0).1 == ty + gap + name + after + if value.Some? then "=" + value.value else ""
    requires Trimmed(ty) && '=' !in ty && White(gap) && gap != "" && White(after)
    requires name != "" && (forall k :: 0 <= k < |name| ==> IsIdentifierChar(name[k]))
    ensures ParameterOf(part) == Some(Slot(name, ty, None))
  {
    hide SplitFrom, SplitName, FindChar, IsSpace, IsIdentifierChar;
    var plain := ty + gap + name + after;
    var declaration := plain + if value.Some? then "=" + value.value else "";
    NoEqualsIn(gap, name, after);
    assert '=' !in plain;
    NameSplitOff(ty, gap, name, after);
    if value.Some? {
      assert declaration == plain + (['='] + value.value);
      FoundAt(plain, '=', value.value);
    } else {
      assert declaration == plain;
      NotFound(plain, '=');
      assert plain[..|plain|] == plain;
    }
    TrimmedSome(ty);
  }

  lemma TrimmedSome(s: string)
    requires Trimmed(s)
    ensures s != ""
  {
  }

  lemma NoEqualsIn(gap: string, name: string, after: string)
    requires White(gap) && White(after) && (forall k :: 0 <= k < |name| ==> IsIdentifierChar(name[k]))
    ensures '=' !in gap && '=' !in name && '=' !in after
  {
    assert !IsSpace('=') && !IsIdentifierChar('=');
  }

  /** A method's head: the words before its name, and the name. */
  function MethodHead(words: seq<string>, name: string): string { JoinWords(words) + " " + name }

  /** A method's head with its parameter list in parentheses. */
  function Method(head: string, list: string): string { head + ("(" + (list + ")")) }

  /** An import with any attributes and modifiers: its result type is the words after the modifiers, its
      symbol the entry point if one is named, and else its own name. */
  lemma ImportWritten(
      file: string, segment: string, shape: string, attributes: seq<Attribute>, k: nat, front: seq<string>,
      types: seq<string>, name: string, list: string, slots: seq<Slot>)
    requires |segment| == |shape| && AreWords(front + types) && types != [] && '(' !in list && ')' !in list
    requires SplitFrom(segment, shape, 0) == (attributes, Method(MethodHead(front + types, name), list))
    requires (forall i :: 0 <= i < |front| ==> Modifier(front[i])) && !Modifier(types[0])
    requires name != "" && (forall i :: 0 <= i < |name| ==> IsIdentifierChar(name[i]))
    requires if Trim(list) == "" then slots == [] else ParametersIn(Parts(list, list)) == Some(slots)
    requires k < |attributes| && (attributes[k].name == "LibraryImport" || attributes[k].name == "DllImport")
    requires forall j :: 0 <= j < k ==> attributes[j].name != "LibraryImport" && attributes[j].name != "DllImport"
    ensures var entry := EntryPoint(attributes[k].args);
            ImportOf(file, segment, shape)
            == Ok(Some(Import(file, if entry.Some? then entry.value else name, JoinWords(types), slots, attributes)))
  {
    hide *;
    var head := MethodHead(front + types, name);
    NativeIs(attributes, k);
    MethodCut(head, list);
    HeadSplit(front, types, name);
    ImportFrom(file, segment, shape, attributes, attributes[k], Method(head, list), |head|, |head| + |list| + 1,
               JoinWords(front + types), name, list, types, slots);
  }

  /** Where the parameter list of a method stands. */
  lemma MethodCut(head: string, list: string)
    requires '(' !in list && ')' !in list
    ensures var rest, close := Method(head, list), |head| + |list| + 1;
            && ParametersOf(rest) == Some((|head|, close)) && close < |rest|
            && rest[..|head|] == head && rest[|head| + 1..close] == list
  {
    hide ParametersOf;
    ListFound(head, list);
    ListCut(head, list);
  }

  lemma ImportFrom(
      file: string, segment: string, shape: string, attributes: seq<Attribute>, native: Attribute, rest: string, open: nat,
      close: nat, words: string, name: string, list: string, types: seq<string>, slots: seq<Slot>)
    requires |segment| == |shape| && SplitFrom(segment, shape, 0) == (attributes, rest) && FirstNative(attributes) == Some(native)
    requires ParametersOf(rest) == Some((open, close)) && open < close < |rest|
    requires rest[open + 1..close] == list && SplitName(rest[..open]) == Some((words, name))
    requires DropModifiers(SplitWhitespace(words)) == types && JoinWords(types) != ""
    requires if Trim(list) == "" then slots == [] else ParametersIn(Parts(list, list)) == Some(slots)
    ensures var entry := EntryPoint(native.args);
            ImportOf(file, segment, shape)
            == Ok(Some(Import(file, if entry.Some? then entry.value else name, JoinWords(types), slots, attributes)))
  {
    hide *;
    ImportParts(file, attributes, native, rest, open, close, words, name, types, slots);
    ImportFound(file, segment, shape, attributes, native, rest);
  }

  lemma ListCut(head: string, list: string)
    ensures var rest := head + ("(" + (list + ")")); rest[..|head|] == head && rest[|head| + 1..|head| + |list| + 1] == list
  {
  }

  lemma ImportFound(file: string, segment: string, shape: string, attributes: seq<Attribute>, native: Attribute, rest: string)
    requires |segment| == |shape| && SplitFrom(segment, shape, 0) == (attributes, rest) && FirstNative(attributes) == Some(native)
    ensures ImportIn(file, attributes, native, rest).Some? ==> ImportOf(file, segment, shape) == Ok(ImportIn(file, attributes, native, rest))
  {
    hide SplitFrom, FirstNative, ImportIn, DeclaresNative, Squash;
  }

  lemma ImportParts(
      file: string, attributes: seq<Attribute>, native: Attribute, rest: string, open: nat, close: nat, words: string,
      name: string, types: seq<string>, slots: seq<Slot>)
    requires ParametersOf(rest) == Some((open, close)) && open < close < |rest| && SplitName(rest[..open]) == Some((words, name))
    requires DropModifiers(SplitWhitespace(words)) == types && JoinWords(types) != ""
    requires var list := rest[open + 1..close];
             if Trim(list) == "" then slots == [] else ParametersIn(Parts(list, list)) == Some(slots)
    ensures var entry := EntryPoint(native.args);
            ImportIn(file, attributes, native, rest)
            == Some(Import(file, if entry.Some? then entry.value else name, JoinWords(types), slots, attributes))
  {
    hide SplitName, SplitWhitespace, JoinWords, ParametersOf, Parts, Trim, EntryPoint, DropModifiers, ParametersIn;
  }

  /** The name and the result type of a method's head. */
  lemma HeadSplit(front: seq<string>, types: seq<string>, name: string)
    requires AreWords(front + types) && types != []
    requires (forall i :: 0 <= i < |front| ==> Modifier(front[i])) && !Modifier(types[0])
    requires name != "" && (forall i :: 0 <= i < |name| ==> IsIdentifierChar(name[i]))
    ensures var words := JoinWords(front + types);
            && SplitName(MethodHead(front + types, name)) == Some((words, name))
            && DropModifiers(SplitWhitespace(words)) == types && JoinWords(types) != ""
  {
    hide SplitName, SplitWhitespace, JoinWords, IsIdentifierChar, Modifier, DropModifiers, IsSpace, Trimmed, IsWord;
    var words := JoinWords(front + types);
    JoinTrimmed(front + types);
    NoWhite();
    NameSplitOff(words, " ", name, "");
    assert words + " " + name + "" == words + " " + name;
    SplitOfJoined(front + types);
    ModifiersDropped(front, types);
    assert forall i :: 0 <= i < |types| ==> types[i] == (front + types)[|front| + i];
    JoinTrimmed(types);
    TrimmedSome(JoinWords(types));
  }

  // ----- Fields -----

  /** What is no field of a struct: nothing, a method or a property, and a static or constant member. */
  lemma NoField(file: string, segment: string, shape: string, attributes: seq<Attribute>, rest: string)
    requires |segment| == |shape| && SplitFrom(segment, shape, 0) == (attributes, rest)
    requires || rest == "" || '(' in rest || (exists k :: 0 <= k <= |rest| && StandsAt(rest, "=>", k))
             || "static" in SplitWhitespace(rest) || "const" in SplitWhitespace(rest)
    ensures FieldOf(file, segment, shape) == Ok(None)
  {
    hide SplitFrom, SplitWhitespace, StandsAt;
  }

  /** A field with any modifiers, in any white space, is its name and its type. */
  lemma FieldWritten(
      file: string, segment: string, shape: string, attributes: seq<Attribute>, rest: string, front: seq<string>,
      types: seq<string>, name: string)
    requires |segment| == |shape| && SplitFrom(segment, shape, 0) == (attributes, rest)
    requires SplitWhitespace(rest) == front + (types + [name]) && types != [] && AreWords(types)
    requires rest != "" && '(' !in rest && forall k :: 0 <= k <= |rest| ==> !StandsAt(rest, "=>", k)
    requires (forall i :: 0 <= i < |front| ==> Modifier(front[i]) && front[i] != "static") && !Modifier(types[0]) && types[0] != "fixed"
    requires "static" !in types && "const" !in types && name != "static" && name != "const"
    requires name != "" && (forall i :: 0 <= i < |name| ==> IsIdentifierChar(name[i]))
    ensures FieldOf(file, segment, shape) == Ok(Some(Slot(name, JoinWords(types), None)))
  {
    hide SplitFrom, SplitWhitespace, JoinWords, SplitName, IsIdentifierChar, Modifier, StandsAt, IsSpace, FieldWords, Trimmed;
    hide AreWords, SlotOf, Squash, FieldOf;
    var left := types + [name];
    ModifiersDropped(front, left);
    ConstIsNone(front);
    assert left[0] == types[0];
    SlotWritten(types, name);
    assert "static" !in left && "const" !in left;
    NoArrow(rest);
    FieldParts(file, segment, shape, attributes, rest, front + left, left, Slot(name, JoinWords(types), None));
  }

  lemma FieldParts(
      file: string, segment: string, shape: string, attributes: seq<Attribute>, rest: string, words: seq<string>,
      left: seq<string>, slot: Slot)
    requires |segment| == |shape| && SplitFrom(segment, shape, 0) == (attributes, rest) && SplitWhitespace(rest) == words
    requires rest != "" && '(' !in rest && Find(rest, "=>").None?
    requires "static" !in words && "const" !in words && FieldWords(words, false) == (false, left)
    requires SlotOf(false, JoinWords(left)) == Some(slot)
    ensures FieldOf(file, segment, shape) == Ok(Some(slot))
  {
    hide SplitFrom, SplitWhitespace, JoinWords, StandsAt, FieldWords, SlotOf, Squash, Find;
  }

  lemma NoArrow(rest: string)
    requires forall k :: 0 <= k <= |rest| ==> !StandsAt(rest, "=>", k)
    ensures Find(rest, "=>").None?
  {
  }

  lemma SlotWritten(types: seq<string>, name: string)
    requires types != [] && AreWords(types)
    requires name != "" && (forall i :: 0 <= i < |name| ==> IsIdentifierChar(name[i]))
    ensures SlotOf(false, JoinWords(types + [name])) == Some(Slot(name, JoinWords(types), None))
  {
    hide JoinWords, SplitName, IsIdentifierChar, IsSpace, Trimmed, AreWords;
    JoinAppend(types, [name]);
    OneJoined(name);
    JoinTrimmed(types);
    NoWhite();
    NameSplitOff(JoinWords(types), " ", name, "");
    assert JoinWords(types) + " " + name + "" == JoinWords(types) + " " + name;
    TrimmedSome(JoinWords(types));
  }

  lemma OneJoined(w: string)
    ensures JoinWords([w]) == w
  {
  }

  lemma ConstIsNone(front: seq<string>)
    requires forall i :: 0 <= i < |front| ==> Modifier(front[i]) && front[i] != "static"
    ensures "static" !in front && "const" !in front
  {
  }

  // ----- Brackets -----

  predicate IsPair(open: char, close: char) {
    (open == '(' && close == ')') || (open == '[' && close == ']') || (open == '<' && close == '>') || (open == '{' && close == '}')
  }

  predicate Unbracketed(s: string) {
    forall k :: 0 <= k < |s| ==> s[k] !in {'(', ')', '[', ']', '<', '>', '{', '}'}
  }

  lemma PairIs(open: char, close: char)
    requires IsPair(open, close)
    ensures Opening(open) && Closing(close) && !Opening(close) && open != ',' && close != ','
  {
  }

  lemma {:induction false} CommasPassedOver(s: string, k: nat, stop: nat, depth: nat, start: nat)
    requires start <= k <= stop <= |s| && depth > 0 && Unbracketed(s[k..stop])
    ensures CommasFrom(s, k, depth, start) == CommasFrom(s, stop, depth, start)
    decreases stop - k
  {
    hide Unbracketed;
    if k < stop {
      PlainFirst(s[k..stop]);
      assert s[k..stop][0] == s[k] && s[k..stop][1..] == s[k + 1..stop];
      CommasPassedOver(s, k + 1, stop, depth, start);
    }
  }

  lemma PlainFirst(s: string)
    requires Unbracketed(s) && s != ""
    ensures Unbracketed(s[1..]) && !Opening(s[0]) && !Closing(s[0])
  {
  }

  /** A comma within brackets of any of the four kinds separates nothing. */
  lemma BracketedCommas(open: char, close: char, inner: string)
    requires IsPair(open, close) && Unbracketed(inner)
    ensures var s := [open] + inner + [close]; Parts(s, s) == [s]
  {
    hide Unbracketed, IsPair, Opening, Closing;
    var s := [open] + inner + [close];
    var stop := 1 + |inner|;
    PairIs(open, close);
    assert s[0] == open && s[stop] == close && s[1..stop] == inner && |s| == stop + 1;
    CommasPassedOver(s, 1, stop, 1, 0);
    assert CommasFrom(s, 0, 0, 0) == CommasFrom(s, 1, 1, 0);
    assert CommasFrom(s, stop, 1, 0) == CommasFrom(s, |s|, 0, 0) == [(0, |s|)];
    assert s[0..|s|] == s;
  }

  /** A comma outside brackets separates what is before it from the rest. */
  lemma FirstComma(first: string, rest: string)
    requires Unbracketed(first) && ',' !in first
    ensures var s := first + ("," + rest); CommasFrom(s, 0, 0, 0) == [(0, |first|)] + CommasFrom(s, |first| + 1, 0, |first| + 1)
  {
    hide Unbracketed;
    var s := first + ("," + rest);
    assert s[0..|first|] == first && s[|first|] == ',';
    assert forall k :: 0 <= k < |first| ==> s[k] == first[k] && first[k] in first;
    CommaReached(s, 0, |first|);
    CommaIs();
  }

  lemma CommaIs()
    ensures !Opening(',') && !Closing(',')
  {
  }

  lemma {:induction false} CommaReached(s: string, k: nat, stop: nat)
    requires k <= stop <= |s| && Unbracketed(s[k..stop]) && forall j :: k <= j < stop ==> s[j] != ','
    ensures CommasFrom(s, k, 0, 0) == CommasFrom(s, stop, 0, 0)
    decreases stop - k
  {
    hide Unbracketed;
    if k < stop {
      PlainFirst(s[k..stop]);
      assert s[k..stop][0] == s[k] && s[k..stop][1..] == s[k + 1..stop];
      CommaReached(s, k + 1, stop);
    }
  }

  /** An attribute list goes on over the brackets and parentheses within it. */
  lemma NestedList(open: char, close: char, before: string, inner: string, after: string)
    requires (open == '(' && close == ')') || (open == '[' && close == ']')
    requires Unbracketed(before) && Unbracketed(inner) && Unbracketed(after)
    ensures var s := "[" + before + [open] + inner + [close] + after + "]"; BracketEnd(s, 0, 0) == Some(|s| - 1)
  {
    hide Unbracketed;
    var s := "[" + before + [open] + inner + [close] + after + "]";
    var a := 1 + |before|;
    var b := a + 1 + |inner|;
    var c := b + 1 + |after|;
    assert s[0] == '[' && s[a] == open && s[b] == close && s[c] == ']' && |s| == c + 1;
    assert s[1..a] == before && s[a + 1..b] == inner && s[b + 1..c] == after;
    ListPassedOver(s, 1, a, 1);
    ListPassedOver(s, a + 1, b, 2);
    ListPassedOver(s, b + 1, c, 1);
  }

  lemma {:induction false} ListPassedOver(s: string, k: nat, stop: nat, depth: nat)
    requires k <= stop <= |s| && Unbracketed(s[k..stop])
    ensures BracketEnd(s, k, depth) == BracketEnd(s, stop, depth)
    decreases stop - k
  {
    hide Unbracketed;
    if k < stop {
      NoListEnd(s[k..stop]);
      assert s[k..stop][0] == s[k] && s[k..stop][1..] == s[k + 1..stop];
      ListPassedOver(s, k + 1, stop, depth);
    }
  }

  lemma NoListEnd(s: string)
    requires Unbracketed(s) && s != ""
    ensures Unbracketed(s[1..]) && s[0] != '(' && s[0] != ')' && s[0] != '[' && s[0] != ']'
  {
  }

  /** A length is digits, up to the largest of 64 bits. */
  lemma LengthParsed(n: nat)
    ensures ParseUsize(Decimal(n)) == if n <= 0xFFFF_FFFF_FFFF_FFFF then Some(n) else None
    ensures ParseUsize("+" + Decimal(n)) == ParseUsize(Decimal(n))
  {
    hide Decimal, Digits;
    var d := Decimal(n);
    DigitsDecimal(n);
    assert d[0] in d && IsDigit(d[0]);
    assert "+"[0] == '+' && ("+" + d)[1..] == d;
  }

  /** A number of 128 bits with a sign: digits, behind a sign or without one, within its range. */
  lemma SignedParsed(n: nat)
    ensures ParseI128(Decimal(n), 10) == if n <= 0x7FFF_FFFF_FFFF_FFFF_FFFF_FFFF_FFFF_FFFF then Some(n) else None
    ensures ParseI128("+" + Decimal(n), 10) == ParseI128(Decimal(n), 10)
    ensures ParseI128("-" + Decimal(n), 10) == if n <= 0x8000_0000_0000_0000_0000_0000_0000_0000 then Some(0 - n as int) else None
  {
    hide Decimal, Digits;
    var d := Decimal(n);
    DigitsDecimal(n);
    assert d[0] in d && IsDigit(d[0]);
    assert "+"[0] == '+' && "-"[0] == '-' && ("+" + d)[1..] == d && ("-" + d)[1..] == d;
  }

  /** A bracket that closes nothing changes nothing: a comma behind it separates. */
  lemma StrayBracket(open: char, close: char, rest: string)
    requires IsPair(open, close)
    ensures var s := [close] + ("," + rest); CommasFrom(s, 0, 0, 0) == [(0, 1)] + CommasFrom(s, 2, 0, 2)
  {
    hide IsPair, Opening, Closing;
    PairIs(open, close);
    CommaIs();
    var s := [close] + ("," + rest);
    assert s[0] == close && s[1] == ',';
    assert CommasFrom(s, 0, 0, 0) == CommasFrom(s, 1, 0, 0);
  }
}
