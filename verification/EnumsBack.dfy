/** How the reader takes the members of an enum: written out, with and without a value, they are
    read back with the implicit values counted on. */
module EnumsBack {
  import opened Wrappers
  import opened Text
  import opened Numbers
  import opened Words
  import opened SurfaceReader
  import opened TypeTexts
  import opened ReadBack
  import opened Numerals
  import Condition

  // ----- Integers -----

  /** An integer as C# writes it: a numeral with a sign, if it is negative, and with separators
      between its digits. */
  datatype CsNumeral = CsNumeral(negative: bool, digits: string, numeral: Numeral)

  predicate CsNumeralOk(n: CsNumeral) {
    && NumeralOk(n.numeral) && n.numeral.number <= 0x7FFF_FFFF_FFFF_FFFF_FFFF_FFFF_FFFF_FFFF
    && n.digits != "" && n.digits[0] != '_' && Unseparated(n.digits) == NumberDigits(n.numeral)
  }

  /** Digits without the underscores between them. */
  function Unseparated(s: string): string {
    if s == "" then "" else if s[0] == '_' then Unseparated(s[1..]) else [s[0]] + Unseparated(s[1..])
  }

  function CsText(n: CsNumeral): string { (if n.negative then "-" else "") + (n.digits + n.numeral.suffix) }

  function NumeralValue(n: CsNumeral): int { if n.negative then 0 - n.numeral.number else n.numeral.number }

  lemma {:induction false} Separated(s: string)
    ensures WithoutChar(s, '_') == Unseparated(s)
    ensures forall k :: 0 <= k < |s| ==> s[k] == '_' || s[k] in Unseparated(s)
  {
    if s != "" {
      Separated(s[1..]);
      forall k | 0 <= k < |s| ensures s[k] == '_' || s[k] in Unseparated(s) {
        if k > 0 { assert s[k] == s[1..][k - 1]; }
      }
    }
  }

  /** Word characters, none of which is a suffix at the end. */
  lemma SeparatedPlain(n: CsNumeral)
    requires CsNumeralOk(n)
    ensures AllWordChars(n.digits) && IsDigit(n.digits[0]) && n.digits[|n.digits| - 1] !in "uUlL"
  {
    hide NumberDigits, IsWordChar, IsDigit;
    var d := NumberDigits(n.numeral);
    Separated(n.digits);
    DigitsPlain(n.numeral);
    assert IsWordChar('_') by { UnderscoreIsWord(); }
    forall k | 0 <= k < |n.digits| ensures IsWordChar(n.digits[k]) {
      if n.digits[k] != '_' { assert n.digits[k] in d; }
    }
    assert d[0] == n.digits[0];
    LastDigit(n.digits);
  }

  lemma UnderscoreIsWord()
    ensures IsWordChar('_')
  {
  }

  lemma {:induction false} LastDigit(s: string)
    requires s != "" && Unseparated(s) != ""
    ensures s[|s| - 1] == '_' || s[|s| - 1] == Unseparated(s)[|Unseparated(s)| - 1]
    decreases |s|
  {
    var rest := s[1..];
    if rest != "" {
      assert rest[|rest| - 1] == s[|s| - 1];
      if Unseparated(rest) != "" { LastDigit(rest); } else { OnlySeparators(rest); }
    }
  }

  lemma {:induction false} OnlySeparators(s: string)
    requires s != "" && Unseparated(s) == ""
    ensures s[|s| - 1] == '_'
  {
    if |s| > 1 { OnlySeparators(s[1..]); }
  }

  lemma Signed(n: Numeral)
    requires NumeralOk(n) && n.number <= 0x7FFF_FFFF_FFFF_FFFF_FFFF_FFFF_FFFF_FFFF
    ensures var d := NumberDigits(n); var hex := StartsWith(d, "0x") || StartsWith(d, "0X");
            (if hex then ParseI128(d[2..], 16) else ParseI128(d, 10)) == Some(n.number)
  {
    hide NumberDigits, Digits, IsWordChar;
    DigitsParsed(n);
    DigitsPlain(n);
    assert "-"[0] == '-' && "+"[0] == '+';
    assert !IsWordChar('-') && !IsWordChar('+') by { SignsPlain(); }
  }

  lemma SignsPlain()
    ensures !IsWordChar('-') && !IsWordChar('+')
  {
  }

  /** A written integer is read as its value. */
  lemma IntegerRead(n: CsNumeral)
    requires CsNumeralOk(n)
    ensures CsInteger(CsText(n)) == Some(NumeralValue(n))
  {
    hide NumberDigits, ParseI128, Trim, WithoutChar, Unseparated, Condition.TrimSuffixes, AllWordChars, IsDigit;
    var text, unsigned := CsText(n), n.digits + n.numeral.suffix;
    SeparatedPlain(n);
    SuffixTrimmed(n.digits, n.numeral.suffix);
    Separated(n.digits);
    Signed(n.numeral);
    assert "-"[0] == '-';
    if n.negative {
      assert text[1..] == unsigned;
      UnsignedTrimmed(n);
    } else {
      assert text == unsigned && text[0] == n.digits[0];
      assert !IsDigit('-') by { MinusNoDigit(); }
    }
  }

  lemma MinusNoDigit()
    ensures !IsDigit('-')
  {
  }

  lemma UnsignedTrimmed(n: CsNumeral)
    requires CsNumeralOk(n)
    ensures var unsigned := n.digits + n.numeral.suffix; Trimmed(unsigned) && Trim(unsigned) == unsigned
  {
    hide NumberDigits, Unseparated, Trim, IsSpace;
    SeparatedPlain(n);
    var d, unsigned := n.digits, n.digits + n.numeral.suffix;
    assert unsigned[0] == d[0] && IsWordChar(d[0]);
    NumeralChar(d[0]);
    var last := unsigned[|unsigned| - 1];
    if n.numeral.suffix == "" {
      assert last == d[|d| - 1] && IsWordChar(last);
    } else {
      assert last == n.numeral.suffix[|n.numeral.suffix| - 1] && IsWordChar(last);
    }
    NumeralChar(last);
    TrimSame(unsigned);
  }

  lemma NumeralChar(c: char)
    requires IsWordChar(c)
    ensures !IsSpace(c) && c != '[' && !Opening(c) && !Closing(c) && c != ',' && c != '='
  {
  }

  // ----- Members -----

  /** What stands around and between the parts of a member is white space. */
  datatype Assigned = Assigned(left: string, right: string, numeral: CsNumeral)

  datatype Member = Member(before: string, name: string, value: Option<Assigned>, after: string)

  predicate MemberOk(m: Member) {
    && White(m.before) && White(m.after) && AllWordChars(m.name)
    && (m.value.Some? ==> White(m.value.value.left) && White(m.value.value.right) && CsNumeralOk(m.value.value.numeral))
  }

  /** A member without the white space around it. */
  function Declared(m: Member): string {
    if m.value.None? then m.name
    else m.name + m.value.value.left + "=" + (m.value.value.right + CsText(m.value.value.numeral))
  }

  function MemberText(m: Member): string { m.before + Declared(m) + m.after }

  function MemberTexts(members: seq<Member>): (r: seq<string>)
    ensures |r| == |members| && forall k :: 0 <= k < |r| ==> r[k] == MemberText(members[k])
  {
    seq(|members|, k requires 0 <= k < |members| => MemberText(members[k]))
  }

  /** Each member with its own value or the one after the last, as far as `i128` goes. */
  function Counted(file: string, name: string, members: seq<Member>, next: int): Result<seq<(string, int)>, ReadError> {
    if members == [] then Ok([])
    else
      var m := members[0];
      var value := if m.value.Some? then NumeralValue(m.value.value.numeral) else next;
      if value >= 0x7FFF_FFFF_FFFF_FFFF_FFFF_FFFF_FFFF_FFFF then Err(ValueOverflows(file, name, m.name))
      else Behind([(m.name, value)], Counted(file, name, members[1..], value + 1))
  }

  /** Counting keeps the names in order, the explicit values, and goes on by one from each value to
      an implicit one, from 0 at the first. */
  lemma {:induction false} CountedMeans(file: string, name: string, members: seq<Member>, next: int)
    requires Counted(file, name, members, next).Ok?
    ensures var values := Counted(file, name, members, next).value;
            && |values| == |members|
            && forall k :: 0 <= k < |values| ==>
                 && values[k].0 == members[k].name
                 && values[k].1 == if members[k].value.Some? then NumeralValue(members[k].value.value.numeral)
                                   else if k == 0 then next else values[k - 1].1 + 1
    decreases |members|
  {
    hide NumeralValue;
    if members != [] {
      var m := members[0];
      var value := if m.value.Some? then NumeralValue(m.value.value.numeral) else next;
      CountedMeans(file, name, members[1..], value + 1);
      var more, values := Counted(file, name, members[1..], value + 1).value, Counted(file, name, members, next).value;
      assert values == [(m.name, value)] + more;
      forall k | 0 <= k < |values|
        ensures values[k].0 == members[k].name
        ensures values[k].1 == if members[k].value.Some? then NumeralValue(members[k].value.value.numeral)
                               else if k == 0 then next else values[k - 1].1 + 1
      {
        if k > 0 { assert values[k] == more[k - 1] && members[k] == members[1..][k - 1]; }
        if k > 1 { assert values[k - 1] == more[k - 2]; }
      }
    }
  }

  // ----- Reading a member -----

  predicate Loose(s: string) {
    forall k :: 0 <= k < |s| ==> !Opening(s[k]) && !Closing(s[k]) && s[k] != ',' && s[k] != '['
  }

  predicate NoEquals(s: string) { forall k :: 0 <= k < |s| ==> s[k] != '=' }

  lemma WhiteLoose(s: string)
    requires White(s)
    ensures Loose(s) && NoEquals(s)
  {
  }

  lemma NameLoose(s: string)
    requires AllWordChars(s)
    ensures Loose(s) && NoEquals(s) && Trimmed(s)
  {
    hide IsSpace, IsWordChar, Opening, Closing;
    forall k | 0 <= k < |s| ensures !Opening(s[k]) && !Closing(s[k]) && s[k] != ',' && s[k] != '[' && s[k] != '=' && !IsSpace(s[k]) {
      NumeralChar(s[k]);
    }
  }

  lemma LooseAppend(a: string, b: string)
    requires Loose(a) && Loose(b)
    ensures Loose(a + b)
  {
  }

  lemma NumeralLoose(n: CsNumeral)
    requires CsNumeralOk(n)
    ensures Loose(CsText(n)) && Trimmed(CsText(n))
  {
    hide IsSpace, NumberDigits, Unseparated, AllWordChars, Opening, Closing;
    SeparatedPlain(n);
    var d := n.digits;
    NameLoose(d);
    UnsignedTrimmed(n);
    forall k | 0 <= k < |n.numeral.suffix|
      ensures var c := n.numeral.suffix[k]; !Opening(c) && !Closing(c) && c != ',' && c != '['
    {
      NumeralChar(n.numeral.suffix[k]);
    }
    LooseAppend(d, n.numeral.suffix);
    MinusLoose();
    LooseAppend(if n.negative then "-" else "", d + n.numeral.suffix);
  }

  lemma MinusLoose()
    ensures Loose("-") && Loose("=") && Loose("") && !IsSpace('-')
  {
  }

  lemma DeclaredShape(m: Member)
    requires MemberOk(m)
    ensures Loose(Declared(m)) && Trimmed(Declared(m)) && Declared(m)[0] != '['
  {
    hide IsSpace, AllWordChars, White, Loose, CsText, CsNumeralOk;
    NameLoose(m.name);
    LooseFirst(m.name);
    if m.value.Some? {
      var v := m.value.value;
      WhiteLoose(v.left);
      WhiteLoose(v.right);
      NumeralLoose(v.numeral);
      MinusLoose();
      LooseAppend(m.name, v.left);
      LooseAppend(m.name + v.left, "=");
      LooseAppend(v.right, CsText(v.numeral));
      LooseAppend(m.name + v.left + "=", v.right + CsText(v.numeral));
    }
  }

  lemma LooseFirst(s: string)
    ensures Loose(s) && s != "" ==> s[0] != '['
  {
  }

  /** Where the `=` of a member stands, and what is on its sides. */
  lemma EqualsFound(left: string, right: string)
    requires NoEquals(left)
    ensures FindChar(left + "=" + right, '=') == |left|
    ensures (left + "=" + right)[..|left|] == left && (left + "=" + right)[|left| + 1..] == right
  {
    var s := left + "=" + right;
    assert s[|left|] == '=' && forall k :: 0 <= k < |left| ==> s[k] == left[k];
  }

  lemma EqualsNone(s: string)
    requires NoEquals(s)
    ensures FindChar(s, '=') == |s| && s[..|s|] == s
  {
  }

  /** The name and the value of a member are read as they were written. */
  lemma DeclaredRead(m: Member)
    requires MemberOk(m)
    ensures var d := Declared(m); var equals := FindChar(d, '=');
            && Trim(d[..equals]) == m.name
            && (equals == |d| <==> m.value.None?)
            && (m.value.Some? ==> CsInteger(Trim(d[equals + 1..])) == Some(NumeralValue(m.value.value.numeral)))
  {
    hide FindChar, Trim, Trimmed, White, AllWordChars, CsText, CsNumeralOk, CsInteger, NumeralValue;
    NameLoose(m.name);
    if m.value.None? {
      EqualsNone(m.name);
      TrimSame(m.name);
    } else {
      var v := m.value.value;
      WhiteLoose(v.left);
      NoEqualsAppend(m.name, v.left);
      EqualsFound(m.name + v.left, v.right + CsText(v.numeral));
      NumeralLoose(v.numeral);
      NoWhite();
      TrimAround("", m.name, v.left);
      assert "" + m.name + v.left == m.name + v.left;
      TrimAround(v.right, CsText(v.numeral), "");
      assert v.right + CsText(v.numeral) + "" == v.right + CsText(v.numeral);
      IntegerRead(v.numeral);
    }
  }

  lemma NoEqualsAppend(a: string, b: string)
    requires NoEquals(a) && NoEquals(b)
    ensures NoEquals(a + b)
  {
  }

  /** White space alone is no member. */
  lemma WhiteRead(white: string)
    requires White(white)
    ensures SplitFrom(white, white, 0).1 == ""
  {
    hide IsSpace, Trim;
    assert white[0..|white|] == white;
    SkipIs(white, 0, |white|);
    assert white[|white|..] == "";
    TrimNothing();
  }

  lemma MemberSplit(m: Member)
    requires MemberOk(m)
    ensures SplitFrom(MemberText(m), MemberText(m), 0).1 == Declared(m) != ""
  {
    hide Declared, White, SplitFrom, Loose, AllWordChars, IsSpace;
    DeclaredShape(m);
    assert MemberText(m)[0..] == m.before + Declared(m) + m.after;
    DeclarationLeft(MemberText(m), 0, m.before, Declared(m), m.after);
  }

  /** Members, and white space after a last comma if there is one, are counted. */
  lemma {:induction false} MembersCounted(file: string, name: string, members: seq<Member>, last: seq<string>, next: int)
    requires (forall k :: 0 <= k < |members| ==> MemberOk(members[k])) && |last| <= 1 && (|last| == 1 ==> White(last[0]))
    ensures MembersIn(file, name, MemberTexts(members) + last, next) == Counted(file, name, members, next)
    decreases |members|
  {
    hide SplitFrom, Declared, MemberOk, FindChar, Trim, CsInteger, White, MemberText;
    var parts := MemberTexts(members) + last;
    if members == [] {
      assert parts == last;
      if last != [] { WhiteRead(last[0]); }
    } else {
      var m := members[0];
      assert MemberOk(m);
      assert parts[0] == MemberText(m) && parts[1..] == MemberTexts(members[1..]) + last;
      MemberSplit(m);
      DeclaredRead(m);
      var value := if m.value.Some? then NumeralValue(m.value.value.numeral) else next;
      MembersCounted(file, name, members[1..], last, value + 1);
    }
  }

  lemma LooseLevel(s: string)
    requires Loose(s)
    ensures Level(s, 0) == Some(0)
  {
    LevelPlain(s, 0);
  }

  /** The members of an enum body, written out between commas, are read back with the explicit
      values they have and the implicit ones counted on, or with the first overflow. */
  lemma MembersRead(file: string, name: string, members: seq<Member>, last: seq<string>)
    requires (forall k :: 0 <= k < |members| ==> MemberOk(members[k])) && |last| <= 1 && (|last| == 1 ==> White(last[0]))
    requires |members| + |last| > 0
    ensures EnumMembersOf(file, name, Listed(MemberTexts(members) + last)) == Counted(file, name, members, 0)
  {
    hide Level, MemberOk, Listed, Parts, MembersIn, Counted, White, MemberText;
    var parts := MemberTexts(members) + last;
    forall k | 0 <= k < |parts| ensures Level(parts[k], 0) == Some(0) {
      if k < |members| {
        TextLoose(members[k]);
        LooseLevel(parts[k]);
      } else {
        WhiteLoose(last[0]);
        LooseLevel(parts[k]);
      }
    }
    ListedParts(parts);
    MembersCounted(file, name, members, last, 0);
  }

  lemma TextLoose(m: Member)
    requires MemberOk(m)
    ensures Loose(MemberText(m))
  {
    hide Declared, White, Loose, AllWordChars;
    DeclaredShape(m);
    WhiteLoose(m.before);
    WhiteLoose(m.after);
    LooseAppend(m.before, Declared(m));
    LooseAppend(m.before + Declared(m), m.after);
  }
}
