/** C# text without its comments, directive lines and the contents of its literals. */
module SurfaceBlank {
  import opened Wrappers
  import opened Text

  /** A directive that makes the declarations depend on the build, and its line. */
  datatype Directive = Directive(line: nat, name: string)

  function ClearedChar(c: char): char { if c == '\n' || c == '\r' then c else ' ' }

  /** Spaces in place of a text, its line breaks kept. */
  function Cleared(s: string): (r: string)
    ensures |r| == |s| && forall k :: 0 <= k < |s| ==> r[k] == ClearedChar(s[k])
  {
    seq(|s|, k requires 0 <= k < |s| => ClearedChar(s[k]))
  }

  function Min(a: nat, b: nat): nat { if a < b then a else b }

  /** What stands at a place: what of it is cleared, and where the next stands. */
  datatype Lexeme = Lexeme(from: nat, stop: nat, next: nat)

  predicate IsAt(text: string, k: nat, c: char) { k < |text| && text[k] == c }

  /** The index after the end of a block comment whose contents start at `k`. */
  function BlockEnd(text: string, k: nat): (r: nat)
    requires k <= |text|
    ensures k <= r <= |text|
    decreases |text| - k
  {
    if k == |text| then k
    else if text[k] == '*' && IsAt(text, k + 1, '/') then k + 2
    else BlockEnd(text, k + 1)
  }

  /** How many quotes stand from `k` on. */
  function Quotes(text: string, k: nat): (n: nat)
    requires k <= |text|
    ensures k + n <= |text|
    ensures k < |text| && text[k] == '"' ==> n > 0
    decreases |text| - k
  {
    if k < |text| && text[k] == '"' then 1 + Quotes(text, k + 1) else 0
  }

  /** The first index from `k` on at which so many quotes stand, or the end. */
  function RawEnd(text: string, k: nat, quotes: nat): (r: nat)
    requires k <= |text|
    ensures k <= r <= |text|
    decreases |text| - k
  {
    if k == |text| || StandsAt(text, Repeat('"', quotes), k) then k else RawEnd(text, k + 1, quotes)
  }

  /** The index of the quote that closes a verbatim literal whose contents go on at `k`. */
  function VerbatimEnd(text: string, k: nat): (r: nat)
    requires k <= |text|
    ensures k <= r <= |text|
    decreases |text| - k
  {
    if k == |text| || (text[k] == '"' && !IsAt(text, k + 1, '"')) then k
    else if text[k] == '"' then VerbatimEnd(text, k + 2)
    else VerbatimEnd(text, k + 1)
  }

  /** The index of the quote that closes a literal whose contents go on at `k`, a backslash taking
      the character after it; the end of the line or of the text if none does, or one after it. */
  function LiteralEnd(text: string, k: nat, quote: char): (r: nat)
    ensures k <= r && (k <= |text| ==> r <= |text| + 1)
    decreases |text| - k
  {
    if k < |text| && text[k] != quote && text[k] != '\n' then
      LiteralEnd(text, if text[k] == '\\' then k + 2 else k + 1, quote)
    else k
  }

  predicate IsVerbatim(text: string, i: nat)
    requires i < |text|
  {
    (i >= 1 && text[i - 1] == '@') || (i >= 2 && text[i - 1] == '$' && text[i - 2] == '@')
  }

  /** What a quote opens: where its contents start and end, and what follows. */
  function LiteralAt(text: string, i: nat): (r: Lexeme)
    requires i < |text| && text[i] == '"'
    ensures i <= r.from <= r.stop <= |text| && r.stop <= r.next && i < r.next
  {
    var quotes := Quotes(text, i);
    if quotes >= 3 then
      var close := RawEnd(text, i + quotes, quotes);
      Lexeme(i + quotes, close, close + quotes)
    else if IsVerbatim(text, i) then
      var k := VerbatimEnd(text, i + 1);
      Lexeme(i + 1, k, k + 1)
    else
      var k := LiteralEnd(text, i + 1, '"');
      Lexeme(i + 1, Min(k, |text|), if IsAt(text, k, '"') then k + 1 else k)
  }

  function CharacterAt(text: string, i: nat): (r: Lexeme)
    requires i < |text|
    ensures i <= r.from <= r.stop <= |text| && r.stop <= r.next && i < r.next
  {
    var k := LiteralEnd(text, i + 1, '\'');
    Lexeme(i + 1, Min(k, |text|), if IsAt(text, k, '\'') then k + 1 else k)
  }

  /** What stands at a character that is no white space and starts no directive. */
  function LexemeAt(text: string, i: nat, strings: bool): (r: Lexeme)
    requires i < |text|
    ensures i <= r.from <= r.stop <= |text| && r.stop <= r.next && i < r.next
  {
    if text[i] == '/' && IsAt(text, i + 1, '/') then
      var end := FindChar(text, '\n', i);
      Lexeme(i, end, end)
    else if text[i] == '/' && IsAt(text, i + 1, '*') then
      var end := BlockEnd(text, i + 2);
      Lexeme(i, end, end)
    else if text[i] == '"' then
      var literal := LiteralAt(text, i);
      if strings then literal else Lexeme(i, i, literal.next)
    else if text[i] == '\'' then
      var literal := CharacterAt(text, i);
      if strings then literal else Lexeme(i, i, literal.next)
    else Lexeme(i, i, i + 1)
  }

  /** The name of the directive in a line after its `#`. */
  function DirectiveName(line: string): string {
    var s := TrimStart(line);
    s[..LettersEnd(s)]
  }

  function LettersEnd(s: string, at: nat := 0): (r: nat)
    requires at <= |s|
    ensures at <= r <= |s|
    decreases |s| - at
  {
    if at < |s| && IsLetter(s[at]) then LettersEnd(s, at + 1) else at
  }

  predicate IsConditional(name: string) { name == "if" || name == "elif" || name == "else" }

  function Then(out: string, more: Result<string, Directive>): Result<string, Directive> {
    match more case Ok(rest) => Ok(out + rest) case Err(e) => Err(e)
  }

  /** What is left of a text from `i` on. */
  function BlankedFrom(text: string, i: nat, lineStart: bool, strings: bool): Result<string, Directive>
    decreases |text| - i
  {
    if i >= |text| then Ok("")
    else if text[i] == '\n' then Then([text[i]], BlankedFrom(text, i + 1, true, strings))
    else if IsSpace(text[i]) then Then([text[i]], BlankedFrom(text, i + 1, lineStart, strings))
    else if text[i] == '#' && lineStart then
      var end := FindChar(text, '\n', i);
      var name := DirectiveName(text[i + 1..end]);
      if IsConditional(name) then Err(Directive(Count(text[..i], '\n') + 1, name))
      else Then(Cleared(text[i..end]), BlankedFrom(text, end, lineStart, strings))
    else
      var l := LexemeAt(text, i, strings);
      Then(Part(text, i, l), BlankedFrom(text, l.next, false, strings))
  }

  function Blanked(text: string, strings: bool): Result<string, Directive> {
    BlankedFrom(text, 0, true, strings)
  }

  method Blank(text: string, strings: bool) returns (r: Result<string, Directive>)
    ensures r == Blanked(text, strings)
  {
    hide *;
    var out := new char[|text|](k requires 0 <= k < |text| => text[k]);
    var i, lineStart := 0, true;
    NothingDone(text, strings);
    assert out[..] == text;
    while i < |text|
      invariant Done(text, out[..], i, lineStart, strings)
      decreases |text| - i
    {
      BlankedStep(text, i, lineStart, strings);
      var c := text[i];
      if c == '\n' {
        DoneKept(text, out[..], i, lineStart, true, strings);
        lineStart := true;
        i := i + 1;
        continue;
      }
      if IsSpace(c) {
        DoneKept(text, out[..], i, lineStart, lineStart, strings);
        i := i + 1;
        continue;
      }
      ghost var was := out[..];
      if c == '#' && lineStart {
        var end := FindChar(text, '\n', i);
        var name := DirectiveName(text[i + 1..end]);
        if IsConditional(name) {
          DoneFails(text, out[..], i, lineStart, strings);
          return Err(Directive(Count(text[..i], '\n') + 1, name));
        }
        Clear(out, i, end);
        PartCleared(text, i, end);
        DoneCleared(text, was, out[..], i, Lexeme(i, end, end), lineStart, lineStart, strings);
        i := end;
        continue;
      }
      var l := ReadLexeme(text, i, strings);
      Clear(out, l.from, l.stop);
      DoneCleared(text, was, out[..], i, l, lineStart, false, strings);
      lineStart := false;
      i := l.next;
    }
    BlankedStep(text, i, lineStart, strings);
    AllDone(text, out[..], i, lineStart, strings);
    return Ok(out[..]);
  }

  method ReadLexeme(text: string, i: nat, strings: bool) returns (l: Lexeme)
    requires i < |text|
    ensures l == LexemeAt(text, i, strings)
  {
    hide IsVerbatim, Quotes, RawEnd, VerbatimEnd, LiteralEnd, BlockEnd, FindChar;
    if text[i] == '/' && (IsAt(text, i + 1, '/') || IsAt(text, i + 1, '*')) { return LexemeAt(text, i, strings); }
    if text[i] != '"' && text[i] != '\'' { return Lexeme(i, i, i + 1); }
    var from, stop, next;
    if text[i] == '\'' {
      var k := FindLiteralEnd(text, i + 1, '\'');
      from, stop, next := i + 1, Min(k, |text|), if IsAt(text, k, '\'') then k + 1 else k;
    } else {
      var quotes := Quotes(text, i);
      if quotes >= 3 {
        var close := RawEnd(text, i + quotes, quotes);
        from, stop, next := i + quotes, close, close + quotes;
      } else if IsVerbatim(text, i) {
        var k := FindVerbatimEnd(text, i + 1);
        from, stop, next := i + 1, k, k + 1;
      } else {
        var k := FindLiteralEnd(text, i + 1, '"');
        from, stop, next := i + 1, Min(k, |text|), if IsAt(text, k, '"') then k + 1 else k;
      }
    }
    return if strings then Lexeme(from, stop, next) else Lexeme(i, i, next);
  }

  method FindLiteralEnd(text: string, from: nat, quote: char) returns (k: nat)
    ensures k == LiteralEnd(text, from, quote)
  {
    k := from;
    while k < |text| && text[k] != quote && text[k] != '\n'
      invariant LiteralEnd(text, from, quote) == LiteralEnd(text, k, quote)
      decreases |text| - k
    {
      if text[k] == '\\' { k := k + 1; }
      k := k + 1;
    }
  }

  method FindVerbatimEnd(text: string, from: nat) returns (k: nat)
    requires from <= |text|
    ensures k == VerbatimEnd(text, from)
  {
    k := from;
    while k < |text|
      invariant k <= |text| && VerbatimEnd(text, from) == VerbatimEnd(text, k)
    {
      if text[k] == '"' {
        if IsAt(text, k + 1, '"') {
          k := k + 2;
          continue;
        }
        break;
      }
      k := k + 1;
    }
  }

  /** That a buffer holds what is left of a text up to `i`, and the text after it. */
  ghost predicate Done(text: string, out: string, i: nat, lineStart: bool, strings: bool) {
    var at := Min(i, |text|);
    && |out| == |text| && out[at..] == text[at..]
    && Blanked(text, strings) == Then(out[..at], BlankedFrom(text, i, lineStart, strings))
  }

  lemma NothingDone(text: string, strings: bool)
    ensures Done(text, text, 0, true, strings)
  {
    var more := BlankedFrom(text, 0, true, strings);
    if more.Ok? { assert text[..0] + more.value == more.value; }
  }

  lemma AllDone(text: string, out: string, i: nat, lineStart: bool, strings: bool)
    requires Done(text, out, i, lineStart, strings) && i >= |text|
    requires BlankedFrom(text, i, lineStart, strings) == Ok("")
    ensures Blanked(text, strings) == Ok(out)
  {
    assert out[..|text|] + "" == out;
  }

  lemma DoneFails(text: string, out: string, i: nat, lineStart: bool, strings: bool)
    requires Done(text, out, i, lineStart, strings) && BlankedFrom(text, i, lineStart, strings).Err?
    ensures Blanked(text, strings) == BlankedFrom(text, i, lineStart, strings)
  {
  }

  lemma ThenTwice(a: string, b: string, more: Result<string, Directive>)
    ensures Then(a, Then(b, more)) == Then(a + b, more)
  {
    if more.Ok? { assert a + (b + more.value) == (a + b) + more.value; }
  }

  lemma DoneKept(text: string, out: string, i: nat, lineStart: bool, after: bool, strings: bool)
    requires Done(text, out, i, lineStart, strings) && i < |text|
    requires BlankedFrom(text, i, lineStart, strings) == Then([text[i]], BlankedFrom(text, i + 1, after, strings))
    ensures Done(text, out, i + 1, after, strings)
  {
    hide BlankedFrom, Blanked, Then;
    ThenTwice(out[..i], [text[i]], BlankedFrom(text, i + 1, after, strings));
    assert out[i..][0] == text[i..][0];
    assert out[..i + 1] == out[..i] + [text[i]];
    assert out[i + 1..] == out[i..][1..] && text[i + 1..] == text[i..][1..];
  }

  /** A part of a text of which some is cleared. */
  function Part(text: string, i: nat, l: Lexeme): string
    requires i <= l.from <= l.stop <= |text| && l.stop <= l.next
  {
    text[i..l.from] + Cleared(text[l.from..l.stop]) + text[l.stop..Min(l.next, |text|)]
  }

  lemma PartCleared(text: string, i: nat, end: nat)
    requires i <= end <= |text|
    ensures Part(text, i, Lexeme(i, end, end)) == Cleared(text[i..end])
  {
  }

  lemma DoneCleared(
      text: string, was: string, out: string, i: nat, l: Lexeme, lineStart: bool, after: bool, strings: bool)
    requires Done(text, was, i, lineStart, strings) && i <= l.from <= l.stop <= |text| && l.stop <= l.next && i < |text|
    requires out == was[..l.from] + Cleared(was[l.from..l.stop]) + was[l.stop..]
    requires BlankedFrom(text, i, lineStart, strings) == Then(Part(text, i, l), BlankedFrom(text, l.next, after, strings))
    ensures Done(text, out, l.next, after, strings)
  {
    hide BlankedFrom, Blanked, Then, Cleared;
    var next := Min(l.next, |text|);
    ThenTwice(was[..i], Part(text, i, l), BlankedFrom(text, l.next, after, strings));
    SameAfter(was, text, i, l.from, l.stop);
    SameAfter(was, text, i, l.stop, next);
    Spliced(was, text, i, l, Cleared(text[l.from..l.stop]));
    assert out[next..] == text[next..];
  }

  lemma SameAfter(was: string, text: string, i: nat, a: nat, b: nat)
    requires |was| == |text| && i <= a <= b <= |text| && was[i..] == text[i..]
    ensures was[a..b] == text[a..b] && was[b..] == text[b..]
  {
    forall k | i <= k < |text| ensures was[k] == text[k] {
      assert was[k] == was[i..][k - i] == text[i..][k - i];
    }
  }

  lemma Spliced(was: string, text: string, i: nat, l: Lexeme, cleared: string)
    requires |was| == |text| && i <= l.from <= l.stop <= |text| && l.stop <= l.next && was[i..] == text[i..]
    requires |cleared| == l.stop - l.from
    ensures var out, next := was[..l.from] + cleared + was[l.stop..], Min(l.next, |text|);
            && out[..next] == was[..i] + (text[i..l.from] + cleared + text[l.stop..next])
            && |out| == |text| && out[next..] == text[next..]
  {
    var next := Min(l.next, |text|);
    SameAfter(was, text, i, i, l.from);
    SameAfter(was, text, i, l.stop, next);
    var out := was[..l.from] + cleared + was[l.stop..];
    assert was[..l.from] == was[..i] + text[i..l.from];
    assert was[l.stop..] == text[l.stop..next] + text[next..];
    assert out == was[..i] + (text[i..l.from] + cleared + text[l.stop..next]) + text[next..];
  }

  lemma BlankedStep(text: string, i: nat, lineStart: bool, strings: bool)
    ensures BlankedFrom(text, i, lineStart, strings)
         == if i >= |text| then Ok("")
            else if text[i] == '\n' then Then([text[i]], BlankedFrom(text, i + 1, true, strings))
            else if IsSpace(text[i]) then Then([text[i]], BlankedFrom(text, i + 1, lineStart, strings))
            else if text[i] == '#' && lineStart then
              var end := FindChar(text, '\n', i);
              var name := DirectiveName(text[i + 1..end]);
              if IsConditional(name) then Err(Directive(Count(text[..i], '\n') + 1, name))
              else Then(Cleared(text[i..end]), BlankedFrom(text, end, lineStart, strings))
            else
              var l := LexemeAt(text, i, strings);
              Then(Part(text, i, l), BlankedFrom(text, l.next, false, strings))
  {
    hide LexemeAt, Cleared, DirectiveName, IsSpace, Part;
  }

  method Clear(out: array<char>, from: nat, stop: nat)
    requires from <= stop <= out.Length
    modifies out
    ensures out[..] == old(out[..])[..from] + Cleared(old(out[..])[from..stop]) + old(out[..])[stop..]
  {
    ghost var was := out[..];
    for k := from to stop
      invariant forall j :: from <= j < k ==> out[j] == ClearedChar(was[j])
      invariant forall j :: 0 <= j < from || k <= j < out.Length ==> out[j] == was[j]
    {
      if out[k] != '\n' && out[k] != '\r' { out[k] := ' '; }
    }
    ClearedPart(was, out[..], from, stop);
  }

  lemma ClearedPart(was: string, now: string, from: nat, stop: nat)
    requires from <= stop <= |was| == |now|
    requires forall j :: from <= j < stop ==> now[j] == ClearedChar(was[j])
    requires forall j :: 0 <= j < from || stop <= j < |was| ==> now[j] == was[j]
    ensures now == was[..from] + Cleared(was[from..stop]) + was[stop..]
  {
    hide ClearedChar;
  }

  // ----- What blanking keeps -----

  /** A text of the same length, of which each character is kept or becomes a space; line breaks are
      kept. */
  predicate KeepsOrClears(text: string, out: string) {
    && |out| == |text|
    && forall k :: 0 <= k < |text| ==> out[k] == text[k] || (out[k] == ' ' && text[k] != '\n' && text[k] != '\r')
  }

  lemma KeepsThen(part: string, kept: string, rest: string, more: Result<string, Directive>, text: string)
    requires KeepsOrClears(part, kept) && more.Ok? && KeepsOrClears(rest, more.value) && text == part + rest
    ensures Then(kept, more).Ok? && KeepsOrClears(text, Then(kept, more).value)
  {
  }

  lemma PartKeeps(text: string, i: nat, l: Lexeme)
    requires i <= l.from <= l.stop <= |text| && l.stop <= l.next
    ensures KeepsOrClears(text[i..Min(l.next, |text|)], Part(text, i, l))
  {
    var next := Min(l.next, |text|);
    assert text[i..next] == text[i..l.from] + text[l.from..l.stop] + text[l.stop..next];
  }

  lemma {:induction false} BlankedKeeps(text: string, i: nat, lineStart: bool, strings: bool)
    requires BlankedFrom(text, i, lineStart, strings).Ok?
    ensures KeepsOrClears(text[Min(i, |text|)..], BlankedFrom(text, i, lineStart, strings).value)
    decreases |text| - i
  {
    hide LexemeAt, DirectiveName, IsSpace, BlankedFrom, KeepsOrClears, Part, Cleared;
    BlankedStep(text, i, lineStart, strings);
    if i >= |text| {
      NothingKept();
      assert text[|text|..] == "";
    } else if text[i] == '\n' {
      BlankedKeeps(text, i + 1, true, strings);
      OneKept(text[i]);
      KeepsThen([text[i]], [text[i]], text[i + 1..], BlankedFrom(text, i + 1, true, strings), text[i..]);
    } else if IsSpace(text[i]) {
      BlankedKeeps(text, i + 1, lineStart, strings);
      OneKept(text[i]);
      KeepsThen([text[i]], [text[i]], text[i + 1..], BlankedFrom(text, i + 1, lineStart, strings), text[i..]);
    } else if text[i] == '#' && lineStart {
      var end := FindChar(text, '\n', i);
      BlankedKeeps(text, end, lineStart, strings);
      PartCleared(text, i, end);
      PartKeeps(text, i, Lexeme(i, end, end));
      KeepsThen(text[i..end], Cleared(text[i..end]), text[end..], BlankedFrom(text, end, lineStart, strings), text[i..]);
    } else {
      var l := LexemeAt(text, i, strings);
      var next := Min(l.next, |text|);
      BlankedKeeps(text, l.next, false, strings);
      PartKeeps(text, i, l);
      KeepsThen(text[i..next], Part(text, i, l), text[next..], BlankedFrom(text, l.next, false, strings), text[i..]);
    }
  }

  lemma NothingKept()
    ensures KeepsOrClears("", "")
  {
  }

  lemma OneKept(c: char)
    ensures KeepsOrClears([c], [c])
  {
  }
}
