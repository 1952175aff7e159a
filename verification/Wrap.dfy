/** Breaking a paragraph into lines at word boundaries. */
module Wrap {
  import opened Wrappers
  import opened Text

  /** The bytes of a character in UTF-8. */
  function Utf8Length(c: char): nat {
    if c as int < 0x80 then 1 else if c as int < 0x800 then 2 else if c as int < 0x10000 then 3 else 4
  }

  /** The length of a string in bytes, which a line's width is counted in. */
  function Bytes(s: string): nat {
    if s == [] then 0 else Bytes(s[..|s| - 1]) + Utf8Length(s[|s| - 1])
  }

  lemma {:induction false} BytesAppend(a: string, b: string)
    ensures Bytes(a + b) == Bytes(a) + Bytes(b)
    decreases |b|
  {
    if b == [] {
      assert a + b == a;
    } else {
      BytesAppend(a, b[..|b| - 1]);
      assert (a + b)[..|a + b| - 1] == a + b[..|b| - 1];
    }
  }

  /** That some words may stand on one line: they fit, or are one word. */
  predicate Fits(words: seq<string>, width: nat) {
    |words| <= 1 || Bytes(JoinWords(words)) <= width
  }

  /** The words of the lines from the word `at` on, when those from `start` are on the line. */
  function Broken(words: seq<string>, start: nat, at: nat, width: nat): seq<seq<string>>
    requires start <= at <= |words|
    decreases |words| - at
  {
    if at == |words| then if start == at then [] else [words[start..at]]
    else if start < at && Bytes(JoinWords(words[start..at])) + 1 + Bytes(words[at]) > width then
      [words[start..at]] + Broken(words, at, at + 1, width)
    else Broken(words, start, at + 1, width)
  }

  function Joined(groups: seq<seq<string>>): (lines: seq<string>)
    ensures |lines| == |groups| && forall k :: 0 <= k < |lines| ==> lines[k] == JoinWords(groups[k])
  {
    seq(|groups|, k requires 0 <= k < |groups| => JoinWords(groups[k]))
  }

  /** The lines of a wrapped paragraph. */
  function Wrapped(text: string, width: nat): seq<string> {
    Joined(Broken(SplitWhitespace(text), 0, 0, width))
  }

  method Wrap(text: string, width: nat) returns (lines: seq<string>)
    ensures lines == Wrapped(text, width)
  {
    hide SplitWhitespace, Bytes, JoinWords;
    lines := [];
    var line: string := "";
    var words := SplitWhitespace(text);
    ghost var start: nat, done: seq<seq<string>> := 0, [];
    NothingOn(words, 0);
    for at := 0 to |words|
      invariant start <= at && (start < at || at == 0)
      invariant line == JoinWords(words[start..at]) && (line == "" <==> start == at)
      invariant lines == Joined(done)
      invariant Broken(words, 0, 0, width) == done + Broken(words, start, at, width)
    {
      var word := words[at];
      WordsNotEmpty(text, 0, at);
      if line != "" && Bytes(line) + 1 + Bytes(word) > width {
        assert done + ([words[start..at]] + Broken(words, at, at + 1, width))
            == (done + [words[start..at]]) + Broken(words, at, at + 1, width);
        done := done + [words[start..at]];
        lines := lines + [line];
        line := "";
        start := at;
        NothingOn(words, at);
      }
      WordOn(words, start, at);
      if line != "" { line := line + " "; }
      line := line + word;
    }
    if line != "" { lines := lines + [line]; }
  }

  lemma NothingOn(words: seq<string>, at: nat)
    requires at <= |words|
    ensures JoinWords(words[at..at]) == ""
  {
  }

  lemma WordOn(words: seq<string>, start: nat, at: nat)
    requires start <= at < |words|
    ensures JoinWords(words[start..at + 1])
         == if start == at then words[at] else JoinWords(words[start..at]) + " " + words[at]
    ensures start == at ==> "" + words[at] == words[at]
  {
    var line := words[start..at + 1];
    assert line[..|line| - 1] == words[start..at] && line[|line| - 1] == words[at];
  }

  lemma {:induction false} WordsNotEmpty(s: string, at: nat, k: nat)
    requires at <= |s| && k < |SplitWhitespace(s, at)|
    ensures SplitWhitespace(s, at)[k] != ""
    decreases |s| - at
  {
    var from := SkipSpaces(s, at);
    if k > 0 { WordsNotEmpty(s, FindSpace(s, from), k - 1); }
  }

  // ----- The words of the lines -----

  function Concat(groups: seq<seq<string>>): seq<string> {
    if groups == [] then [] else groups[0] + Concat(groups[1..])
  }

  /** The words stand on the lines in their order, and every line fits or is one word. */
  lemma {:induction false} BrokenKeepsWords(words: seq<string>, start: nat, at: nat, width: nat)
    requires start <= at <= |words| && (start == at ==> at == 0 || at == |words|) && Fits(words[start..at], width)
    ensures var groups := Broken(words, start, at, width);
            && Concat(groups) == words[start..]
            && forall k :: 0 <= k < |groups| ==> groups[k] != [] && Fits(groups[k], width)
    decreases |words| - at
  {
    hide Fits;
    if at == |words| {
      ConcatCons(words[start..at], []);
    } else {
      OneWordFits(words, at, width);
      if start < at && Bytes(JoinWords(words[start..at])) + 1 + Bytes(words[at]) > width {
        BrokenKeepsWords(words, at, at + 1, width);
        ConcatCons(words[start..at], Broken(words, at, at + 1, width));
        assert words[start..at] + words[at..] == words[start..];
      } else {
        if start < at { WiderFits(words, start, at, width); }
        BrokenKeepsWords(words, start, at + 1, width);
      }
    }
  }

  lemma ConcatCons(first: seq<string>, rest: seq<seq<string>>)
    ensures Concat([first] + rest) == first + Concat(rest)
    ensures Concat([first]) == first
  {
    assert ([first] + rest)[1..] == rest;
    assert Concat([first]) == first + Concat([]);
  }

  lemma OneWordFits(words: seq<string>, at: nat, width: nat)
    requires at < |words|
    ensures Fits(words[at..at + 1], width)
  {
  }

  lemma JoinedLength(words: seq<string>, start: nat, at: nat)
    requires start <= at < |words|
    ensures Bytes(JoinWords(words[start..at + 1]))
         == Bytes(words[at]) + if start == at then 0 else Bytes(JoinWords(words[start..at])) + 1
  {
    var line := JoinWords(words[start..at]);
    WordOn(words, start, at);
    BytesAppend(line, " ");
    BytesAppend(line + " ", words[at]);
    assert Bytes(" ") == Bytes("") + Utf8Length(' ') by { assert " "[..0] == ""; }
  }

  lemma WiderFits(words: seq<string>, start: nat, at: nat, width: nat)
    requires start < at < |words|
    ensures Fits(words[start..at + 1], width) <==> Bytes(JoinWords(words[start..at])) + 1 + Bytes(words[at]) <= width
  {
    JoinedLength(words, start, at);
  }

  // ----- No other breaking uses fewer lines -----

  /** If the words from `start` to `to` fit, the line from `start` reaches at least `to`. */
  lemma {:induction false} LineReaches(words: seq<string>, start: nat, at: nat, stop: nat, width: nat) returns (end: nat)
    requires start < at <= stop <= |words| && Fits(words[start..stop], width)
    ensures stop <= end <= |words|
    ensures Broken(words, start, at, width) == [words[start..end]] + Broken(words, end, end, width)
    decreases |words| - at
  {
    hide Fits, JoinWords;
    if at == |words| {
      end := at;
    } else {
      WiderFits(words, start, at, width);
      if at < stop {
        ShorterFits(words, start, at + 1, stop, width);
        end := LineReaches(words, start, at + 1, stop, width);
      } else if Fits(words[start..at + 1], width) {
        end := LineReaches(words, start, at + 1, at + 1, width);
      } else {
        end := at;
      }
    }
  }

  lemma {:induction false} ShorterFits(words: seq<string>, start: nat, at: nat, stop: nat, width: nat)
    requires start < at <= stop <= |words| && Fits(words[start..stop], width)
    ensures Fits(words[start..at], width)
    decreases stop - at
  {
    if at < stop {
      JoinedLength(words, start, stop - 1);
      ShorterFits(words, start, at, stop - 1, width);
    }
  }

  /** Fewer words at the front fit as well. */
  lemma {:induction false} LaterFits(words: seq<string>, from: nat, start: nat, stop: nat, width: nat)
    requires from <= start < stop <= |words| && Fits(words[from..stop], width)
    ensures Fits(words[start..stop], width)
  {
    if stop - start > 1 { JoinedBytes(words, from, start, stop); }
  }

  lemma {:induction false} JoinedBytes(words: seq<string>, from: nat, start: nat, stop: nat)
    requires from <= start < stop <= |words|
    ensures Bytes(JoinWords(words[start..stop])) <= Bytes(JoinWords(words[from..stop]))
    decreases stop - start
  {
    hide Bytes, JoinWords;
    JoinedLength(words, from, stop - 1);
    JoinedLength(words, start, stop - 1);
    if start < stop - 1 { JoinedBytes(words, from, start, stop - 1); }
  }

  /** Any breaking of the words from `from` on has at least as many lines as the greedy one has
      from a later word on. */
  lemma {:induction false} GreedyIsAhead(words: seq<string>, from: nat, start: nat, groups: seq<seq<string>>, width: nat)
    requires from <= start <= |words| && Concat(groups) == words[from..]
    requires forall k :: 0 <= k < |groups| ==> Fits(groups[k], width)
    ensures |Broken(words, start, start, width)| <= |groups|
    decreases |groups|
  {
    hide Fits, Broken;
    if groups == [] || start == |words| {
      NothingBroken(words, width);
    } else {
      var stop, rest := from + |groups[0]|, groups[1..];
      assert groups[0] == words[from..][..|groups[0]|] == words[from..stop];
      assert Concat(rest) == words[from..][|groups[0]|..] == words[stop..];
      if stop <= start {
        GreedyIsAhead(words, stop, start, rest, width);
      } else {
        LaterFits(words, from, start, stop, width);
        ShorterFits(words, start, start + 1, stop, width);
        FirstOn(words, start, width);
        var end := LineReaches(words, start, start + 1, stop, width);
        GreedyIsAhead(words, stop, end, rest, width);
      }
    }
  }

  lemma NothingBroken(words: seq<string>, width: nat)
    ensures Broken(words, |words|, |words|, width) == []
  {
  }

  lemma FirstOn(words: seq<string>, start: nat, width: nat)
    requires start < |words|
    ensures Broken(words, start, start, width) == Broken(words, start, start + 1, width)
  {
  }

  /** That some groups of words are a breaking of a text. */
  ghost predicate Breaking(groups: seq<seq<string>>, text: string, width: nat) {
    Concat(groups) == SplitWhitespace(text) && forall k :: 0 <= k < |groups| ==> Fits(groups[k], width)
  }

  /** The lines are a breaking of the text, of which no other has fewer lines. */
  lemma WrapIsLeast(text: string, width: nat)
    ensures exists groups :: Breaking(groups, text, width) && Wrapped(text, width) == Joined(groups)
    ensures forall groups :: Breaking(groups, text, width) ==> |Wrapped(text, width)| <= |groups|
  {
    hide Fits, Broken, SplitWhitespace;
    var words := SplitWhitespace(text);
    assert words[0..] == words && words[0..0] == [];
    NoneFit(width);
    BrokenKeepsWords(words, 0, 0, width);
    assert Breaking(Broken(words, 0, 0, width), text, width);
    forall groups | Breaking(groups, text, width) ensures |Wrapped(text, width)| <= |groups| {
      GreedyIsAhead(words, 0, 0, groups, width);
    }
  }

  lemma NoneFit(width: nat)
    ensures Fits([], width)
  {
  }

  // ----- Bytes -----

  /** The bytes of a character in UTF-8 (section 3 of RFC 3629): the bits of its code point, six to
      a continuation byte, behind the mark of the first byte. */
  function Encoded(code: nat): seq<nat> {
    if code < 0x80 then [code]
    else if code < 0x800 then [0xC0 + code / 64, 0x80 + code % 64]
    else if code < 0x10000 then [0xE0 + code / 4096, 0x80 + code / 64 % 64, 0x80 + code % 64]
    else [0xF0 + code / 262144, 0x80 + code / 4096 % 64, 0x80 + code / 64 % 64, 0x80 + code % 64]
  }

  /** The code point of some bytes: the first byte says how many there are. */
  function CodePoint(bytes: seq<nat>): Option<nat> {
    if |bytes| == 1 && bytes[0] < 0x80 then Some(bytes[0])
    else if |bytes| == 2 && 0xC2 <= bytes[0] < 0xE0 && Continue(bytes) then Some((bytes[0] - 0xC0) * 64 + bytes[1] - 0x80)
    else if |bytes| == 3 && 0xE0 <= bytes[0] < 0xF0 && Continue(bytes) then
      Some((bytes[0] - 0xE0) * 4096 + (bytes[1] - 0x80) * 64 + bytes[2] - 0x80)
    else if |bytes| == 4 && 0xF0 <= bytes[0] < 0xF5 && Continue(bytes) then
      Some((bytes[0] - 0xF0) * 262144 + (bytes[1] - 0x80) * 4096 + (bytes[2] - 0x80) * 64 + bytes[3] - 0x80)
    else None
  }

  /** That the bytes after the first are continuation bytes. */
  predicate Continue(bytes: seq<nat>) { forall k :: 1 <= k < |bytes| ==> 0x80 <= bytes[k] < 0xC0 }

  /** What a line's width counts are these bytes, from which the character is read again. */
  lemma BytesAreUtf8(c: char)
    ensures Utf8Length(c) == |Encoded(c as int)| && CodePoint(Encoded(c as int)) == Some(c as int)
  {
    var code := c as int;
    assert code < 0x110000;
    EncodedRead(code);
  }

  lemma EncodedRead(code: nat)
    requires code < 0x110000
    ensures CodePoint(Encoded(code)) == Some(code)
  {
    hide CodePoint, Encoded;
    Sixes(code);
    if code < 0x80 {
      OneByte(code);
    } else if code < 0x800 {
      TwoBytes(code, code / 64, code % 64);
    } else if code < 0x10000 {
      ThreeBytes(code, code / 4096, code / 64 % 64, code % 64);
    } else {
      FourBytes(code, code / 262144, code / 4096 % 64, code / 64 % 64, code % 64);
    }
  }

  lemma Sixes(code: nat)
    ensures code == code / 64 * 64 + code % 64
    ensures code / 64 == code / 4096 * 64 + code / 64 % 64
    ensures code / 4096 == code / 262144 * 64 + code / 4096 % 64
  {
    assert code / 64 / 64 == code / 4096 && code / 4096 / 64 == code / 262144;
  }

  lemma OneByte(code: nat)
    requires code < 0x80
    ensures CodePoint(Encoded(code)) == Some(code)
  {
  }

  lemma TwoBytes(code: nat, a: nat, b: nat)
    requires 0x80 <= code < 0x800 && a == code / 64 && b == code % 64 && code == a * 64 + b
    ensures CodePoint(Encoded(code)) == Some(code)
  {
    assert 2 <= a < 32;
    assert Encoded(code) == [0xC0 + a, 0x80 + b];
  }

  lemma ThreeBytes(code: nat, a: nat, b: nat, c: nat)
    requires 0x800 <= code < 0x10000 && a == code / 4096 && b == code / 64 % 64 && c == code % 64
    requires code == (a * 64 + b) * 64 + c
    ensures CodePoint(Encoded(code)) == Some(code)
  {
    assert a < 16;
    assert Encoded(code) == [0xE0 + a, 0x80 + b, 0x80 + c];
  }

  lemma FourBytes(code: nat, a: nat, b: nat, c: nat, d: nat)
    requires 0x10000 <= code < 0x110000 && a == code / 262144 && b == code / 4096 % 64 && c == code / 64 % 64 && d == code % 64
    requires code == ((a * 64 + b) * 64 + c) * 64 + d
    ensures CodePoint(Encoded(code)) == Some(code)
  {
    assert a < 5;
    assert Encoded(code) == [0xF0 + a, 0x80 + b, 0x80 + c, 0x80 + d];
  }

  function Utf8(s: string): seq<nat> { if s == [] then [] else Utf8(s[..|s| - 1]) + Encoded(s[|s| - 1] as int) }

  lemma {:induction false} BytesAre(s: string)
    ensures Bytes(s) == |Utf8(s)|
  {
    if s != [] {
      BytesAre(s[..|s| - 1]);
      BytesAreUtf8(s[|s| - 1]);
    }
  }
}
