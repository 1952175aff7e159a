/** The string operations of the Rust standard library that the text tools use,
    on strings as sequences of Unicode scalar values. */
module Text {
  import opened Wrappers

  /** Rust's `char::is_whitespace`: the White_Space property of Unicode. */
  predicate IsSpace(c: char) {
    || '\t' <= c <= '\r'
    || c == ' '
    || c == '\U{0085}'
    || c == '\U{00A0}'
    || c == '\U{1680}'
    || '\U{2000}' <= c <= '\U{200A}'
    || '\U{2028}' <= c <= '\U{2029}'
    || c == '\U{202F}'
    || c == '\U{205F}'
    || c == '\U{3000}'
  }

  predicate IsDigit(c: char) { '0' <= c <= '9' }

  predicate IsLetter(c: char) { 'a' <= c <= 'z' || 'A' <= c <= 'Z' }

  /** An ASCII letter, an ASCII digit or an underscore. */
  predicate IsWordChar(c: char) { IsLetter(c) || IsDigit(c) || c == '_' }

  /** The letters and digits outside ASCII. The set is left open: all that is proved holds for any. */
  const OTHER_ALPHANUMERIC: set<char>

  /** Rust's `char::is_alphanumeric`, or an underscore. White space is never alphanumeric. */
  predicate IsIdentifierChar(c: char) {
    IsWordChar(c) || ('\U{0080}' <= c && !IsSpace(c) && c in OTHER_ALPHANUMERIC)
  }

  predicate IsIdentifier(s: string) {
    s != [] && !IsDigit(s[0]) && forall c :: c in s ==> IsWordChar(c)
  }

  /** The index of the first character from `at` on that is not white space, or the end. */
  function SkipSpaces(s: string, at: nat := 0): (r: nat)
    requires at <= |s|
    ensures at <= r <= |s|
    ensures forall k :: at <= k < r ==> IsSpace(s[k])
    ensures r < |s| ==> !IsSpace(s[r])
    decreases |s| - at
  {
    if at < |s| && IsSpace(s[at]) then SkipSpaces(s, at + 1) else at
  }

  function TrimStart(s: string): string { s[SkipSpaces(s)..] }

  /** The length of the shortest prefix of `s[..to]` after which there is only white space. */
  function KeepEnd(s: string, to: nat): (r: nat)
    requires to <= |s|
    ensures r <= to
    ensures forall k :: r <= k < to ==> IsSpace(s[k])
    ensures r > 0 ==> !IsSpace(s[r - 1])
  {
    if to > 0 && IsSpace(s[to - 1]) then KeepEnd(s, to - 1) else to
  }

  function TrimEnd(s: string): string { s[..KeepEnd(s, |s|)] }

  function Trim(s: string): string { TrimEnd(TrimStart(s)) }

  predicate StartsWith(s: string, prefix: string) {
    |prefix| <= |s| && forall k :: 0 <= k < |prefix| ==> s[k] == prefix[k]
  }

  predicate EndsWith(s: string, suffix: string) {
    |suffix| <= |s| && s[|s| - |suffix|..] == suffix
  }

  /** The index of the first character from `at` on that is no word character, or the end. */
  function WordEnd(s: string, at: nat := 0): (r: nat)
    requires at <= |s|
    ensures at <= r <= |s|
    ensures forall k :: at <= k < r ==> IsWordChar(s[k])
    ensures r < |s| ==> !IsWordChar(s[r])
    decreases |s| - at
  {
    if at < |s| && IsWordChar(s[at]) then WordEnd(s, at + 1) else at
  }

  /** Where a word ends that no word character follows. */
  lemma WordEnds(word: string, more: string)
    requires (forall c :: c in word ==> IsWordChar(c)) && (more == "" || !IsWordChar(more[0]))
    ensures WordEnd(word + more) == |word|
  {
    hide IsWordChar;
    var s := word + more;
    assert forall k :: 0 <= k < |word| ==> s[k] == word[k] && word[k] in word;
    assert more != "" ==> s[|word|] == more[0];
  }

  /** The index of the first white space from `at` on, or the end. */
  function FindSpace(s: string, at: nat := 0): (r: nat)
    requires at <= |s|
    ensures at <= r <= |s|
    ensures forall k :: at <= k < r ==> !IsSpace(s[k])
    ensures r < |s| ==> IsSpace(s[r])
    decreases |s| - at
  {
    if at < |s| && !IsSpace(s[at]) then FindSpace(s, at + 1) else at
  }

  /** The index of the first `c` from `at` on, or the end. */
  function FindChar(s: string, c: char, at: nat := 0): (r: nat)
    requires at <= |s|
    ensures at <= r <= |s|
    ensures forall k :: at <= k < r ==> s[k] != c
    ensures r < |s| ==> s[r] == c
    decreases |s| - at
  {
    if at < |s| && s[at] != c then FindChar(s, c, at + 1) else at
  }

  /** That `needle` stands in `s` at `at`. */
  predicate StandsAt(s: string, needle: string, at: nat) {
    at + |needle| <= |s| && forall k :: 0 <= k < |needle| ==> s[at + k] == needle[k]
  }

  /** The index of the first occurrence of `needle` from `at` on, if any. */
  function Find(s: string, needle: string, at: nat := 0): (r: Option<nat>)
    requires at <= |s|
    ensures r.Some? ==> at <= r.value && StandsAt(s, needle, r.value)
    ensures r.Some? ==> forall k :: at <= k < r.value ==> !StandsAt(s, needle, k)
    ensures r.None? ==> forall k :: at <= k <= |s| ==> !StandsAt(s, needle, k)
    decreases |s| - at
  {
    if StandsAt(s, needle, at) then Some(at)
    else if at == |s| then None
    else Find(s, needle, at + 1)
  }

  /** The maximal runs of characters that are not white space. */
  function SplitWhitespace(s: string, at: nat := 0): seq<string>
    requires at <= |s|
    decreases |s| - at
  {
    var from := SkipSpaces(s, at);
    if from == |s| then []
    else
      var to := FindSpace(s, from);
      [s[from..to]] + SplitWhitespace(s, to)
  }

  /** Some words with a space between two. */
  function JoinWords(words: seq<string>): string {
    if words == [] then "" else if |words| == 1 then words[0]
    else JoinWords(words[..|words| - 1]) + " " + words[|words| - 1]
  }

  function Repeat(c: char, n: nat): (s: string)
    ensures |s| == n
    ensures forall k :: 0 <= k < n ==> s[k] == c
  {
    seq(n, _ => c)
  }

  function Count(s: string, c: char): nat {
    if s == [] then 0 else (if s[0] == c then 1 else 0) + Count(s[1..], c)
  }

  lemma {:induction false} CountAppend(a: string, b: string, c: char)
    ensures Count(a + b, c) == Count(a, c) + Count(b, c)
  {
    if a == [] {
      assert a + b == b;
    } else {
      assert (a + b)[1..] == a[1..] + b;
      CountAppend(a[1..], b, c);
    }
  }

  lemma {:induction false} CountRepeat(c: char, n: nat)
    ensures Count(Repeat(c, n), c) == n
  {
    if n > 0 {
      assert Repeat(c, n)[1..] == Repeat(c, n - 1);
      CountRepeat(c, n - 1);
    }
  }

  lemma {:induction false} CountAbsent(s: string, c: char)
    requires c !in s
    ensures Count(s, c) == 0
  {
    if s != [] {
      CountAbsent(s[1..], c);
    }
  }

  /** A line without the carriage return that a line feed after it takes away. */
  function StripReturn(line: string): (s: string)
    ensures |s| <= |line|
    ensures |s| == |line| <==> s == line
  {
    if line != [] && line[|line| - 1] == '\r' then line[..|line| - 1] else line
  }

  /** Rust's `str::lines`: split at line feeds, without an empty last line, and without the
      carriage return before a line feed. */
  function Lines(text: string): (lines: seq<string>)
    ensures forall k :: 0 <= k < |lines| ==> '\n' !in lines[k]
    decreases |text|
  {
    if text == [] then []
    else
      var k := FindChar(text, '\n');
      if k == |text| then [text] else [StripReturn(text[..k])] + Lines(text[k + 1..])
  }
}
