/** Words, the white space between and around them, and how they are split again. */
module Words {
  import opened Text

  predicate White(s: string) { forall k :: 0 <= k < |s| ==> IsSpace(s[k]) }

  predicate IsWord(w: string) { w != "" && forall k :: 0 <= k < |w| ==> !IsSpace(w[k]) }

  predicate AreWords(ws: seq<string>) { forall k :: 0 <= k < |ws| ==> IsWord(ws[k]) }

  /** A text that starts and ends with no white space. */
  predicate Trimmed(s: string) { s != "" && !IsSpace(s[0]) && !IsSpace(s[|s| - 1]) }

  // ----- Texts within texts -----

  /** A part of a text that stands at `i`. */
  lemma PartAt(s: string, i: nat, t: string, k: nat, l: nat)
    requires i + |t| <= |s| && s[i..i + |t|] == t && k <= l <= |t|
    ensures s[i + k..i + l] == t[k..l]
  {
    assert forall j :: i <= j < i + |t| ==> s[j] == s[i..i + |t|][j - i];
  }

  lemma StandsSplit(s: string, a: string, b: string, i: nat)
    requires StandsAt(s, a + b, i)
    ensures StandsAt(s, a, i) && StandsAt(s, b, i + |a|)
  {
    assert forall k :: 0 <= k < |a| ==> (a + b)[k] == a[k];
    forall k | 0 <= k < |b| ensures s[i + |a| + k] == b[k] {
      assert s[i + (|a| + k)] == (a + b)[|a| + k] == b[k];
    }
  }

  lemma StandsSlice(s: string, t: string, i: nat)
    requires StandsAt(s, t, i)
    ensures s[i..i + |t|] == t && (t != "" ==> s[i] == t[0])
  {
    assert t != "" ==> s[i + 0] == t[0];
  }

  lemma StandsRest(s: string, t: string, rest: string, i: nat)
    requires i <= |s| && s[i..] == t + rest
    ensures StandsAt(s, t, i) && i + |t| <= |s| && s[i + |t|..] == rest
  {
    var all := t + rest;
    assert forall k :: 0 <= k < |t| ==> s[i + k] == s[i..][k] == all[k] == t[k];
    assert s[i + |t|..] == s[i..][|t|..] == all[|t|..];
  }

  /** What stands in a part of a text stands in the text. */
  lemma StandsBehind(s: string, n: nat, more: string, j: nat, part: string)
    requires n <= |s| && s[n..] == more
    ensures StandsAt(s, part, n + j) <==> StandsAt(more, part, j)
  {
    assert forall i :: 0 <= i < |more| ==> more[i] == s[n..][i] == s[n + i];
    if StandsAt(s, part, n + j) {
      forall k | 0 <= k < |part| ensures more[j + k] == part[k] {
        assert s[n + j + k] == part[k];
      }
    }
    if StandsAt(more, part, j) {
      forall k | 0 <= k < |part| ensures s[n + j + k] == part[k] {
        assert more[j + k] == part[k];
      }
    }
  }

  // ----- White space around a text -----

  lemma SkipIs(s: string, at: nat, next: nat)
    requires at <= next <= |s| && White(s[at..next]) && (next < |s| ==> !IsSpace(s[next]))
    ensures SkipSpaces(s, at) == next
  {
    hide IsSpace;
    assert forall k :: at <= k < next ==> s[k] == s[at..next][k - at];
  }

  lemma {:induction false} KeepIs(s: string, stop: nat, last: nat)
    requires last <= stop <= |s| && White(s[last..stop]) && (last > 0 ==> !IsSpace(s[last - 1]))
    ensures KeepEnd(s, stop) == last
  {
    hide IsSpace;
    assert forall k :: last <= k < stop ==> s[k] == s[last..stop][k - last];
  }

  lemma TrimAround(before: string, s: string, after: string)
    requires White(before) && Trimmed(s) && White(after)
    ensures Trim(before + s + after) == s
    ensures SkipSpaces(before + s + after) == |before|
  {
    hide IsSpace, SkipSpaces, KeepEnd;
    var text := before + s + after;
    assert text[0..|before|] == before && text[|before|] == s[0];
    SkipIs(text, 0, |before|);
    var rest := text[|before|..];
    assert rest == s + after;
    assert rest[|s|..|rest|] == after && rest[|s| - 1] == s[|s| - 1];
    KeepIs(rest, |rest|, |s|);
    assert rest[..|s|] == s;
  }

  lemma TrimEndAround(s: string, after: string)
    requires Trimmed(s) && White(after)
    ensures TrimEnd(s + after) == s
  {
    hide IsSpace, KeepEnd;
    assert (s + after)[|s|..|s + after|] == after && (s + after)[|s| - 1] == s[|s| - 1];
    KeepIs(s + after, |s + after|, |s|);
    assert (s + after)[..|s|] == s;
  }

  lemma TrimSame(s: string)
    requires Trimmed(s)
    ensures Trim(s) == s && TrimEnd(s) == s && SkipSpaces(s) == 0
  {
    hide Trimmed, Trim, TrimEnd, SkipSpaces;
    NoWhite();
    TrimAround("", s, "");
    TrimEndAround(s, "");
    assert "" + s + "" == s && s + "" == s;
  }

  lemma NoWhite()
    ensures White("") && White(" ") && White("\n") && White("    ")
  {
  }

  lemma WhiteAppend(a: string, b: string)
    requires White(a) && White(b)
    ensures White(a + b)
  {
    hide IsSpace;
  }

  // ----- Words -----

  lemma {:induction false} JoinFirst(w: string, rest: seq<string>)
    ensures JoinWords([w] + rest) == if rest == [] then w else w + " " + JoinWords(rest)
    decreases |rest|
  {
    var ws := [w] + rest;
    if rest != [] {
      var last := |rest| - 1;
      assert ws[..|ws| - 1] == [w] + rest[..last] && ws[|ws| - 1] == rest[last];
      JoinFirst(w, rest[..last]);
      if last > 0 {
        assert w + " " + JoinWords(rest[..last]) + " " + rest[last] == w + " " + (JoinWords(rest[..last]) + " " + rest[last]);
      }
    }
  }

  lemma {:induction false} JoinAppend(a: seq<string>, b: seq<string>)
    requires a != [] && b != []
    ensures JoinWords(a + b) == JoinWords(a) + " " + JoinWords(b)
    decreases |a|
  {
    hide JoinWords;
    assert a == [a[0]] + a[1..] && a + b == [a[0]] + (a[1..] + b);
    JoinFirst(a[0], a[1..] + b);
    JoinFirst(a[0], a[1..]);
    if |a| == 1 {
      assert a[1..] + b == b;
    } else {
      JoinAppend(a[1..], b);
      assert a[0] + " " + (JoinWords(a[1..]) + " " + JoinWords(b)) == a[0] + " " + JoinWords(a[1..]) + " " + JoinWords(b);
    }
  }

  lemma {:induction false} JoinTrimmed(ws: seq<string>)
    requires ws != [] && AreWords(ws)
    ensures Trimmed(JoinWords(ws))
    decreases |ws|
  {
    hide IsSpace;
    assert IsWord(ws[0]) && IsWord(ws[|ws| - 1]);
    if |ws| > 1 {
      JoinTrimmed(ws[..|ws| - 1]);
    }
  }

  lemma WordFound(s: string, at: nat, w: string)
    requires IsWord(w) && at + |w| <= |s| && s[at..at + |w|] == w
    requires at + |w| < |s| ==> IsSpace(s[at + |w|])
    ensures SplitWhitespace(s, at) == [w] + SplitWhitespace(s, at + |w|)
  {
    hide IsSpace;
    assert forall k :: at <= k < at + |w| ==> s[k] == w[k - at];
    assert s[at] == w[0];
    assert SkipSpaces(s, at) == at;
    assert FindSpace(s, at) == at + |w|;
  }

  lemma SpaceSkipped(s: string, at: nat)
    requires at < |s| && IsSpace(s[at])
    ensures SplitWhitespace(s, at) == SplitWhitespace(s, at + 1)
  {
    hide IsSpace;
    assert SkipSpaces(s, at) == SkipSpaces(s, at + 1);
  }

  /** Joined words are split into the same words. */
  lemma {:induction false} JoinedSplit(s: string, at: nat, ws: seq<string>)
    requires AreWords(ws) && at <= |s| && s[at..] == JoinWords(ws)
    ensures SplitWhitespace(s, at) == ws
    decreases |ws|
  {
    hide IsSpace, JoinWords, SplitWhitespace;
    if ws == [] {
      NothingJoined();
      NothingSplit(s);
    } else {
      var w, rest := ws[0], ws[1..];
      assert ws == [w] + rest;
      JoinFirst(w, rest);
      var next := at + |w|;
      assert s[at..next] == s[at..][..|w|] == w;
      assert rest != [] ==> s[next] == s[at..][|w|] == ' ';
      assert IsSpace(' ') by { SpaceIs(); }
      WordFound(s, at, w);
      if rest == [] {
        assert next == |s|;
        NothingSplit(s);
      } else {
        SpaceSkipped(s, next);
        assert s[next + 1..] == s[at..][|w| + 1..] == JoinWords(rest);
        JoinedSplit(s, next + 1, rest);
      }
    }
  }

  lemma SpaceIs()
    ensures IsSpace(' ') && IsSpace('\n')
  {
  }

  lemma NothingJoined()
    ensures JoinWords([]) == ""
  {
  }

  lemma NothingSplit(s: string)
    ensures SplitWhitespace(s, |s|) == []
  {
  }

  lemma SplitOfJoined(ws: seq<string>)
    requires AreWords(ws)
    ensures SplitWhitespace(JoinWords(ws)) == ws
  {
    hide JoinWords, SplitWhitespace, AreWords;
    assert JoinWords(ws)[0..] == JoinWords(ws);
    JoinedSplit(JoinWords(ws), 0, ws);
  }
}
