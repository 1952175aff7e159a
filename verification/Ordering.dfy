/** The order of names: strings by code point, the first difference deciding and a prefix first,
    which is the order of Rust's `str` and of the keys of a `BTreeMap`. */
module Ordering {

  predicate Before(a: string, b: string) {
    b != [] && (a == [] || a[0] < b[0] || (a[0] == b[0] && Before(a[1..], b[1..])))
  }

  /** How far two names are the same, and what decides between them there: the end of one, or the
      lower code point. */
  predicate DiffersAt(a: string, b: string, k: nat) {
    && k <= |a| && k <= |b| && a[..k] == b[..k]
    && ((k == |a| && k < |b|) || (k < |a| && k < |b| && a[k] as int < b[k] as int))
  }

  /** One name is before another if and only if it ends where the other goes on, or has the lower
      code point at the first difference. */
  lemma {:induction false} BeforeMeans(a: string, b: string)
    ensures Before(a, b) <==> exists k: nat :: DiffersAt(a, b, k)
  {
    if a != [] && b != [] && a[0] == b[0] {
      BeforeMeans(a[1..], b[1..]);
      if Before(a, b) {
        var k: nat :| DiffersAt(a[1..], b[1..], k);
        assert a[..k + 1] == [a[0]] + a[1..][..k] && b[..k + 1] == [b[0]] + b[1..][..k];
        assert DiffersAt(a, b, k + 1);
      }
      forall k: nat | DiffersAt(a, b, k) ensures Before(a, b) {
        assert k > 0;
        assert a[1..][..k - 1] == a[..k][1..] && b[1..][..k - 1] == b[..k][1..];
        assert DiffersAt(a[1..], b[1..], k - 1);
      }
    } else {
      assert forall k: nat :: 0 < k <= |a| && k <= |b| ==> a[..k][0] == a[0] && b[..k][0] == b[0];
      if Before(a, b) { assert DiffersAt(a, b, 0); }
    }
  }

  lemma {:induction false} Irreflexive(a: string)
    ensures !Before(a, a)
  {
    if a != [] { Irreflexive(a[1..]); }
  }

  lemma {:induction false} Total(a: string, b: string)
    ensures Before(a, b) || a == b || Before(b, a)
  {
    if a != [] && b != [] && a[0] == b[0] {
      Total(a[1..], b[1..]);
      assert a[1..] == b[1..] ==> [a[0]] + a[1..] == a == b;
    }
  }

  lemma {:induction false} Transitive(a: string, b: string, c: string)
    requires Before(a, b) && Before(b, c)
    ensures Before(a, c)
  {
    if a != [] && a[0] == b[0] && b[0] == c[0] {
      Transitive(a[1..], b[1..], c[1..]);
    }
  }

  lemma Asymmetric(a: string, b: string)
    requires Before(a, b)
    ensures !Before(b, a)
  {
    if Before(b, a) {
      Transitive(a, b, a);
      Irreflexive(a);
    }
  }

  /** That `name` is the first of some names. */
  predicate IsFirst(name: string, names: set<string>) {
    name in names && forall other :: other in names && other != name ==> Before(name, other)
  }

  lemma {:induction false} FirstExists(names: set<string>)
    requires names != {}
    ensures exists name :: IsFirst(name, names)
    decreases names
  {
    var x :| x in names;
    if names == {x} {
      assert IsFirst(x, names);
    } else {
      var rest := names - {x};
      FirstExists(rest);
      var y :| IsFirst(y, rest);
      Total(x, y);
      if Before(x, y) {
        forall other | other in names && other != x ensures Before(x, other) {
          if other != y { Transitive(x, y, other); }
        }
        assert IsFirst(x, names);
      } else {
        assert IsFirst(y, names);
      }
    }
  }

  /** The first of some names. */
  ghost function First(names: set<string>): (name: string)
    requires names != {}
    ensures IsFirst(name, names)
  {
    FirstExists(names);
    var name :| IsFirst(name, names);
    name
  }

  lemma FirstUnique(a: string, b: string, names: set<string>)
    requires IsFirst(a, names) && IsFirst(b, names)
    ensures a == b
  {
    if a != b { Asymmetric(a, b); }
  }

  /** Some names in order. */
  ghost function Sorted(names: set<string>): (r: seq<string>)
    ensures forall name :: name in r <==> name in names
    ensures forall i, j :: 0 <= i < j < |r| ==> Before(r[i], r[j])
  {
    if names == {} then []
    else
      var first := First(names);
      [first] + Sorted(names - {first})
  }

  /** Taking the first name again and again takes them in order. */
  lemma SortedFirst(first: string, names: set<string>)
    requires IsFirst(first, names)
    ensures Sorted(names) == [first] + Sorted(names - {first})
  {
    FirstUnique(first, First(names), names);
  }

  /** That a sequence lists some names once each, in order. */
  ghost predicate Lists(s: seq<string>, names: set<string>) {
    && (forall i, j :: 0 <= i < j < |s| ==> Before(s[i], s[j]))
    && (forall name :: name in names <==> name in s)
  }

  /** The first difference between two sequences of names decides their order. */
  ghost predicate SeqBefore(a: seq<string>, b: seq<string>) {
    exists k :: 0 <= k < |a| && k < |b| && a[..k] == b[..k] && Before(a[k], b[k])
  }

  /** Of two sequences of names, each does not come before the other. */
  lemma SeqAsymmetric(a: seq<string>, b: seq<string>)
    requires SeqBefore(a, b)
    ensures !SeqBefore(b, a)
  {
    hide Before;
    var k :| 0 <= k < |a| && k < |b| && a[..k] == b[..k] && Before(a[k], b[k]);
    Asymmetric(a[k], b[k]);
    Irreflexive(a[k]);
    assert a[k] != b[k];
    assert forall j :: k < j <= |a| ==> a[..j][k] == a[k];
    assert forall j :: k < j <= |b| ==> b[..j][k] == b[k];
    forall j | 0 <= j < |b| && j < |a| && b[..j] == a[..j] ensures !Before(b[j], a[j]) {
      if j < k {
        assert a[j] == a[..k][j] == b[..k][j] == b[j];
        Irreflexive(a[j]);
      }
    }
  }
}
