/** The closure of a Cargo feature: every dependency it turns on, through the features it names. */
module Features {
  import opened Text

  type Table = map<string, seq<string>>

  /** What one entry of a feature asks for: a dependency, nothing (a dependency's feature that
      does not turn it on), or another feature. */
  datatype Entry = Dependency(name: string) | Weak | Feature(name: string)

  function EntryOf(entry: string): Entry {
    if StartsWith(entry, "dep:") then Dependency(entry[4..])
    else
      var at := FindChar(entry, '/');
      if at == |entry| then Feature(entry)
      else if EndsWith(entry[..at], "?") then Weak
      else Dependency(entry[..at])
  }

  predicate Names(features: Table, feature: string, entry: Entry) {
    feature in features && exists k :: 0 <= k < |features[feature]| && EntryOf(features[feature][k]) == entry
  }

  /** A chain of features, each named by the one before it. */
  ghost predicate Chain(features: Table, chain: seq<string>) {
    chain != [] && forall k :: 0 <= k < |chain| - 1 ==> Names(features, chain[k], Feature(chain[k + 1]))
  }

  ghost predicate Reachable(features: Table, start: string, feature: string) {
    exists chain :: Chain(features, chain) && chain[0] == start && chain[|chain| - 1] == feature
  }

  lemma ReachesItself(features: Table, start: string)
    ensures Reachable(features, start, start)
  {
    assert Chain(features, [start]);
  }

  lemma ReachesNext(features: Table, start: string, feature: string, next: string)
    requires Reachable(features, start, feature) && Names(features, feature, Feature(next))
    ensures Reachable(features, start, next)
  {
    var chain :| Chain(features, chain) && chain[0] == start && chain[|chain| - 1] == feature;
    var longer := chain + [next];
    assert forall k :: 0 <= k < |chain| ==> longer[k] == chain[k];
    assert Chain(features, longer);
  }

  /** A set of features that holds what its members name holds everything reachable. */
  lemma {:induction false} ClosedHoldsReachable(features: Table, closed: set<string>, chain: seq<string>)
    requires Chain(features, chain) && chain[0] in closed
    requires forall f, g :: f in closed && Names(features, f, Feature(g)) ==> g in closed
    ensures chain[|chain| - 1] in closed
    decreases |chain|
  {
    if |chain| > 1 {
      assert Names(features, chain[0], Feature(chain[1]));
      var rest := chain[1..];
      assert forall k :: 0 <= k < |rest| ==> rest[k] == chain[k + 1];
      ClosedHoldsReachable(features, closed, rest);
    }
  }

  /** Every name the table could ever put on the worklist. */
  ghost function AllNames(features: Table, start: string): set<string> {
    {start} + set f, k | f in features && 0 <= k < |features[f]| :: features[f][k]
  }

  predicate Lists(entries: seq<string>, entry: Entry) {
    exists k :: 0 <= k < |entries| && EntryOf(entries[k]) == entry
  }

  /** Takes the dependencies of a feature's entries and puts the features on the worklist. */
  method Follow(entries: seq<string>, found: set<string>, waiting: seq<string>)
    returns (crates: set<string>, queue: seq<string>)
    ensures forall name :: name in crates <==> name in found || Lists(entries, Dependency(name))
    ensures forall f :: f in queue <==> f in waiting || Lists(entries, Feature(f))
  {
    hide Lists, EntryOf;
    crates, queue := found, waiting;
    ListsNone();
    assert entries[..0] == [];
    for k := 0 to |entries|
      invariant forall name :: name in crates <==> name in found || Lists(entries[..k], Dependency(name))
      invariant forall f :: f in queue <==> f in waiting || Lists(entries[..k], Feature(f))
    {
      ListsNext(entries, k);
      match EntryOf(entries[k]) {
        case Dependency(name) => crates := crates + {name};
        case Weak =>
        case Feature(name) => queue := queue + [name];
      }
    }
    assert entries[..|entries|] == entries;
  }

  lemma ListsNone()
    ensures forall e :: !Lists([], e)
  {
  }

  lemma ListsNext(entries: seq<string>, k: nat)
    requires k < |entries|
    ensures forall e :: Lists(entries[..k + 1], e) <==> Lists(entries[..k], e) || EntryOf(entries[k]) == e
  {
    forall e ensures Lists(entries[..k + 1], e) <==> Lists(entries[..k], e) || EntryOf(entries[k]) == e {
      if Lists(entries[..k], e) {
        var j :| 0 <= j < k && EntryOf(entries[..k][j]) == e;
        assert entries[..k + 1][j] == entries[..k][j];
      }
      assert entries[..k + 1][k] == entries[k];
      if Lists(entries[..k + 1], e) {
        var j :| 0 <= j < k + 1 && EntryOf(entries[..k + 1][j]) == e;
        assert j < k ==> entries[..k][j] == entries[..k + 1][j];
      }
    }
  }

  /** That a dependency is named by one of some features. */
  ghost predicate NamedBy(features: Table, some: set<string>, name: string) {
    exists f :: f in some && Names(features, f, Dependency(name))
  }

  /** That the worklist holds what the features followed so far name and have not led to yet. */
  ghost predicate Progress(features: Table, start: string, visited: set<string>, queue: seq<string>) {
    && (forall f :: f in visited || f in queue ==> f in AllNames(features, start) && Reachable(features, start, f))
    && (start in visited || start in queue)
    && (forall f, g :: f in visited && Names(features, f, Feature(g)) ==> g in visited || g in queue)
  }

  /** The dependencies that `start` turns on: exactly those that features reachable from it name.
      The table may be cyclic. */
  method TurnedOn(features: Table, start: string) returns (crates: set<string>)
    ensures forall name :: name in crates <==>
              exists f :: Reachable(features, start, f) && Names(features, f, Dependency(name))
  {
    hide Reachable, Progress, NamedBy, Names, AllNames, Lists, EntryOf;
    crates := {};
    var visited: set<string> := {};
    var queue := [start];
    Begin(features, start);
    while queue != []
      invariant Progress(features, start, visited, queue)
      invariant forall name :: name in crates <==> NamedBy(features, visited, name)
      decreases |AllNames(features, start) - visited|, |queue|
    {
      var feature := queue[|queue| - 1];
      var rest := queue[..|queue| - 1];
      if feature in visited {
        Revisited(features, start, visited, queue);
        queue := rest;
        continue;
      }
      Decreases(features, start, visited, queue);
      var entries := EntriesOf(features, feature);
      ghost var before := visited;
      visited := visited + {feature};
      var more, longer := Follow(entries, crates, rest);
      Followed(features, start, before, queue, longer);
      NamedByMore(features, before, feature);
      queue, crates := longer, more;
    }
    NothingWaiting(features, start, visited);
  }

  /** With nothing left to follow, the features followed are those reachable. */
  lemma NothingWaiting(features: Table, start: string, visited: set<string>)
    requires Progress(features, start, visited, [])
    ensures forall name :: NamedBy(features, visited, name)
              <==> exists f :: Reachable(features, start, f) && Names(features, f, Dependency(name))
  {
    forall f | Reachable(features, start, f) ensures f in visited {
      var chain :| Chain(features, chain) && chain[0] == start && chain[|chain| - 1] == f;
      ClosedHoldsReachable(features, visited, chain);
    }
  }

  function EntriesOf(features: Table, feature: string): seq<string> {
    if feature in features then features[feature] else []
  }

  lemma Begin(features: Table, start: string)
    ensures Progress(features, start, {}, [start])
    ensures forall name :: !NamedBy(features, {}, name)
  {
    ReachesItself(features, start);
  }

  lemma Revisited(features: Table, start: string, visited: set<string>, queue: seq<string>)
    requires Progress(features, start, visited, queue) && queue != [] && queue[|queue| - 1] in visited
    ensures Progress(features, start, visited, queue[..|queue| - 1])
  {
    var rest := queue[..|queue| - 1];
    assert queue == rest + [queue[|queue| - 1]];
  }

  lemma Decreases(features: Table, start: string, visited: set<string>, queue: seq<string>)
    requires Progress(features, start, visited, queue) && queue != [] && queue[|queue| - 1] !in visited
    ensures |AllNames(features, start) - (visited + {queue[|queue| - 1]})| < |AllNames(features, start) - visited|
  {
    var feature := queue[|queue| - 1];
    assert feature in queue;
    var after := AllNames(features, start) - (visited + {feature});
    assert AllNames(features, start) - visited == after + {feature};
  }

  lemma Followed(features: Table, start: string, visited: set<string>, queue: seq<string>, longer: seq<string>)
    requires Progress(features, start, visited, queue) && queue != []
    requires var entries := EntriesOf(features, queue[|queue| - 1]);
             forall f :: f in longer <==> f in queue[..|queue| - 1] || Lists(entries, Feature(f))
    ensures Progress(features, start, visited + {queue[|queue| - 1]}, longer)
  {
    var feature, rest := queue[|queue| - 1], queue[..|queue| - 1];
    var entries := EntriesOf(features, feature);
    assert queue == rest + [feature];
    assert forall e :: Lists(entries, e) <==> Names(features, feature, e);
    forall f | f in longer ensures f in AllNames(features, start) && Reachable(features, start, f) {
      if f !in rest {
        assert Names(features, feature, Feature(f));
        ReachesNext(features, start, feature, f);
        var j :| 0 <= j < |entries| && EntryOf(entries[j]) == Feature(f);
        assert f == entries[j];
      }
    }
  }

  lemma NamedByMore(features: Table, visited: set<string>, feature: string)
    ensures forall name :: NamedBy(features, visited + {feature}, name)
              <==> NamedBy(features, visited, name) || Lists(EntriesOf(features, feature), Dependency(name))
  {
    assert forall e :: Lists(EntriesOf(features, feature), e) <==> Names(features, feature, e);
  }

  // ----- The entries as they are written -----

  /** That an entry is a dependency and a feature of it, behind a slash, without the question mark
      that keeps the dependency off. */
  predicate TurnsOn(entry: string, name: string) {
    && !StartsWith(entry, "dep:") && '/' !in name && (name == "" || name[|name| - 1] != '?')
    && StartsWith(entry, name + "/")
  }

  lemma SlashFound(entry: string, name: string)
    ensures '/' !in name && StartsWith(entry, name + "/")
       <==> FindChar(entry, '/') == |name| < |entry| && entry[..|name|] == name
  {
    var at, marked := FindChar(entry, '/'), name + "/";
    assert marked[|name|] == '/' && forall k :: 0 <= k < |name| ==> marked[k] == name[k];
    if '/' !in name && StartsWith(entry, marked) {
      assert forall k :: 0 <= k < |name| ==> entry[k] == name[k] && name[k] in name;
      assert entry[|name|] == '/';
    }
    if at == |name| < |entry| && entry[..|name|] == name {
      assert forall k :: 0 <= k < |name| ==> name[k] == entry[..|name|][k] == entry[k];
    }
  }

  lemma QuestionAtEnd(name: string)
    ensures EndsWith(name, "?") <==> name != "" && name[|name| - 1] == '?'
  {
    assert name != "" ==> name[|name| - 1..] == [name[|name| - 1]];
  }

  /** An entry asks for a dependency if and only if it is `dep:` and its name, or its name and a
      feature of it. */
  lemma DependencyWritten(entry: string, name: string)
    ensures EntryOf(entry) == Dependency(name) <==> entry == "dep:" + name || TurnsOn(entry, name)
  {
    hide EndsWith, FindChar;
    SlashFound(entry, name);
    QuestionAtEnd(name);
    if StartsWith(entry, "dep:") { assert entry == "dep:" + entry[4..]; }
    if entry == "dep:" + name { assert StartsWith(entry, "dep:") && entry[4..] == name; }
  }

  /** An entry names a feature if and only if it is that feature, with no slash and no `dep:`. */
  lemma FeatureWritten(entry: string, name: string)
    ensures EntryOf(entry) == Feature(name) <==> entry == name && '/' !in name && !StartsWith(name, "dep:")
  {
    var at := FindChar(entry, '/');
    assert at < |entry| ==> entry[at] in entry;
  }
}
