/** Which C# enums mirror the enums of a header, by the spelling of their members, and what the
    comparison reports of one that nearly does. */
module EnumMirrors {
  import opened Wrappers
  import opened Text
  import opened Header
  import opened Surface
  import opened Ordering
  import opened SurfaceCheck

  /** That the members are the variants, each without the name of its enum and an underscore before
      it, or as it is where it does not start so. */
  predicate MembersMirror(name: string, variants: seq<(string, int)>, members: seq<(string, int)>) {
    && |variants| == |members|
    && forall k :: 0 <= k < |members| ==> variants[k].1 == members[k].1 && IsMemberOf(name, variants[k].0, members[k].0)
  }

  predicate IsMemberOf(name: string, variant: string, member: string) {
    variant == name + "_" + member || (variant == member && !StartsWith(variant, name + "_"))
  }

  predicate DistinctNames(members: seq<(string, int)>) {
    forall i, j :: 0 <= i < j < |members| ==> members[i].0 != members[j].0
  }

  lemma MemberSpelled(name: string, variant: string, member: string)
    requires IsMemberOf(name, variant, member)
    ensures MemberName(name + "_", variant) == member
  {
    if variant == name + "_" + member {
      assert StartsWith(variant, name + "_");
      assert variant[|name + "_"|..] == member;
    }
  }

  lemma MirroredMembers(e: Enum, members: seq<(string, int)>)
    requires MembersMirror(e.name, e.variants, members)
    ensures Members(e) == members
  {
    forall k | 0 <= k < |members| ensures Members(e)[k] == members[k] {
      MemberSpelled(e.name, e.variants[k].0, members[k].0);
    }
  }

  /** Of members of different names each has its own value. */
  lemma {:induction false} ValuesAre(members: seq<(string, int)>)
    requires DistinctNames(members)
    ensures forall k :: 0 <= k < |members| ==> members[k].0 in Values(members) && Values(members)[members[k].0] == members[k].1
    ensures forall name :: name in Values(members) ==> exists k :: 0 <= k < |members| && members[k].0 == name
    decreases |members|
  {
    if members != [] {
      var n := |members| - 1;
      var most := members[..n];
      ValuesAre(most);
      forall k | 0 <= k < |members| ensures members[k].0 in Values(members) && Values(members)[members[k].0] == members[k].1 {
        if k < n { assert members[k] == most[k]; }
      }
      forall name | name in Values(members) ensures exists k :: 0 <= k < |members| && members[k].0 == name {
        if name in Values(most) {
          var k :| 0 <= k < |most| && most[k].0 == name;
          assert members[k].0 == name;
        }
      }
    }
  }

  // ----- The problems of one member -----

  predicate DistinctOrder(order: seq<string>) { forall i, j :: 0 <= i < j < |order| ==> order[i] != order[j] }

  /** What the last of some different names adds to the others. */
  lemma MostOf(order: seq<string>)
    requires order != [] && DistinctOrder(order)
    ensures var most, last := order[..|order| - 1], order[|order| - 1];
            && DistinctOrder(most) && last !in most && (forall m :: m in order <==> m in most || m == last)
  {
    var most, last := order[..|order| - 1], order[|order| - 1];
    assert forall i :: 0 <= i < |most| ==> most[i] == order[i];
    assert order == most + [last];
  }

  lemma MissingLast(at: At, wanted: map<string, int>, actual: map<string, int>, order: seq<string>)
    requires order != []
    ensures Missing(at, wanted, actual, order)
         == Missing(at, wanted, actual, order[..|order| - 1]) + MemberProblems(at, wanted, actual, order[|order| - 1])
  {
    hide MemberProblems, MemberDiffers;
  }

  lemma {:induction false} MissingOne(at: At, wanted: map<string, int>, actual: map<string, int>, order: seq<string>, member: string)
    requires DistinctOrder(order)
    requires forall m :: m in order && m != member ==> MemberProblems(at, wanted, actual, m) == []
    ensures Missing(at, wanted, actual, order) == if member in order then MemberProblems(at, wanted, actual, member) else []
    decreases |order|
  {
    hide Missing, MemberProblems, MemberDiffers, DistinctOrder;
    if order == [] {
      NoMissing(at, wanted, actual);
    } else {
      MissingLast(at, wanted, actual, order);
      MostOf(order);
      MissingOne(at, wanted, actual, order[..|order| - 1], member);
    }
  }

  lemma NoMissing(at: At, wanted: map<string, int>, actual: map<string, int>)
    ensures Missing(at, wanted, actual, []) == []
  {
  }

  lemma ExtraLast(at: At, wanted: map<string, int>, actual: map<string, int>, order: seq<string>)
    requires order != []
    ensures Extra(at, wanted, actual, order)
         == Extra(at, wanted, actual, order[..|order| - 1]) + VariantProblems(at, wanted, actual, order[|order| - 1])
  {
    hide VariantProblems, MemberUnwanted;
  }

  lemma {:induction false} ExtraOne(at: At, wanted: map<string, int>, actual: map<string, int>, order: seq<string>, member: string)
    requires DistinctOrder(order)
    requires forall m :: m in order && m != member ==> VariantProblems(at, wanted, actual, m) == []
    ensures Extra(at, wanted, actual, order) == if member in order then VariantProblems(at, wanted, actual, member) else []
    decreases |order|
  {
    hide Extra, VariantProblems, MemberUnwanted, DistinctOrder;
    if order == [] {
      NoExtra(at, wanted, actual);
    } else {
      ExtraLast(at, wanted, actual, order);
      MostOf(order);
      ExtraOne(at, wanted, actual, order[..|order| - 1], member);
    }
  }

  lemma NoExtra(at: At, wanted: map<string, int>, actual: map<string, int>)
    ensures Extra(at, wanted, actual, []) == []
  {
  }

  lemma SortedDistinct(names: set<string>)
    ensures DistinctOrder(Sorted(names))
  {
    forall i, j | 0 <= i < j < |Sorted(names)| ensures Sorted(names)[i] != Sorted(names)[j] {
      Irreflexive(Sorted(names)[i]);
    }
  }

  /** Two maps that differ at most in one member: the problem is that member's. */
  lemma OneMemberDiffers(at: At, wanted: map<string, int>, actual: map<string, int>, member: string)
    requires forall m :: m != member ==> (m in wanted <==> m in actual)
    requires forall m :: m != member && m in wanted && m in actual ==> wanted[m] == actual[m]
    ensures MembersProblems(at, wanted, actual)
         == if member in wanted && member !in actual then [NoMember(at, member, wanted[member])]
            else if member in wanted && wanted[member] != actual[member] then [MemberIs(at, member, actual[member], wanted[member])]
            else if member !in wanted && member in actual then [NoVariant(at, member, actual[member])]
            else []
  {
    hide Sorted, Missing, Extra, DistinctOrder;
    SortedDistinct(wanted.Keys);
    SortedDistinct(actual.Keys);
    MissingOne(at, wanted, actual, Sorted(wanted.Keys), member);
    ExtraOne(at, wanted, actual, Sorted(actual.Keys), member);
  }

  // ----- The problems of an enum -----

  /** That a C# enum is the only one of an enum's name, and backed by the same type. */
  ghost predicate IsItsMirror(h: Header, d: Declarations, e: Enum, i: nat) {
    && i < |d.enums| && Only(d.enums, EnumName, e.name, i)
    && Underlying(h, e.name).Some? && CanonicalOf(Underlying(h, e.name).value) == CanonicalOf(d.enums[i].underlying)
  }

  /** The underlying type: of the first enum of a name, the C# type of the integer it is a `typedef`
      of, or `int` without one. */
  lemma UnderlyingIs(h: Header, k: nat)
    requires k < |h.enums| && forall j :: 0 <= j < k ==> h.enums[j].name != h.enums[k].name
    ensures Underlying(h, h.enums[k].name)
         == if h.enums[k].underlying == None then Some("int") else Primitive(h.enums[k].underlying.value)
  {
    FirstEnumIs(h.enums, k);
  }

  lemma {:induction false} FirstEnumIs(enums: seq<Enum>, k: nat)
    requires k < |enums| && forall j :: 0 <= j < k ==> enums[j].name != enums[k].name
    ensures FirstEnum(enums, enums[k].name) == Some(enums[k])
    decreases |enums|
  {
    if k > 0 {
      assert enums[0].name != enums[k].name;
      FirstEnumIs(enums[1..], k - 1);
    }
  }

  lemma MirrorIs(h: Header, d: Declarations, e: Enum, i: nat)
    requires IsItsMirror(h, d, e, i)
    ensures EnumProblems(h, d, e)
         == MembersProblems(At(d.enums[i].file, e.name), Values(Members(e)), Values(d.enums[i].members))
  {
    hide MembersProblems, Values, Members, CanonicalOf, OfName, Only, Underlying;
    OneOfName(d.enums, EnumName, e.name);
    assert OfName(d.enums, EnumName, e.name) == [d.enums[i]];
    assert BackingProblems(h, At(d.enums[i].file, e.name), d.enums[i]) == [];
  }

  /** A C# enum whose members are an enum's without its prefix, with their values, has no problem. */
  lemma MirrorHasNoProblem(h: Header, d: Declarations, e: Enum, i: nat, members: seq<(string, int)>)
    requires IsItsMirror(h, d, e, i) && MembersMirror(e.name, e.variants, members) && d.enums[i].members == members
    ensures EnumProblems(h, d, e) == []
  {
    hide EnumProblems, Only, Underlying, CanonicalOf, Values, Members, MembersProblems, MembersMirror;
    MirrorIs(h, d, e, i);
    MirroredMembers(e, members);
    OneMemberDiffers(At(d.enums[i].file, e.name), Values(members), Values(members), "");
  }

  /** With member `k` left out, the problem is that the enum has no such member, of its value. */
  lemma MissingMember(h: Header, d: Declarations, e: Enum, i: nat, members: seq<(string, int)>, k: nat)
    requires IsItsMirror(h, d, e, i) && MembersMirror(e.name, e.variants, members) && DistinctNames(members) && k < |members|
    requires d.enums[i].members == members[..k] + members[k + 1..]
    ensures EnumProblems(h, d, e) == [NoMember(At(d.enums[i].file, e.name), members[k].0, members[k].1)]
  {
    hide EnumProblems, Only, Underlying, CanonicalOf, Values, Members, MembersProblems, MembersMirror;
    var rest := d.enums[i].members;
    MirrorIs(h, d, e, i);
    MirroredMembers(e, members);
    RestDistinct(members, k);
    ValuesAre(members);
    ValuesAre(rest);
    AgreeOff(members, rest, members[k].0);
    assert members[k].0 !in Values(rest);
    OneMemberDiffers(At(d.enums[i].file, e.name), Values(members), Values(rest), members[k].0);
  }

  lemma RestDistinct(members: seq<(string, int)>, k: nat)
    requires DistinctNames(members) && k < |members|
    ensures var rest := members[..k] + members[k + 1..];
            && DistinctNames(rest)
            && (forall j :: 0 <= j < |rest| ==> rest[j].0 != members[k].0)
            && (forall p: (string, int) :: p.0 != members[k].0 ==> (p in members <==> p in rest))
  {
    var rest := members[..k] + members[k + 1..];
    RestIs(members, k, rest);
    forall i, j | 0 <= i < j < |rest| ensures rest[i].0 != rest[j].0 {
      var m, n := if i < k then i else i + 1, if j < k then j else j + 1;
      assert rest[i] == members[m] && rest[j] == members[n] && m < n;
    }
    forall j | 0 <= j < |rest| ensures rest[j].0 != members[k].0 {
      assert rest[j] == members[if j < k then j else j + 1];
    }
    forall p: (string, int) | p.0 != members[k].0 && p in members ensures p in rest {
      var j :| 0 <= j < |members| && members[j] == p;
      assert rest[if j < k then j else j - 1] == p;
    }
  }

  lemma RestIs(members: seq<(string, int)>, k: nat, rest: seq<(string, int)>)
    requires k < |members| && rest == members[..k] + members[k + 1..]
    ensures |rest| == |members| - 1
    ensures forall j :: 0 <= j < |rest| ==> rest[j] == members[if j < k then j else j + 1]
  {
  }

  lemma OtherDistinct(members: seq<(string, int)>, k: nat, value: int)
    requires DistinctNames(members) && k < |members|
    ensures var other := members[k := (members[k].0, value)];
            && DistinctNames(other) && (forall p: (string, int) :: p.0 != members[k].0 ==> (p in members <==> p in other))
  {
    var other := members[k := (members[k].0, value)];
    forall p: (string, int) | p.0 != members[k].0 && p in members ensures p in other {
      var j :| 0 <= j < |members| && members[j] == p;
      assert other[j] == p;
    }
  }

  lemma MoreDistinct(members: seq<(string, int)>, more: (string, int))
    requires DistinctNames(members + [more])
    ensures DistinctNames(members) && forall j :: 0 <= j < |members| ==> members[j].0 != more.0
    ensures (members + [more])[|members|] == more
  {
    var all := members + [more];
    assert all[|members|] == more && forall j :: 0 <= j < |members| ==> all[j] == members[j];
  }

  /** Members that are the same but for one name have the same values but for that name. */
  lemma AgreeOff(a: seq<(string, int)>, b: seq<(string, int)>, member: string)
    requires DistinctNames(a) && DistinctNames(b) && forall p: (string, int) :: p.0 != member ==> (p in a <==> p in b)
    ensures forall m :: m != member ==> (m in Values(a) <==> m in Values(b))
    ensures forall m :: m != member && m in Values(a) && m in Values(b) ==> Values(a)[m] == Values(b)[m]
  {
    hide Values;
    ValuesAre(a);
    ValuesAre(b);
    forall m | m != member
      ensures m in Values(a) <==> m in Values(b)
      ensures m in Values(a) && m in Values(b) ==> Values(a)[m] == Values(b)[m]
    {
      if m in Values(a) {
        var j :| 0 <= j < |a| && a[j].0 == m;
        assert a[j] in b;
      }
      if m in Values(b) {
        var j :| 0 <= j < |b| && b[j].0 == m;
        assert b[j] in a;
      }
    }
  }

  /** With another value for member `k`, the problem is that it has this value and not the header's. */
  lemma OtherValue(h: Header, d: Declarations, e: Enum, i: nat, members: seq<(string, int)>, k: nat, value: int)
    requires IsItsMirror(h, d, e, i) && MembersMirror(e.name, e.variants, members) && DistinctNames(members) && k < |members|
    requires d.enums[i].members == members[k := (members[k].0, value)] && value != members[k].1
    ensures EnumProblems(h, d, e) == [MemberIs(At(d.enums[i].file, e.name), members[k].0, value, members[k].1)]
  {
    hide EnumProblems, Only, Underlying, CanonicalOf, Values, Members, MembersProblems, MembersMirror;
    var other := d.enums[i].members;
    MirrorIs(h, d, e, i);
    MirroredMembers(e, members);
    OtherDistinct(members, k, value);
    ValuesAre(members);
    ValuesAre(other);
    AgreeOff(members, other, members[k].0);
    assert other[k] == (members[k].0, value);
    OneMemberDiffers(At(d.enums[i].file, e.name), Values(members), Values(other), members[k].0);
  }

  /** With a member more, the problem is that it is no variant. */
  lemma MemberTooMany(h: Header, d: Declarations, e: Enum, i: nat, members: seq<(string, int)>, more: (string, int))
    requires IsItsMirror(h, d, e, i) && MembersMirror(e.name, e.variants, members) && DistinctNames(members + [more])
    requires d.enums[i].members == members + [more]
    ensures EnumProblems(h, d, e) == [NoVariant(At(d.enums[i].file, e.name), more.0, more.1)]
  {
    hide EnumProblems, Only, Underlying, CanonicalOf, Values, Members, MembersProblems, MembersMirror;
    var all := members + [more];
    MirrorIs(h, d, e, i);
    MirroredMembers(e, members);
    MoreDistinct(members, more);
    ValuesAre(members);
    ValuesAre(all);
    AgreeOff(members, all, more.0);
    assert more.0 !in Values(members);
    OneMemberDiffers(At(d.enums[i].file, e.name), Values(members), Values(all), more.0);
  }

  ghost predicate HasMirror(h: Header, d: Declarations, e: Enum) {
    exists i: nat :: IsItsMirror(h, d, e, i) && MembersMirror(e.name, e.variants, d.enums[i].members)
  }

  predicate NamesOne(h: Header, name: string) { exists k :: 0 <= k < |h.enums| && h.enums[k].name == name }

  /** A header whose enums all have their mirrors, beside no other enums, has no problem of an enum. */
  lemma NoEnumProblem(h: Header, d: Declarations)
    requires forall k :: 0 <= k < |h.enums| ==> HasMirror(h, d, h.enums[k])
    requires forall i :: 0 <= i < |d.enums| ==> NamesOne(h, d.enums[i].name)
    ensures EnumsProblems(h, d, |h.enums|) == [] && OthersProblems(h, d, |d.enums|) == []
  {
    NoEnumsProblem(h, d, |h.enums|);
    NoOthers(h, d, |d.enums|);
  }

  lemma {:induction false} NoOthers(h: Header, d: Declarations, count: nat)
    requires count <= |d.enums|
    requires forall i :: 0 <= i < |d.enums| ==> NamesOne(h, d.enums[i].name)
    ensures OthersProblems(h, d, count) == []
  {
    if count > 0 {
      NoOthers(h, d, count - 1);
      assert NamesOne(h, d.enums[count - 1].name);
      var k :| 0 <= k < |h.enums| && h.enums[k].name == d.enums[count - 1].name;
      assert h.enums[k] in h.enums;
    }
  }

  lemma {:induction false} NoEnumsProblem(h: Header, d: Declarations, count: nat)
    requires count <= |h.enums|
    requires forall k :: 0 <= k < |h.enums| ==> HasMirror(h, d, h.enums[k])
    ensures EnumsProblems(h, d, count) == []
  {
    hide IsItsMirror, EnumProblems, MembersMirror;
    if count > 0 {
      NoEnumsProblem(h, d, count - 1);
      OneEnum(h, d, h.enums[count - 1]);
    }
  }

  lemma OneEnum(h: Header, d: Declarations, e: Enum)
    requires HasMirror(h, d, e)
    ensures EnumProblems(h, d, e) == []
  {
    hide EnumProblems, MembersMirror, Only, Underlying, CanonicalOf;
    var i: nat :| IsItsMirror(h, d, e, i) && MembersMirror(e.name, e.variants, d.enums[i].members);
    MirrorHasNoProblem(h, d, e, i, d.enums[i].members);
  }
}
