/** Which bytes hold a client hello, and that how it is cut into records does not matter. */
module TlsProofs {
  import opened Wrappers
  import opened Tls

  // ----- Records -----

  predicate RecordsOk(rs: seq<Record>) {
    forall k :: 0 <= k < |rs| ==> |rs[k].version| == 2 && 0 < |rs[k].fragment| <= 16384
  }

  /** The fragments of some records, joined. */
  function Fragments(rs: seq<Record>): seq<Byte> {
    if rs == [] then [] else rs[0].fragment + Fragments(rs[1..])
  }

  /** That every record has one version. */
  predicate Uniform(rs: seq<Record>, version: seq<Byte>) {
    forall k :: 0 <= k < |rs| ==> rs[k].version == version
  }

  lemma Vector16Read(n: U16, data: seq<Byte>, more: seq<Byte>)
    requires |data| == n
    ensures Vector16From(Bytes16(n) + data + more) == Read(Some(data), more)
  {
    var s := Bytes16(n) + data + more;
    assert s[0] == Bytes16(n)[0] && s[1] == Bytes16(n)[1] && s[2..] == data + more;
  }

  lemma Vector16Is(s: seq<Byte>)
    requires Vector16From(s).value.Some?
    ensures var data := Vector16From(s).value.value; |data| < 65536 && s == Bytes16(|data|) + data + Vector16From(s).rest
  {
    var data := Vector16From(s).value.value;
    assert s[2..] == data + Vector16From(s).rest;
    assert s[..2] == Bytes16(|data|);
  }

  lemma Vector8Read(n: Byte, data: seq<Byte>, more: seq<Byte>)
    requires |data| == n
    ensures Vector8From([n] + data + more) == Read(Some(data), more)
  {
    var s := [n] + data + more;
    assert s[1..] == data + more;
  }

  lemma Vector8Is(s: seq<Byte>)
    requires Vector8From(s).value.Some?
    ensures var data := Vector8From(s).value.value; |data| < 256 && s == [|data|] + data + Vector8From(s).rest
  {
    var data := Vector8From(s).value.value;
    assert s[1..] == data + Vector8From(s).rest;
  }

  /** What reading one record does. */
  lemma JoinedStep(r: Record, more: seq<Byte>, message: seq<Byte>, version: Option<seq<Byte>>, uniform: bool)
    requires |r.version| == 2
    ensures var first, all := OrFirst(version, r.version), message + r.fragment;
            var same := uniform && first == r.version;
            Joined(RecordBytes(r) + more, message, version, uniform)
            == if !(0 < |r.fragment| <= MAX_FRAGMENT) then None
               else match ProgressOf(all)
                    case Bad => None
                    case Whole => Some(Message(all, first, same))
                    case Partial => Joined(more, all, Some(first), same)
  {
    hide ProgressOf, Vector16From, Bytes16;
    var s := RecordBytes(r) + more;
    var length := Bytes16(|r.fragment|) + r.fragment + more;
    assert s == [HANDSHAKE] + (r.version + length);
    assert (r.version + length)[..2] == r.version && (r.version + length)[2..] == length;
    Vector16Read(|r.fragment|, r.fragment, more);
  }

  /** A record stands at the start of bytes from which more than nothing is joined. */
  lemma JoinedRecord(rest: seq<Byte>, message: seq<Byte>, version: Option<seq<Byte>>, uniform: bool)
      returns (r: Record, more: seq<Byte>)
    requires Joined(rest, message, version, uniform).Some?
    ensures |r.version| == 2 && 0 < |r.fragment| <= MAX_FRAGMENT && rest == RecordBytes(r) + more
  {
    hide ProgressOf, Vector16From, Bytes16;
    var after := rest[1..][2..];
    Vector16Is(after);
    r, more := Record(rest[1..][..2], Vector16From(after).value.value), Vector16From(after).rest;
    assert rest == [HANDSHAKE] + rest[1..] && rest[1..] == r.version + after;
  }

  /** Before a message is whole, it is partial. */
  lemma PartialBefore(message: seq<Byte>, more: seq<Byte>)
    requires ProgressOf(message + more) == Whole && more != []
    ensures ProgressOf(message) == Partial
  {
    assert forall k :: 0 <= k < |message| ==> (message + more)[k] == message[k];
  }

  /** Records that carry a whole message are joined to it. */
  lemma {:induction false} RecordsJoined(
      rs: seq<Record>, tail: seq<Byte>, message: seq<Byte>, version: Option<seq<Byte>>, uniform: bool)
    requires rs != [] && RecordsOk(rs) && ProgressOf(message + Fragments(rs)) == Whole
    ensures var first := OrFirst(version, rs[0].version);
            Joined(Wire(rs) + tail, message, version, uniform)
            == Some(Message(message + Fragments(rs), first, uniform && Uniform(rs, first)))
    decreases |rs|
  {
    hide ProgressOf, RecordBytes, Joined;
    var first, all := OrFirst(version, rs[0].version), message + rs[0].fragment;
    assert Wire(rs) + tail == RecordBytes(rs[0]) + (Wire(rs[1..]) + tail);
    assert all + Fragments(rs[1..]) == message + Fragments(rs);
    JoinedStep(rs[0], Wire(rs[1..]) + tail, message, version, uniform);
    if |rs| == 1 {
      assert all + [] == all;
    } else {
      assert Fragments(rs[1..]) != [] by { assert rs[1].fragment == rs[1..][0].fragment; }
      PartialBefore(all, Fragments(rs[1..]));
      RecordsJoined(rs[1..], tail, all, Some(first), uniform && first == rs[0].version);
      assert Uniform(rs, first) <==> first == rs[0].version && Uniform(rs[1..], first) by { UniformCons(rs, first); }
    }
  }

  lemma UniformCons(rs: seq<Record>, version: seq<Byte>)
    requires rs != []
    ensures Uniform(rs, version) <==> version == rs[0].version && Uniform(rs[1..], version)
  {
    if version == rs[0].version && Uniform(rs[1..], version) {
      forall k | 0 <= k < |rs| ensures rs[k].version == version {
        if k > 0 { assert rs[1..][k - 1] == rs[k]; }
      }
    }
  }

  /** Bytes from which a message is joined start with records that carry it. */
  lemma {:induction false} JoinedRecords(rest: seq<Byte>, message: seq<Byte>, version: Option<seq<Byte>>, uniform: bool)
      returns (rs: seq<Record>, tail: seq<Byte>)
    requires Joined(rest, message, version, uniform).Some?
    ensures rs != [] && RecordsOk(rs) && rest == Wire(rs) + tail
    ensures ProgressOf(message + Fragments(rs)) == Whole
    decreases |rest|
  {
    hide ProgressOf, RecordBytes, Joined;
    var r, more := JoinedRecord(rest, message, version, uniform);
    JoinedStep(r, more, message, version, uniform);
    var all := message + r.fragment;
    if ProgressOf(all) == Whole {
      rs, tail := [r], more;
      assert Wire([r]) == RecordBytes(r) && Fragments([r]) == r.fragment;
    } else {
      RecordLonger(r);
      var first := OrFirst(version, r.version);
      var others: seq<Record>;
      others, tail := JoinedRecords(more, all, Some(first), uniform && first == r.version);
      rs := [r] + others;
      WireCons(r, others);
      assert rs[1..] == others;
      assert message + Fragments(rs) == all + Fragments(others);
      assert rest == Wire(rs) + tail;
    }
  }

  lemma RecordLonger(r: Record)
    ensures |RecordBytes(r)| > 0
  {
  }

  // ----- The hello on the wire -----

  datatype Extension = Extension(kind: U16, data: Fragment)

  datatype Hello = Hello(
    legacy: U16, random: seq<Byte>, session: seq<Byte>, suites: seq<Byte>, methods: seq<Byte>,
    extensions: Option<seq<Extension>>)

  function ExtensionBytes(e: Extension): seq<Byte> { Bytes16(e.kind) + (Bytes16(|e.data|) + e.data) }

  function Block(exts: seq<Extension>): seq<Byte> {
    if exts == [] then [] else ExtensionBytes(exts[0]) + Block(exts[1..])
  }

  /** No type stands twice, and supported versions are a list of versions. */
  predicate ExtensionsOk(exts: seq<Extension>) {
    && (forall i, j :: 0 <= i < j < |exts| ==> exts[i].kind != exts[j].kind)
    && (forall k :: 0 <= k < |exts| && exts[k].kind == 43 ==> VersionsOf(exts[k].data).Some?)
  }

  predicate HelloOk(h: Hello) {
    && |h.random| == 32 && |h.session| <= 32
    && 2 <= |h.suites| < 65536 && |h.suites| % 2 == 0
    && 0 < |h.methods| < 256
    && (h.extensions.Some? ==> ExtensionsOk(h.extensions.value) && |Block(h.extensions.value)| < 65536)
  }

  function EndingBytes(h: Hello): seq<Byte>
    requires HelloOk(h)
  {
    if h.extensions.None? then []
    else Bytes16(|Block(h.extensions.value)|) + Block(h.extensions.value) + []
  }

  function BodyBytes(h: Hello): seq<Byte>
    requires HelloOk(h)
  {
    Bytes16(h.legacy) + (h.random + ([|h.session|] + h.session
      + (Bytes16(|h.suites|) + h.suites + ([|h.methods|] + h.methods + EndingBytes(h)))))
  }

  /** The handshake message of a hello. */
  function MessageBytes(h: Hello): seq<Byte>
    requires HelloOk(h)
  {
    var body := BodyBytes(h);
    [1, |body| / 65536, |body| / 256 % 256, |body| % 256] + body
  }

  predicate Has(exts: seq<Extension>, kind: U16) {
    exists k :: 0 <= k < |exts| && exts[k].kind == kind
  }

  /** That a hello offers just these versions. */
  predicate OffersVersions(exts: seq<Extension>, versions: Option<seq<U16>>) {
    if versions.None? then !Has(exts, 43)
    else exists k :: 0 <= k < |exts| && exts[k].kind == 43 && VersionsOf(exts[k].data) == versions
  }

  function ExtensionsIn(h: Hello): seq<Extension> {
    if h.extensions.Some? then h.extensions.value else []
  }

  /** What a hello offers: what its extensions say. */
  predicate Offers(h: Hello, f: Fields) {
    var exts := ExtensionsIn(h);
    && f.legacy == h.legacy && OffersVersions(exts, f.versions)
    && f.signatures == Has(exts, 13) && f.groups == Has(exts, 10)
    && f.shares == Has(exts, 51) && f.psk == Has(exts, 41)
  }

  // ----- Versions -----

  function VersionList(versions: seq<U16>): (r: seq<Byte>)
    ensures |r| == 2 * |versions|
  {
    seq(2 * |versions|, k requires 0 <= k < 2 * |versions| => Bytes16(versions[k / 2])[k % 2])
  }

  /** Supported versions are a list of at least one version and at most 127, in their order. */
  lemma VersionsAre(data: seq<Byte>, versions: seq<U16>)
    ensures VersionsOf(data) == Some(versions)
       <==> 1 <= |versions| <= 127 && data == [2 * |versions|] + VersionList(versions)
  {
    hide VersionList, Vector8From, Pairs;
    if VersionsOf(data) == Some(versions) {
      Vector8Is(data);
      var list := Vector8From(data).value.value;
      assert list == VersionList(versions) by { SameList(list, versions); }
      assert data == [|list|] + list + [] == [|list|] + list;
    }
    if 1 <= |versions| <= 127 && data == [2 * |versions|] + VersionList(versions) {
      assert data == [2 * |versions|] + VersionList(versions) + [];
      Vector8Read(2 * |versions|, VersionList(versions), []);
      PairsOf(versions);
    }
  }

  lemma SameList(list: seq<Byte>, versions: seq<U16>)
    requires |list| % 2 == 0 && Pairs(list) == versions
    ensures list == VersionList(versions)
  {
    hide VersionList;
    forall k | 0 <= k < |list| ensures list[k] == VersionList(versions)[k] {
      assert 2 * (k / 2) + k % 2 == k;
      SamePair(list, versions, k / 2);
    }
  }

  lemma SamePair(list: seq<Byte>, versions: seq<U16>, i: nat)
    requires |list| % 2 == 0 && Pairs(list) == versions && i < |versions|
    ensures list[2 * i] == VersionList(versions)[2 * i] && list[2 * i + 1] == VersionList(versions)[2 * i + 1]
  {
    assert versions[i] == Big16(list[2 * i], list[2 * i + 1]);
    assert (2 * i) / 2 == i && (2 * i + 1) / 2 == i && (2 * i) % 2 == 0 && (2 * i + 1) % 2 == 1;
  }

  lemma PairsOf(versions: seq<U16>)
    ensures Pairs(VersionList(versions)) == versions
  {
    forall i | 0 <= i < |versions| ensures Pairs(VersionList(versions))[i] == versions[i] {
      assert (2 * i) / 2 == i && (2 * i + 1) / 2 == i && (2 * i) % 2 == 0 && (2 * i + 1) % 2 == 1;
    }
  }

  // ----- Extensions -----

  /** Whether extensions can follow ones whose types are `seen`. */
  predicate Follow(exts: seq<Extension>, seen: seq<U16>) {
    ExtensionsOk(exts) && forall k :: 0 <= k < |exts| ==> exts[k].kind !in seen
  }

  /** What is offered once some extensions were noted. */
  function NotedAll(f: Fields, exts: seq<Extension>): Option<Fields>
    decreases |exts|
  {
    if exts == [] then Some(f)
    else
      var next := Noted(f, exts[0].kind, exts[0].data);
      if next.None? then None else NotedAll(next.value, exts[1..])
  }

  lemma ExtensionStep(e: Extension, more: seq<Byte>, seen: seq<U16>, f: Fields)
    ensures Extensions(ExtensionBytes(e) + more, seen, f)
         == if e.kind in seen || Noted(f, e.kind, e.data).None? then None
            else Extensions(more, seen + [e.kind], Noted(f, e.kind, e.data).value)
  {
    hide Vector16From, Noted;
    var s, rest := ExtensionBytes(e) + more, Bytes16(|e.data|) + e.data + more;
    assert s[0] == Bytes16(e.kind)[0] && s[1] == Bytes16(e.kind)[1] && s[2..] == rest;
    Vector16Read(|e.data|, e.data, more);
  }

  lemma ExtensionFirst(rest: seq<Byte>, seen: seq<U16>, f: Fields) returns (e: Extension, more: seq<Byte>)
    requires rest != [] && Extensions(rest, seen, f).Some?
    ensures rest == ExtensionBytes(e) + more
  {
    hide Vector16From, Noted;
    Vector16Is(rest[2..]);
    var data := Vector16From(rest[2..]);
    e, more := Extension(Big16(rest[0], rest[1]), data.value.value), data.rest;
    assert rest[..2] == Bytes16(e.kind) && rest == rest[..2] + rest[2..];
  }

  lemma FollowCons(exts: seq<Extension>, seen: seq<U16>)
    requires exts != []
    ensures Follow(exts, seen)
       <==> && exts[0].kind !in seen && (exts[0].kind == SUPPORTED_VERSIONS ==> VersionsOf(exts[0].data).Some?)
            && Follow(exts[1..], seen + [exts[0].kind])
  {
    hide VersionsOf;
    var more := exts[1..];
    assert exts == [exts[0]] + more;
    if Follow(more, seen + [exts[0].kind]) && exts[0].kind !in seen {
      forall i, j | 0 <= i < j < |exts| ensures exts[i].kind != exts[j].kind {
        assert exts[j] == more[j - 1];
        if i > 0 { assert exts[i] == more[i - 1]; }
      }
      forall k | 0 <= k < |exts| ensures exts[k].kind !in seen {
        if k > 0 { assert exts[k] == more[k - 1]; }
      }
    }
    if Follow(exts, seen) {
      forall k | 0 <= k < |more| ensures more[k].kind !in seen + [exts[0].kind] {
        assert more[k] == exts[k + 1] && exts[0].kind != exts[k + 1].kind;
      }
    }
  }

  lemma NotedWhen(f: Fields, e: Extension)
    ensures Noted(f, e.kind, e.data).Some? <==> (e.kind == SUPPORTED_VERSIONS ==> VersionsOf(e.data).Some?)
  {
    hide VersionsOf;
  }

  /** A block of extensions is read to its end. */
  lemma {:induction false} ExtensionsRead(exts: seq<Extension>, seen: seq<U16>, f: Fields)
    requires Follow(exts, seen)
    ensures NotedAll(f, exts).Some? && Extensions(Block(exts), seen, f) == NotedAll(f, exts)
    decreases |exts|
  {
    hide ExtensionBytes, Follow, Noted, VersionsOf;
    if exts != [] {
      FollowCons(exts, seen);
      NotedWhen(f, exts[0]);
      ExtensionStep(exts[0], Block(exts[1..]), seen, f);
      ExtensionsRead(exts[1..], seen + [exts[0].kind], Noted(f, exts[0].kind, exts[0].data).value);
    }
  }

  /** Bytes read as extensions are a block of them. */
  lemma {:induction false} ExtensionsAre(rest: seq<Byte>, seen: seq<U16>, f: Fields) returns (exts: seq<Extension>)
    requires Extensions(rest, seen, f).Some?
    ensures Follow(exts, seen) && rest == Block(exts)
    decreases |rest|
  {
    hide ExtensionBytes, Follow, Noted, VersionsOf;
    if rest == [] {
      exts := [];
      NoneFollow(seen);
    } else {
      var e, more := ExtensionFirst(rest, seen, f);
      ExtensionStep(e, more, seen, f);
      NotedWhen(f, e);
      ExtensionLonger(e);
      var others := ExtensionsAre(more, seen + [e.kind], Noted(f, e.kind, e.data).value);
      exts := [e] + others;
      assert exts[1..] == others;
      FollowCons(exts, seen);
    }
  }

  lemma NoneFollow(seen: seq<U16>)
    ensures Follow([], seen)
  {
  }

  lemma ExtensionLonger(e: Extension)
    ensures |ExtensionBytes(e)| > 0
  {
  }

  lemma HasCons(exts: seq<Extension>, kind: U16)
    requires exts != []
    ensures Has(exts, kind) <==> exts[0].kind == kind || Has(exts[1..], kind)
  {
    if Has(exts, kind) && exts[0].kind != kind {
      var k :| 0 <= k < |exts| && exts[k].kind == kind;
      assert exts[1..][k - 1].kind == kind;
    }
    if Has(exts[1..], kind) {
      var k :| 0 <= k < |exts[1..]| && exts[1..][k].kind == kind;
      assert exts[k + 1].kind == kind;
    }
  }

  /** Each flag is set if and only if its extension is there. */
  lemma {:induction false} FlagsNoted(f: Fields, exts: seq<Extension>)
    requires NotedAll(f, exts).Some?
    ensures var g := NotedAll(f, exts).value;
            && g.legacy == f.legacy
            && (g.signatures <==> f.signatures || Has(exts, SIGNATURE_ALGORITHMS))
            && (g.groups <==> f.groups || Has(exts, SUPPORTED_GROUPS))
            && (g.shares <==> f.shares || Has(exts, KEY_SHARE))
            && (g.psk <==> f.psk || Has(exts, PRE_SHARED_KEY))
    decreases |exts|
  {
    hide Has, VersionsOf;
    if exts == [] {
      HasNone();
    } else {
      FlagsNoted(Noted(f, exts[0].kind, exts[0].data).value, exts[1..]);
      HasCons(exts, SIGNATURE_ALGORITHMS);
      HasCons(exts, SUPPORTED_GROUPS);
      HasCons(exts, KEY_SHARE);
      HasCons(exts, PRE_SHARED_KEY);
    }
  }

  lemma HasNone()
    ensures forall kind :: !Has([], kind)
  {
  }

  lemma {:induction false} VersionsKept(f: Fields, exts: seq<Extension>)
    requires NotedAll(f, exts).Some? && !Has(exts, SUPPORTED_VERSIONS)
    ensures NotedAll(f, exts).value.versions == f.versions
    decreases |exts|
  {
    hide Has, VersionsOf;
    if exts != [] {
      HasCons(exts, SUPPORTED_VERSIONS);
      VersionsKept(Noted(f, exts[0].kind, exts[0].data).value, exts[1..]);
    }
  }

  /** The versions offered are those of the one extension that lists them. */
  lemma {:induction false} VersionsNoted(f: Fields, exts: seq<Extension>)
    requires NotedAll(f, exts).Some? && ExtensionsOk(exts) && f.versions == None
    ensures OffersVersions(exts, NotedAll(f, exts).value.versions)
    decreases |exts|
  {
    hide Has, VersionsOf, NotedAll;
    if exts == [] {
      HasNone();
      NotedStep(f, exts);
    } else {
      NotedStep(f, exts);
      var next, more := Noted(f, exts[0].kind, exts[0].data).value, exts[1..];
      HasCons(exts, SUPPORTED_VERSIONS);
      if exts[0].kind == SUPPORTED_VERSIONS {
        NotTwice(exts);
        VersionsKept(next, more);
        assert VersionsOf(exts[0].data) == next.versions;
      } else {
        VersionsNoted(next, more);
        var versions := NotedAll(next, more).value.versions;
        if versions.Some? {
          var k :| 0 <= k < |more| && more[k].kind == SUPPORTED_VERSIONS && VersionsOf(more[k].data) == versions;
          assert exts[k + 1] == more[k];
        }
      }
    }
  }

  lemma NotedStep(f: Fields, exts: seq<Extension>)
    ensures NotedAll(f, exts)
         == if exts == [] then Some(f)
            else if Noted(f, exts[0].kind, exts[0].data).None? then None
            else NotedAll(Noted(f, exts[0].kind, exts[0].data).value, exts[1..])
  {
  }

  lemma NotTwice(exts: seq<Extension>)
    requires exts != [] && ExtensionsOk(exts)
    ensures !Has(exts[1..], exts[0].kind)
  {
    forall k | 0 <= k < |exts[1..]| ensures exts[1..][k].kind != exts[0].kind {
      assert exts[k + 1] == exts[1..][k];
    }
  }

  // ----- The message -----

  lemma MessageBody(h: Hello)
    requires HelloOk(h)
    ensures MessageBytes(h)[4..] == BodyBytes(h) && ProgressOf(MessageBytes(h)) == Whole
  {
    hide BodyBytes;
    BodyShort(h);
  }

  lemma BodyShort(h: Hello)
    requires HelloOk(h)
    ensures |BodyBytes(h)| < 16777216
  {
    hide ExtensionsOk, Block;
  }

  /** The body of a hello is read to what the hello offers. */
  lemma OfferRead(h: Hello)
    requires HelloOk(h)
    ensures Offer(BodyBytes(h)).Some? && Offers(h, Offer(BodyBytes(h)).value)
  {
    hide EndingBytes, Ending, ExtensionsOk, Block, Bytes16, Vector8From, Vector16From, Offers;
    var s0 := BodyBytes(h);
    var methods := [|h.methods|] + h.methods + EndingBytes(h);
    var suites := Bytes16(|h.suites|) + h.suites + methods;
    var session := [|h.session|] + h.session + suites;
    assert s0 == Bytes16(h.legacy) + (h.random + session);
    assert s0[0] == Bytes16(h.legacy)[0] && s0[1] == Bytes16(h.legacy)[1] && s0[2..] == h.random + session;
    assert s0[2..][..32] == h.random && s0[2..][32..] == session;
    Vector8Read(|h.session|, h.session, suites);
    Vector16Read(|h.suites|, h.suites, methods);
    Vector8Read(|h.methods|, h.methods, EndingBytes(h));
    EndingRead(h);
  }

  lemma EndingRead(h: Hello)
    requires HelloOk(h)
    ensures var f := Ending(EndingBytes(h), h.legacy); f.Some? && Offers(h, f.value)
  {
    hide ExtensionsOk, Block, Bytes16, Vector16From, VersionsOf, Has, NotedAll, Follow, Extensions;
    var f := Fields(h.legacy, None, false, false, false, false);
    var exts := ExtensionsIn(h);
    FollowFirst(exts);
    if h.extensions.None? {
      HasNone();
    } else {
      Vector16Read(|Block(exts)|, Block(exts), []);
      ExtensionsRead(exts, [], f);
      FlagsNoted(f, exts);
      VersionsNoted(f, exts);
    }
  }

  lemma FollowFirst(exts: seq<Extension>)
    ensures Follow(exts, []) <==> ExtensionsOk(exts)
  {
  }

  /** A body that is read is that of a hello. */
  lemma OfferIs(body: seq<Byte>) returns (h: Hello)
    requires Offer(body).Some?
    ensures HelloOk(h) && body == BodyBytes(h)
  {
    hide Ending, ExtensionsOk, Block, Bytes16, Vector8From, Vector16From;
    var legacy := U16From(body);
    var random := TakeFrom(legacy.rest, 32);
    var session := Vector8From(random.rest);
    var suites := Vector16From(session.rest);
    var methods := Vector8From(suites.rest);
    Vector8Is(random.rest);
    Vector16Is(session.rest);
    Vector8Is(suites.rest);
    var extensions := EndingIs(methods.rest, legacy.value.value);
    h := Hello(legacy.value.value, random.value.value, session.value.value, suites.value.value, methods.value.value, extensions);
    LegacyIs(body);
    assert body == Bytes16(h.legacy) + legacy.rest;
    assert legacy.rest == h.random + random.rest;
  }

  lemma LegacyIs(body: seq<Byte>)
    requires |body| >= 2
    ensures body == Bytes16(Big16(body[0], body[1])) + body[2..]
  {
  }

  lemma EndingIs(rest: seq<Byte>, legacy: U16) returns (extensions: Option<seq<Extension>>)
    requires Ending(rest, legacy).Some?
    ensures extensions.Some? ==> ExtensionsOk(extensions.value) && |Block(extensions.value)| < 65536
    ensures rest == if extensions.None? then [] else Bytes16(|Block(extensions.value)|) + Block(extensions.value) + []
  {
    hide ExtensionsOk, Block, Bytes16, Vector16From, Extensions, Follow;
    if rest == [] { return None; }
    Vector16Is(rest);
    var exts := ExtensionsAre(Vector16From(rest).value.value, [], Fields(legacy, None, false, false, false, false));
    FollowFirst(exts);
    return Some(exts);
  }

  lemma ThreeBytes(high: int, middle: Byte, low: Byte)
    ensures var n := high * 65536 + middle * 256 + low;
            n / 65536 == high && n / 256 % 256 == middle && n % 256 == low
  {
    var n: int := high * 65536 + middle * 256 + low;
    assert n / 256 == high * 256 + middle;
  }

  /** A whole message whose body is a hello's is the hello's message. */
  lemma MessageIs(message: seq<Byte>, h: Hello)
    requires HelloOk(h) && ProgressOf(message) == Whole && message[4..] == BodyBytes(h)
    ensures message == MessageBytes(h)
  {
    hide BodyBytes, HelloOk;
    ThreeBytes(message[1], message[2], message[3]);
    assert message == [message[0], message[1], message[2], message[3]] + message[4..];
  }

  // ----- What is parsed -----

  /** That records at the start of some bytes carry a hello, and what it offers. */
  ghost predicate Carry(bytes: seq<Byte>, rs: seq<Record>, tail: seq<Byte>, h: Hello, p: Parsed) {
    && rs != [] && RecordsOk(rs) && bytes == Wire(rs) + tail
    && HelloOk(h) && Fragments(rs) == MessageBytes(h) == p.message && Offers(h, p.fields)
    && p.version == rs[0].version && p.uniform == Uniform(rs, p.version)
  }

  /** Records that carry a whole message are parsed if and only if a body is read from it. */
  lemma WholeParsed(rs: seq<Record>, tail: seq<Byte>)
    requires rs != [] && RecordsOk(rs) && ProgressOf(Fragments(rs)) == Whole
    ensures var m, first := Fragments(rs), rs[0].version;
            Parsing(Wire(rs) + tail)
            == if Offer(m[4..]).None? then None
               else Some(Parsed(first, Uniform(rs, first), m, Offer(m[4..]).value))
  {
    hide Offer, Joined;
    assert [] + Fragments(rs) == Fragments(rs);
    RecordsJoined(rs, tail, [], None, true);
  }

  /** Bytes are parsed if and only if records at their start carry a hello, and then to what that
      hello offers. */
  lemma ParsedIffCarried(bytes: seq<Byte>, p: Parsed)
    ensures Parsing(bytes) == Some(p) <==> exists rs, tail, h :: Carry(bytes, rs, tail, h, p)
  {
    hide RecordsOk, HelloOk, Offers, Uniform, Offer, ProgressOf, BodyBytes, MessageBytes, Joined;
    if Parsing(bytes) == Some(p) {
      var rs, tail := JoinedRecords(bytes, [], None, true);
      assert [] + Fragments(rs) == Fragments(rs);
      WholeParsed(rs, tail);
      var h := OfferIs(p.message[4..]);
      MessageIs(p.message, h);
      OfferRead(h);
      assert Carry(bytes, rs, tail, h, p);
    }
    forall rs, tail, h | Carry(bytes, rs, tail, h, p) ensures Parsing(bytes) == Some(p) {
      MessageBody(h);
      WholeParsed(rs, tail);
      OfferRead(h);
      OffersOne(h, p.fields, Offer(BodyBytes(h)).value);
    }
  }

  /** A hello offers one thing. */
  lemma OffersOne(h: Hello, f: Fields, g: Fields)
    requires HelloOk(h) && Offers(h, f) && Offers(h, g)
    ensures f == g
  {
    hide VersionsOf;
    assert ExtensionsOk(ExtensionsIn(h));
  }

  /** What is parsed of a hello depends on its joined fragments only, however they are cut and
      whatever follows, but for the version of the records. */
  lemma FragmentsDecide(rs: seq<Record>, tail: seq<Byte>, rs': seq<Record>, tail': seq<Byte>)
    requires rs != [] && rs' != [] && RecordsOk(rs) && RecordsOk(rs') && Fragments(rs) == Fragments(rs')
    requires ProgressOf(Fragments(rs)) == Whole
    ensures var p, p' := Parsing(Wire(rs) + tail), Parsing(Wire(rs') + tail');
            && p.Some? == p'.Some?
            && (p.Some? ==> p.value.message == p'.value.message && p.value.fields == p'.value.fields)
  {
    hide RecordsOk, Uniform, Offer, ProgressOf, Parsing;
    WholeParsed(rs, tail);
    WholeParsed(rs', tail');
  }

  // ----- Fragmenting again -----

  lemma {:induction false} ChunkedFragments(message: seq<Byte>, version: seq<Byte>, size: nat)
    requires Fragmentable(|message|, size)
    ensures var rs := Chunked(message, version, size); Fragments(rs) == message && (message != [] <==> rs != [])
    decreases |message|
  {
    hide Fragments;
    if |message| > size {
      var rest := Chunked(message[size..], version, size);
      ChunkedFragments(message[size..], version, size);
      FragmentsCons(Record(version, message[..size]), rest);
      assert message[..size] + message[size..] == message;
    } else if message != [] {
      FragmentsCons(Record(version, message), []);
      FragmentsNone();
      assert [Record(version, message)] + [] == [Record(version, message)];
      assert message + [] == message;
    } else {
      FragmentsNone();
    }
  }

  lemma FragmentsNone()
    ensures Fragments([]) == []
  {
  }

  lemma FragmentsCons(first: Record, rest: seq<Record>)
    ensures Fragments([first] + rest) == first.fragment + Fragments(rest)
  {
    assert ([first] + rest)[1..] == rest;
  }

  /** A parsed hello fragmented again is parsed to the same hello, its records now of one version,
      if and only if its fragments are not over the longest that is allowed. */
  lemma RefragmentedParses(bytes: seq<Byte>, p: Parsed, size: nat)
    requires Parsing(bytes) == Some(p) && Fragmentable(|p.message|, size)
    ensures Parsing(Wire(Chunked(p.message, p.version, size)))
         == if size <= 16384 || |p.message| <= 16384 then Some(p.(uniform := true)) else None
  {
    hide Offer, Joined, ProgressOf, RecordBytes, Wire, Fragments, Chunked;
    var again := Chunked(p.message, p.version, size);
    var rs, tail := JoinedRecords(bytes, [], None, true);
    assert [] + Fragments(rs) == Fragments(rs);
    WholeParsed(rs, tail);
    ChunkedFragments(p.message, p.version, size);
    WireNothing(again);
    if size <= MAX_FRAGMENT || |p.message| <= MAX_FRAGMENT {
      ChunkedOk(p.message, p.version, size);
      WholeParsed(again, []);
      assert Uniform(again, p.version);
    } else {
      ChunkedFirst(p.message, p.version, size);
      WireCons(again[0], again[1..]);
      assert [again[0]] + again[1..] == again;
      JoinedStep(again[0], Wire(again[1..]), [], None, true);
    }
  }

  lemma WireNothing(rs: seq<Record>)
    ensures Wire(rs) + [] == Wire(rs)
  {
  }

  lemma ChunkedFirst(message: seq<Byte>, version: seq<Byte>, size: nat)
    requires Fragmentable(|message|, size) && message != []
    ensures var rs := Chunked(message, version, size);
            rs != [] && |rs[0].fragment| == (if |message| <= size then |message| else size)
  {
  }

  lemma {:induction false} ChunkedOk(message: seq<Byte>, version: seq<Byte>, size: nat)
    requires Fragmentable(|message|, size) && |version| == 2 && (size <= MAX_FRAGMENT || |message| <= MAX_FRAGMENT)
    ensures RecordsOk(Chunked(message, version, size))
  {
    if size > MAX_FRAGMENT { assert |message| <= size; }
  }
}
