/** The client hello read out of TLS handshake records (sections 4.2.2, 4.3 and 5.1 of RFC 9846). */
module Tls {
  import opened Wrappers

  type Byte = x: int | 0 <= x < 256
  type U16 = x: int | 0 <= x < 65536

  const HANDSHAKE: Byte := 22
  const CLIENT_HELLO: Byte := 1
  const SUPPORTED_GROUPS: U16 := 10
  const SIGNATURE_ALGORITHMS: U16 := 13
  const PRE_SHARED_KEY: U16 := 41
  const SUPPORTED_VERSIONS: U16 := 43
  const KEY_SHARE: U16 := 51
  const MAX_FRAGMENT: nat := 16384

  // ----- The cursor -----

  /** What a read takes off the front, and what it leaves. */
  datatype Read<T> = Read(value: Option<T>, rest: seq<Byte>)

  function Big16(high: Byte, low: Byte): U16 { high * 256 + low }

  function TakeFrom(s: seq<Byte>, count: nat): Read<seq<Byte>> {
    if count <= |s| then Read(Some(s[..count]), s[count..]) else Read(None, s)
  }

  function U8From(s: seq<Byte>): (r: Read<Byte>)
    ensures r.value.Some? ==> |r.rest| < |s|
  {
    if s == [] then Read(None, s) else Read(Some(s[0]), s[1..])
  }

  function U16From(s: seq<Byte>): Read<U16> {
    if |s| < 2 then Read(None, s) else Read(Some(Big16(s[0], s[1])), s[2..])
  }

  function Vector8From(s: seq<Byte>): Read<seq<Byte>> {
    var len := U8From(s);
    if len.value.None? then Read(None, s) else TakeFrom(len.rest, len.value.value)
  }

  function Vector16From(s: seq<Byte>): (r: Read<seq<Byte>>)
    ensures |r.rest| <= |s|
  {
    var len := U16From(s);
    if len.value.None? then Read(None, s) else TakeFrom(len.rest, len.value.value)
  }

  class Cursor {
    var rest: seq<Byte>

    constructor (bytes: seq<Byte>)
      ensures rest == bytes
    {
      rest := bytes;
    }

    method Take(count: nat) returns (r: Option<seq<Byte>>)
      modifies this
      ensures Read(r, rest) == TakeFrom(old(rest), count)
    {
      if count > |rest| { return None; }
      r := Some(rest[..count]);
      rest := rest[count..];
    }

    method U8() returns (r: Option<Byte>)
      modifies this
      ensures Read(r, rest) == U8From(old(rest))
    {
      var bytes := Take(1);
      if bytes.None? { return None; }
      r := Some(bytes.value[0]);
    }

    method U16() returns (r: Option<U16>)
      modifies this
      ensures Read(r, rest) == U16From(old(rest))
    {
      var bytes := Take(2);
      if bytes.None? { return None; }
      r := Some(Big16(bytes.value[0], bytes.value[1]));
    }

    method Vector8() returns (r: Option<seq<Byte>>)
      modifies this
      ensures Read(r, rest) == Vector8From(old(rest))
    {
      var len := U8();
      if len.None? { return None; }
      r := Take(len.value);
    }

    method Vector16() returns (r: Option<seq<Byte>>)
      modifies this
      ensures Read(r, rest) == Vector16From(old(rest))
    {
      var len := U16();
      if len.None? { return None; }
      r := Take(len.value);
    }
  }

  // ----- The records -----

  datatype Progress = Partial | Whole | Bad

  function BodyLength(message: seq<Byte>): nat
    requires |message| >= 4
  {
    var (high: int, middle: int, low: int) := (message[1], message[2], message[3]);
    high * 65536 + middle * 256 + low
  }

  /** Whether some joined fragments are a whole client hello message. */
  function ProgressOf(message: seq<Byte>): Progress {
    if |message| < 4 then Partial
    else if message[0] != CLIENT_HELLO then Bad
    else if |message| == 4 + BodyLength(message) then Whole
    else if |message| > 4 + BodyLength(message) then Bad
    else Partial
  }

  /** A message, the version of its first record, and whether every record has it. */
  datatype Message = Message(message: seq<Byte>, version: seq<Byte>, uniform: bool)

  function OrFirst(version: Option<seq<Byte>>, first: seq<Byte>): seq<Byte> {
    if version.Some? then version.value else first
  }

  /** The message that `message` and the records in `rest` come to. */
  function Joined(rest: seq<Byte>, message: seq<Byte>, version: Option<seq<Byte>>, uniform: bool): Option<Message>
    decreases |rest|
  {
    var kind := U8From(rest);
    if kind.value != Some(HANDSHAKE) then None
    else
      var here := TakeFrom(kind.rest, 2);
      if here.value.None? then None
      else
        var first := OrFirst(version, here.value.value);
        var same := uniform && first == here.value.value;
        var fragment := Vector16From(here.rest);
        if fragment.value.None? || !(0 < |fragment.value.value| <= MAX_FRAGMENT) then None
        else
          var all := message + fragment.value.value;
          match ProgressOf(all)
          case Bad => None
          case Whole => Some(Message(all, first, same))
          case Partial => Joined(fragment.rest, all, Some(first), same)
  }

  // ----- The hello -----

  /** What a hello offers. */
  datatype Fields = Fields(
    legacy: U16, versions: Option<seq<U16>>, signatures: bool, groups: bool, shares: bool, psk: bool)

  function Pairs(list: seq<Byte>): (r: seq<U16>)
    requires |list| % 2 == 0
    ensures |r| == |list| / 2
    ensures forall k :: 0 <= k < |r| ==> r[k] == Big16(list[2 * k], list[2 * k + 1])
  {
    seq(|list| / 2, k requires 0 <= k < |list| / 2 => Big16(list[2 * k], list[2 * k + 1]))
  }

  /** The versions in the data of `supported_versions`. */
  function VersionsOf(data: seq<Byte>): Option<seq<U16>> {
    var list := Vector8From(data);
    if list.value.None? || list.rest != [] then None
    else if |list.value.value| < 2 || |list.value.value| % 2 != 0 then None
    else Some(Pairs(list.value.value))
  }

  /** What is offered once an extension was read. */
  function Noted(f: Fields, kind: U16, data: seq<Byte>): Option<Fields> {
    if kind == SUPPORTED_VERSIONS then
      if VersionsOf(data).None? then None else Some(f.(versions := VersionsOf(data)))
    else if kind == SIGNATURE_ALGORITHMS then Some(f.(signatures := true))
    else if kind == SUPPORTED_GROUPS then Some(f.(groups := true))
    else if kind == KEY_SHARE then Some(f.(shares := true))
    else if kind == PRE_SHARED_KEY then Some(f.(psk := true))
    else Some(f)
  }

  /** What is offered once the extensions in `rest` were read, of which none was seen. */
  function Extensions(rest: seq<Byte>, seen: seq<U16>, f: Fields): Option<Fields>
    decreases |rest|
  {
    if rest == [] then Some(f)
    else
      var kind := U16From(rest);
      if kind.value.None? then None
      else
        var data := Vector16From(kind.rest);
        if data.value.None? || kind.value.value in seen then None
        else
          var next := Noted(f, kind.value.value, data.value.value);
          if next.None? then None
          else Extensions(data.rest, seen + [kind.value.value], next.value)
  }

  /** What stands after the compression methods: nothing, or one block of extensions. */
  function Ending(rest: seq<Byte>, legacy: U16): Option<Fields> {
    var f := Fields(legacy, None, false, false, false, false);
    if rest == [] then Some(f)
    else
      var block := Vector16From(rest);
      if block.value.None? || block.rest != [] then None else Extensions(block.value.value, [], f)
  }

  /** What the body of a hello offers. */
  function Offer(body: seq<Byte>): Option<Fields> {
    var legacy := U16From(body);
    if legacy.value.None? then None
    else
      var random := TakeFrom(legacy.rest, 32);
      if random.value.None? then None
      else
        var session := Vector8From(random.rest);
        if session.value.None? || |session.value.value| > 32 then None
        else
          var suites := Vector16From(session.rest);
          if suites.value.None? || |suites.value.value| < 2 || |suites.value.value| % 2 != 0 then None
          else
            var methods := Vector8From(suites.rest);
            if methods.value.None? || methods.value.value == [] then None
            else Ending(methods.rest, legacy.value.value)
  }

  datatype Parsed = Parsed(version: seq<Byte>, uniform: bool, message: seq<Byte>, fields: Fields)

  function Parsing(bytes: seq<Byte>): Option<Parsed> {
    match Joined(bytes, [], None, true)
    case None => None
    case Some(m) =>
      if |m.message| < 4 || Offer(m.message[4..]).None? then None
      else Some(Parsed(m.version, m.uniform, m.message, Offer(m.message[4..]).value))
  }

  // ----- The code -----

  method Parse(bytes: seq<Byte>) returns (r: Option<Parsed>)
    ensures r == Parsing(bytes)
  {
    var message := JoinRecords(bytes);
    if message.None? { return None; }
    var m := message.value;
    var offer := ReadOffer(m.message[4..]);
    if offer.None? { return None; }
    return Some(Parsed(m.version, m.uniform, m.message, offer.value));
  }

  method JoinRecords(bytes: seq<Byte>) returns (r: Option<Message>)
    ensures r == Joined(bytes, [], None, true)
    ensures r.Some? ==> |r.value.message| >= 4
  {
    hide Vector16From, BodyLength;
    var records := new Cursor(bytes);
    var message: seq<Byte> := [];
    var recordVersion: Option<seq<Byte>> := None;
    var uniform := true;
    while true
      invariant Joined(bytes, [], None, true) == Joined(records.rest, message, recordVersion, uniform)
      decreases |records.rest|
    {
      var kind := records.U8();
      if kind != Some(HANDSHAKE) { return None; }
      var version := records.Take(2);
      if version.None? { return None; }
      if recordVersion.None? { recordVersion := version; }
      uniform := uniform && recordVersion == version;
      var fragment := records.Vector16();
      if fragment.None? || fragment.value == [] || |fragment.value| > MAX_FRAGMENT { return None; }
      message := message + fragment.value;
      if |message| >= 4 {
        if message[0] != CLIENT_HELLO { return None; }
        var len := BodyLength(message);
        if |message| == 4 + len { return Some(Message(message, recordVersion.value, uniform)); }
        if |message| > 4 + len { return None; }
      }
    }
  }

  method ReadOffer(bytes: seq<Byte>) returns (r: Option<Fields>)
    ensures r == Offer(bytes)
  {
    var body := new Cursor(bytes);
    var legacy := body.U16();
    if legacy.None? { return None; }
    var random := body.Take(32);
    if random.None? { return None; }
    var session := body.Vector8();
    if session.None? || |session.value| > 32 { return None; }
    var suites := body.Vector16();
    if suites.None? || |suites.value| < 2 || |suites.value| % 2 != 0 { return None; }
    var methods := body.Vector8();
    if methods.None? || methods.value == [] { return None; }
    if body.rest == [] { return Some(Fields(legacy.value, None, false, false, false, false)); }
    var block := body.Vector16();
    if block.None? || body.rest != [] { return None; }
    r := ReadExtensions(block.value, legacy.value);
  }

  method ReadExtensions(block: seq<Byte>, legacy: U16) returns (r: Option<Fields>)
    ensures r == Extensions(block, [], Fields(legacy, None, false, false, false, false))
  {
    hide VersionsOf;
    var extensions := new Cursor(block);
    var fields := Fields(legacy, None, false, false, false, false);
    ghost var start := fields;
    var seen: seq<U16> := [];
    while extensions.rest != []
      invariant Extensions(block, [], start) == Extensions(extensions.rest, seen, fields)
      decreases |extensions.rest|
    {
      var kind := extensions.U16();
      if kind.None? { return None; }
      var data := extensions.Vector16();
      if data.None? { return None; }
      if kind.value in seen { return None; }
      seen := seen + [kind.value];
      match kind.value {
        case 43 =>
          var versions := ReadVersions(data.value);
          if versions.None? { return None; }
          fields := fields.(versions := versions);
        case 13 => fields := fields.(signatures := true);
        case 10 => fields := fields.(groups := true);
        case 51 => fields := fields.(shares := true);
        case 41 => fields := fields.(psk := true);
        case _ =>
      }
    }
    return Some(fields);
  }

  method ReadVersions(bytes: seq<Byte>) returns (r: Option<seq<U16>>)
    ensures r == VersionsOf(bytes)
  {
    var data := new Cursor(bytes);
    var list := data.Vector8();
    if list.None? { return None; }
    if data.rest != [] || |list.value| < 2 || |list.value| % 2 != 0 { return None; }
    return Some(Pairs(list.value));
  }

  // ----- Fragmenting again -----

  type Fragment = f: seq<Byte> | |f| < 65536

  datatype Record = Record(version: seq<Byte>, fragment: Fragment)

  function Bytes16(n: U16): (r: seq<Byte>)
    ensures |r| == 2 && Big16(r[0], r[1]) == n
  {
    [n / 256, n % 256]
  }

  /** A handshake record as it stands on the wire. */
  function RecordBytes(r: Record): seq<Byte> {
    [22] + r.version + [|r.fragment| / 256, |r.fragment| % 256] + r.fragment
  }

  function Wire(records: seq<Record>): seq<Byte> {
    if records == [] then [] else RecordBytes(records[0]) + Wire(records[1..])
  }

  /** That a message can be cut into records of a size: no length of a record is over 2 octets. */
  predicate Fragmentable(length: nat, size: nat) { 0 < size && (size < 65536 || length < 65536) }

  /** A message in records of `size` bytes, the last of which may be shorter. */
  function Chunked(message: seq<Byte>, version: seq<Byte>, size: nat): (r: seq<Record>)
    requires Fragmentable(|message|, size)
    ensures forall k :: 0 <= k < |r| ==> r[k].version == version && 0 < |r[k].fragment| <= size
  {
    if message == [] then []
    else if |message| <= size then [Record(version, message)]
    else [Record(version, message[..size])] + Chunked(message[size..], version, size)
  }

  method Refragment(parsed: Parsed, size: nat) returns (out: seq<Byte>)
    requires Fragmentable(|parsed.message|, size)
    ensures out == Wire(Chunked(parsed.message, parsed.version, size))
  {
    hide Bytes16, RecordBytes, Wire, Chunked;
    out := [];
    var rest := parsed.message;
    while rest != []
      invariant |rest| <= |parsed.message|
      invariant Wire(Chunked(parsed.message, parsed.version, size)) == out + Wire(Chunked(rest, parsed.version, size))
      decreases |rest|
    {
      ghost var was := out;
      var fragment := if |rest| <= size then rest else rest[..size];
      ghost var after := Chunked(rest[|fragment|..], parsed.version, size);
      FirstChunk(rest, fragment, parsed.version, size);
      out := out + [HANDSHAKE];
      out := out + parsed.version;
      out := out + Bytes16(|fragment|);
      out := out + fragment;
      WireCons(Record(parsed.version, fragment), after);
      WroteRecord(was, out, Record(parsed.version, fragment));
      assert was + (RecordBytes(Record(parsed.version, fragment)) + Wire(after)) == out + Wire(after);
      rest := rest[|fragment|..];
    }
    WireNone(parsed.version, size);
    assert out + [] == out;
  }

  lemma WireNone(version: seq<Byte>, size: nat)
    requires Fragmentable(0, size)
    ensures Wire(Chunked([], version, size)) == []
  {
  }

  lemma FirstChunk(rest: seq<Byte>, fragment: seq<Byte>, version: seq<Byte>, size: nat)
    requires rest != [] && Fragmentable(|rest|, size) && fragment == if |rest| <= size then rest else rest[..size]
    ensures |fragment| < 65536
    ensures Chunked(rest, version, size) == [Record(version, fragment)] + Chunked(rest[|fragment|..], version, size)
  {
  }

  lemma WroteRecord(was: seq<Byte>, out: seq<Byte>, r: Record)
    requires out == was + [HANDSHAKE] + r.version + Bytes16(|r.fragment|) + r.fragment
    ensures out == was + RecordBytes(r)
  {
    hide Bytes16;
  }

  lemma WireCons(first: Record, rest: seq<Record>)
    ensures Wire([first] + rest) == RecordBytes(first) + Wire(rest)
  {
    assert ([first] + rest)[1..] == rest;
  }
}
