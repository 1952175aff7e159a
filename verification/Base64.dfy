/** Base 64 (sections 4 and 5 of RFC 4648): the encoder and the decoder that write a caller's
    buffer, on bytes as bit vectors. */
module Base64 {
  import opened Wrappers

  type Byte = bv8

  /** The largest `usize` of a 64-bit target, and the longest slice. */
  const USIZE_MAX: nat := 0xFFFF_FFFF_FFFF_FFFF
  const ISIZE_MAX: nat := 0x7FFF_FFFF_FFFF_FFFF

  datatype Alphabet = Standard | UrlSafe

  datatype DecodeError =
    | InvalidByte(offset: nat, byte: Byte)
    | InvalidLength
    | InvalidPadding
    | NonZeroPadBits
    | Full

  // ----- The alphabets -----

  const PAD: Byte := 61

  /** The character of a value below 64, the tables of sections 4 and 5 of RFC 4648: `A-Z`,
      `a-z`, `0-9` and the two that differ. A value that no table has would be the pad. */
  function Char(a: Alphabet, value: Byte): (c: Byte) {
    if value < 26 then value + 65
    else if value < 52 then value + 71
    else if value < 62 then value - 4
    else if value == 62 then (if a == Standard then 43 else 45)
    else if value == 63 then (if a == Standard then 47 else 95)
    else PAD
  }

  /** The value of an alphabet character, or none for any other byte. */
  function Value(a: Alphabet, byte: Byte): (v: Option<Byte>) {
    if 65 <= byte <= 90 then Some(byte - 65)
    else if 97 <= byte <= 122 then Some(byte - 97 + 26)
    else if 48 <= byte <= 57 then Some(byte - 48 + 52)
    else if byte == 43 && a == Standard then Some(62)
    else if byte == 47 && a == Standard then Some(63)
    else if byte == 45 && a == UrlSafe then Some(62)
    else if byte == 95 && a == UrlSafe then Some(63)
    else None
  }

  /** The values are below 64, and a byte has one exactly when it is the character of it. */
  lemma ValueInvertsChar(a: Alphabet, byte: Byte, v: Byte)
    ensures Value(a, byte) == Some(v) <==> v < 64 && Char(a, v) == byte
  {
  }

  lemma PadHasNoValue(a: Alphabet)
    ensures Value(a, PAD).None? && forall v: Byte :: v < 64 ==> Char(a, v) != PAD
  {
  }

  // ----- Quanta -----

  function Sextet0(x: Byte): Byte { x >> 2 }
  function Sextet1(x: Byte, y: Byte): Byte { ((x & 0x03) << 4) | (y >> 4) }
  function Sextet2(y: Byte, z: Byte): Byte { ((y & 0x0F) << 2) | (z >> 6) }
  function Sextet3(z: Byte): Byte { z & 0x3F }

  function Octet0(s: Byte, t: Byte): Byte { (s << 2) | (t >> 4) }
  function Octet1(t: Byte, u: Byte): Byte { (t << 4) | (u >> 2) }
  function Octet2(u: Byte, v: Byte): Byte { (u << 6) | v }

  lemma OctetsOfSextets(x: Byte, y: Byte, z: Byte)
    ensures Octet0(Sextet0(x), Sextet1(x, y)) == x
    ensures Octet1(Sextet1(x, y), Sextet2(y, z)) == y
    ensures Octet2(Sextet2(y, z), Sextet3(z)) == z
    ensures Sextet0(x) < 64 && Sextet1(x, y) < 64 && Sextet2(y, z) < 64 && Sextet3(z) < 64
    ensures Sextet1(x, 0) & 0x0F == 0 && Sextet2(y, 0) & 0x03 == 0
  {
  }

  lemma SextetsOfOctets(s: Byte, t: Byte, u: Byte, v: Byte)
    requires s < 64 && t < 64 && u < 64 && v < 64
    ensures Sextet0(Octet0(s, t)) == s
    ensures Sextet1(Octet0(s, t), Octet1(t, u)) == t
    ensures Sextet2(Octet1(t, u), Octet2(u, v)) == u
    ensures Sextet3(Octet2(u, v)) == v
    ensures t & 0x0F == 0 ==> Sextet1(Octet0(s, t), 0) == t
    ensures u & 0x03 == 0 ==> Sextet2(Octet1(t, u), 0) == u
  {
  }

  // ----- Lengths -----

  /** The encoded length, if it fits a `usize`. */
  function EncodedLen(len: nat, pad: bool): Option<nat> {
    var full := len / 3 * 4;
    var tail := if len % 3 == 0 then 0 else if pad then 4 else len % 3 + 1;
    if full > USIZE_MAX || full + tail > USIZE_MAX then None else Some(full + tail)
  }

  function Saturating(n: nat): nat { if n > USIZE_MAX then USIZE_MAX else n }

  /** The most bytes that the decoding of `len` characters can hold. */
  function DecodedLen(len: nat): nat {
    Saturating(Saturating(len / 4 * 3) + if len % 4 == 0 then 0 else if len % 4 == 2 then 1 else 2)
  }

  // ----- What an encoding is -----

  /** The characters of some bytes, without padding. */
  function Characters(input: seq<Byte>, a: Alphabet): seq<Byte> {
    if |input| == 0 then []
    else if |input| == 1 then [Char(a, Sextet0(input[0])), Char(a, Sextet1(input[0], 0))]
    else if |input| == 2 then
      [Char(a, Sextet0(input[0])), Char(a, Sextet1(input[0], input[1])), Char(a, Sextet2(input[1], 0))]
    else Quantum(input[0], input[1], input[2], a) + Characters(input[3..], a)
  }

  lemma {:induction false} CharactersLength(input: seq<Byte>, a: Alphabet)
    ensures |Characters(input, a)| == |input| / 3 * 4 + if |input| % 3 == 0 then 0 else |input| % 3 + 1
  {
    hide Char;
    if |input| >= 3 { CharactersLength(input[3..], a); }
  }

  function Quantum(x: Byte, y: Byte, z: Byte, a: Alphabet): seq<Byte> {
    [Char(a, Sextet0(x)), Char(a, Sextet1(x, y)), Char(a, Sextet2(y, z)), Char(a, Sextet3(z))]
  }

  function Pads(len: nat): nat { if len % 3 == 0 then 0 else 3 - len % 3 }

  function Padding(n: nat): seq<Byte> { seq(n, _ => PAD) }

  /** The one encoding of some bytes. */
  function Encoding(input: seq<Byte>, a: Alphabet, pad: bool): seq<Byte> {
    Characters(input, a) + if pad then Padding(Pads(|input|)) else []
  }

  // ----- What a decoding is -----

  /** The values of some characters, or the first byte that has none; `base` is the offset of the
      first. */
  function Values(chunk: seq<Byte>, base: nat, a: Alphabet): (r: Result<seq<Byte>, DecodeError>)
    ensures r.Ok? ==> |r.value| == |chunk|
    ensures r.Ok? ==> forall k :: 0 <= k < |chunk| ==> Value(a, chunk[k]) == Some(r.value[k])
    ensures r.Err? ==> exists k :: 0 <= k < |chunk| && Value(a, chunk[k]).None?
    ensures r.Err? ==> !r.error.Full?
  {
    if chunk == [] then Ok([])
    else match Value(a, chunk[0])
      case None => Err(InvalidByte(base, chunk[0]))
      case Some(v) =>
        match Values(chunk[1..], base + 1, a)
        case Err(e) => Err(e)
        case Ok(more) => Ok([v] + more)
  }

  /** Writes some bytes after those written, if the buffer holds them. */
  function Put(written: seq<Byte>, bytes: seq<Byte>, capacity: nat): Result<seq<Byte>, DecodeError> {
    if |written| + |bytes| > capacity then Err(Full) else Ok(written + bytes)
  }

  /** The bytes of a quantum of four values. */
  function Octets(v: seq<Byte>): (bytes: seq<Byte>)
    requires |v| == 4
    ensures |bytes| == 3
  {
    [Octet0(v[0], v[1]), Octet1(v[1], v[2]), Octet2(v[2], v[3])]
  }

  /** Decodes the characters of `data` from the offset `at` on. */
  function DecodeFrom(
      data: seq<Byte>, at: nat, pads: nat, padded: bool, a: Alphabet, written: seq<Byte>, capacity: nat)
    : Result<seq<Byte>, DecodeError>
    requires at <= |data|
    decreases |data| - at
  {
    if at + 4 <= |data| then
      match Values(data[at..at + 4], at, a)
      case Err(e) => Err(e)
      case Ok(v) =>
        match Put(written, Octets(v), capacity)
        case Err(e) => Err(e)
        case Ok(more) => DecodeFrom(data, at + 4, pads, padded, a, more, capacity)
    else DecodeTail(data[at..], at, pads, padded, a, written, capacity)
  }

  /** Decodes the last, incomplete quantum. */
  function DecodeTail(
      rest: seq<Byte>, base: nat, pads: nat, padded: bool, a: Alphabet, written: seq<Byte>, capacity: nat)
    : Result<seq<Byte>, DecodeError>
    requires |rest| < 4
  {
    match |rest|
    case 0 => if pads != 0 then Err(InvalidPadding) else Ok(written)
    case 2 =>
      if padded && pads != 2 then Err(InvalidPadding)
      else (match Values(rest, base, a)
            case Err(e) => Err(e)
            case Ok(v) =>
              if v[1] & 0x0F != 0 then Err(NonZeroPadBits)
              else Put(written, [Octet0(v[0], v[1])], capacity))
    case 3 =>
      if padded && pads != 1 then Err(InvalidPadding)
      else (match Values(rest, base, a)
            case Err(e) => Err(e)
            case Ok(v) =>
              if v[2] & 0x03 != 0 then Err(NonZeroPadBits)
              else Put(written, [Octet0(v[0], v[1]), Octet1(v[1], v[2])], capacity))
    case _ => Err(InvalidLength)
  }

  /** The number of pad characters a text ends in. */
  function TrailingPads(input: seq<Byte>): (n: nat)
    ensures n <= |input|
    ensures forall k :: |input| - n <= k < |input| ==> input[k] == PAD
    ensures n < |input| ==> input[|input| - n - 1] != PAD
  {
    if input != [] && input[|input| - 1] == PAD then 1 + TrailingPads(input[..|input| - 1]) else 0
  }

  /** Splits the padding off: at most two characters, only at the end, only when it is expected. */
  function SplitPadding(input: seq<Byte>, padded: bool): Result<(seq<Byte>, nat), DecodeError> {
    var pads := TrailingPads(input);
    if !padded then
      if pads != 0 then Err(InvalidPadding) else Ok((input, 0))
    else if |input| % 4 != 0 then Err(InvalidLength)
    else if pads > 2 then Err(InvalidPadding)
    else Ok((input[..|input| - pads], pads))
  }

  /** What decoding into a buffer of `capacity` bytes writes. */
  function Decoding(input: seq<Byte>, a: Alphabet, padded: bool, capacity: nat): Result<seq<Byte>, DecodeError> {
    match SplitPadding(input, padded)
    case Err(e) => Err(e)
    case Ok((data, pads)) => DecodeFrom(data, 0, pads, padded, a, [], capacity)
  }

  // ----- The buffer-writing code -----

  /** That a part of a buffer was written at `from` and nothing else changed. */
  ghost predicate Wrote(before: seq<Byte>, after: seq<Byte>, from: nat, bytes: seq<Byte>) {
    && from + |bytes| <= |before| == |after|
    && after == before[..from] + bytes + before[from + |bytes|..]
  }

  lemma WroteThen(before: seq<Byte>, middle: seq<Byte>, after: seq<Byte>, from: nat, a: seq<Byte>, b: seq<Byte>)
    requires Wrote(before, middle, from, a) && Wrote(middle, after, from + |a|, b)
    ensures Wrote(before, after, from, a + b)
  {
    assert middle[..from + |a|] == before[..from] + a;
    assert middle[from + |a| + |b|..] == before[from + |a| + |b|..];
  }

  lemma WroteOne(before: seq<Byte>, at: nat, byte: Byte)
    requires at < |before|
    ensures Wrote(before, before[at := byte], at, [byte])
  {
  }

  method WriteByte(out: array<Byte>, at: nat, byte: Byte)
    requires at < out.Length
    modifies out
    ensures Wrote(old(out[..]), out[..], at, [byte])
  {
    WroteOne(out[..], at, byte);
    out[at] := byte;
    assert out[..] == old(out[..])[at := byte];
  }

  /** Writes one byte for each, in order. */
  method WriteBytes(out: array<Byte>, at: nat, bytes: seq<Byte>)
    requires at + |bytes| <= out.Length
    modifies out
    ensures Wrote(old(out[..]), out[..], at, bytes)
  {
    hide Wrote;
    ghost var was := out[..];
    WroteNothing(was, at);
    for k := 0 to |bytes|
      invariant Wrote(was, out[..], at, bytes[..k])
    {
      ghost var before := out[..];
      WriteByte(out, at + k, bytes[k]);
      WroteThen(was, before, out[..], at, bytes[..k], [bytes[k]]);
      assert bytes[..k] + [bytes[k]] == bytes[..k + 1];
    }
    assert bytes[..|bytes|] == bytes;
  }

  /** The characters of the bytes from `i` on. */
  ghost function Remaining(input: seq<Byte>, i: nat, a: Alphabet): seq<Byte>
    requires i <= |input|
  {
    Characters(input[i..], a)
  }

  lemma RemainingAll(input: seq<Byte>, a: Alphabet)
    ensures [] + Remaining(input, 0, a) == Characters(input, a)
  {
    assert input[0..] == input;
  }

  lemma RemainingStep(input: seq<Byte>, i: nat, a: Alphabet)
    requires i + 3 <= |input|
    ensures Remaining(input, i, a) == Quantum(input[i], input[i + 1], input[i + 2], a) + Remaining(input, i + 3, a)
  {
    assert input[i..][3..] == input[i + 3..];
  }

  /** The characters of the last, incomplete group of bytes. */
  function Tail(rest: seq<Byte>, a: Alphabet): (x: seq<Byte>)
    requires |rest| < 3
    ensures x == Characters(rest, a)
  {
    if |rest| == 1 then [Char(a, Sextet0(rest[0])), Char(a, Sextet1(rest[0], 0))]
    else if |rest| == 2 then
      [Char(a, Sextet0(rest[0])), Char(a, Sextet1(rest[0], rest[1])), Char(a, Sextet2(rest[1], 0))]
    else []
  }

  /** Writes the characters of all the bytes, without padding. */
  method WriteCharacters(input: seq<Byte>, a: Alphabet, out: array<Byte>) returns (written: nat)
    requires |Characters(input, a)| <= out.Length
    modifies out
    ensures written == |Characters(input, a)| && Wrote(old(out[..]), out[..], 0, Characters(input, a))
  {
    hide Characters, Remaining, Quantum, Tail, Wrote;
    ghost var was, done := out[..], [];
    WroteNothing(was, 0);
    RemainingAll(input, a);
    var i := 0;
    written := 0;
    while i + 3 <= |input|
      invariant i <= |input| && written == |done|
      invariant done + Remaining(input, i, a) == Characters(input, a)
      invariant Wrote(was, out[..], 0, done)
    {
      ghost var before := out[..];
      var quantum := Quantum(input[i], input[i + 1], input[i + 2], a);
      RemainingStep(input, i, a);
      Assoc(done, quantum, Remaining(input, i + 3, a));
      WriteBytes(out, written, quantum);
      WroteThen(was, before, out[..], 0, done, quantum);
      done := done + quantum;
      i, written := i + 3, written + |quantum|;
    }
    ghost var before := out[..];
    var tail := Tail(input[i..], a);
    assert tail == Remaining(input, i, a) by { RemainingIs(input, i, a); }
    WriteBytes(out, written, tail);
    WroteThen(was, before, out[..], 0, done, tail);
    written := written + |tail|;
  }

  lemma RemainingIs(input: seq<Byte>, i: nat, a: Alphabet)
    requires i <= |input|
    ensures Remaining(input, i, a) == Characters(input[i..], a)
  {
  }

  method EncodeSlice(input: seq<Byte>, a: Alphabet, pad: bool, out: array<Byte>) returns (r: Result<nat, DecodeError>)
    modifies out
    ensures r.Ok? <==> EncodedLen(|input|, pad).Some? && EncodedLen(|input|, pad).value <= out.Length
    ensures r.Err? ==> r.error == Full && out[..] == old(out[..])
    ensures r.Ok? ==> r.value == |Encoding(input, a, pad)| && Wrote(old(out[..]), out[..], 0, Encoding(input, a, pad))
  {
    hide Characters, Wrote, EncodedLen;
    var needed := EncodedLen(|input|, pad);
    if needed.None? || needed.value > out.Length { return Err(Full); }
    EncodedLenIs(input, a, pad);
    var written := WriteCharacters(input, a, out);
    var pads := Padding(needed.value - written);
    ghost var before := out[..];
    WriteBytes(out, written, pads);
    WroteThen(old(out[..]), before, out[..], 0, Characters(input, a), pads);
    assert Encoding(input, a, pad) == Characters(input, a) + pads;
    return Ok(needed.value);
  }

  lemma EncodedLenIs(input: seq<Byte>, a: Alphabet, pad: bool)
    ensures EncodedLen(|input|, pad).Some? ==> EncodedLen(|input|, pad).value == |Encoding(input, a, pad)|
  {
    CharactersLength(input, a);
  }

  lemma WroteNothing(was: seq<Byte>, at: nat)
    requires at <= |was|
    ensures Wrote(was, was, at, [])
  {
  }

  lemma Assoc<T>(a: seq<T>, b: seq<T>, c: seq<T>)
    ensures a + (b + c) == (a + b) + c
  {
  }

  method Encode(input: seq<Byte>, a: Alphabet, pad: bool) returns (text: seq<Byte>)
    requires |input| <= ISIZE_MAX
    ensures text == Encoding(input, a, pad)
  {
    EncodedLenFits(|input|, pad);
    var needed := EncodedLen(|input|, pad);
    var out := new Byte[if needed.Some? then needed.value else 0](_ => 0);
    var written := EncodeSlice(input, a, pad, out);
    return if written.Ok? then out[..written.value] else [];
  }

  /** The encoding of a slice always has a length. */
  lemma EncodedLenFits(len: nat, pad: bool)
    requires len <= ISIZE_MAX
    ensures EncodedLen(len, pad).Some?
  {
  }

  /** Some values before others. */
  function Prefixed(values: seq<Byte>, more: Result<seq<Byte>, DecodeError>): Result<seq<Byte>, DecodeError> {
    match more case Ok(rest) => Ok(values + rest) case Err(e) => Err(e)
  }

  lemma PrefixedStep(values: seq<Byte>, v: Byte, more: Result<seq<Byte>, DecodeError>)
    ensures Prefixed(values, Prefixed([v], more)) == Prefixed(values + [v], more)
  {
    if more.Ok? { assert values + ([v] + more.value) == values + [v] + more.value; }
  }

  /** The values of up to four characters, the missing ones zero. */
  method ReadValues(chunk: seq<Byte>, base: nat, a: Alphabet) returns (r: Result<seq<Byte>, DecodeError>)
    requires |chunk| <= 4
    ensures r.Err? ==> Values(chunk, base, a) == r
    ensures r.Ok? ==> |r.value| == 4 && Values(chunk, base, a) == Ok(r.value[..|chunk|])
  {
    hide Value, Values, Prefixed;
    var out: seq<Byte> := [0, 0, 0, 0];
    ghost var done: seq<Byte> := [];
    PrefixedNone(Values(chunk, base, a));
    assert chunk[0..] == chunk;
    for k := 0 to |chunk|
      invariant |out| == 4 && done == out[..k]
      invariant Values(chunk, base, a) == Prefixed(done, Values(chunk[k..], base + k, a))
    {
      var v := Value(a, chunk[k]);
      ValuesStep(chunk[k..], base + k, a);
      assert chunk[k..][1..] == chunk[k + 1..];
      if v.None? {
        PrefixedErr(done, InvalidByte(base + k, chunk[k]));
        return Err(InvalidByte(base + k, chunk[k]));
      }
      PrefixedStep(done, v.value, Values(chunk[k + 1..], base + k + 1, a));
      out := out[k := v.value];
      done := done + [v.value];
    }
    ValuesNone(done, base + |chunk|, a);
    return Ok(out);
  }

  lemma PrefixedNone(more: Result<seq<Byte>, DecodeError>)
    ensures Prefixed([], more) == more
  {
    if more.Ok? { assert [] + more.value == more.value; }
  }

  lemma ValuesNone(values: seq<Byte>, base: nat, a: Alphabet)
    ensures Prefixed(values, Values([], base, a)) == Ok(values)
  {
    assert values + [] == values;
  }

  lemma PrefixedErr(values: seq<Byte>, e: DecodeError)
    ensures Prefixed(values, Err(e)) == Err(e)
  {
  }

  lemma ValuesStep(chunk: seq<Byte>, base: nat, a: Alphabet)
    requires chunk != []
    ensures Values(chunk, base, a) ==
            if Value(a, chunk[0]).None? then Err(InvalidByte(base, chunk[0]))
            else Prefixed([Value(a, chunk[0]).value], Values(chunk[1..], base + 1, a))
  {
  }

  /** Writes some bytes one by one at the cursor, as long as the buffer holds them. */
  method PutBytes(out: array<Byte>, from: nat, bytes: seq<Byte>) returns (r: Result<nat, DecodeError>)
    requires from <= out.Length
    modifies out
    ensures r == if from + |bytes| <= out.Length then Ok(from + |bytes|) else Err(Full)
    ensures r.Ok? ==> Wrote(old(out[..]), out[..], from, bytes)
  {
    hide Wrote;
    ghost var was := out[..];
    WroteNothing(was, from);
    for k := 0 to |bytes|
      invariant from + k <= out.Length
      invariant Wrote(was, out[..], from, bytes[..k])
    {
      if from + k == out.Length { return Err(Full); }
      ghost var before := out[..];
      WriteByte(out, from + k, bytes[k]);
      WroteThen(was, before, out[..], from, bytes[..k], [bytes[k]]);
      assert bytes[..k] + [bytes[k]] == bytes[..k + 1];
    }
    assert bytes[..|bytes|] == bytes;
    return Ok(from + |bytes|);
  }

  lemma QuantumStep(
      data: seq<Byte>, at: nat, pads: nat, padded: bool, a: Alphabet, written: seq<Byte>, capacity: nat)
    requires at + 4 <= |data|
    ensures var next := match Values(data[at..at + 4], at, a)
                        case Err(e) => Err(e)
                        case Ok(v) => Put(written, Octets(v), capacity);
            DecodeFrom(data, at, pads, padded, a, written, capacity)
            == if next.Err? then Err(next.error) else DecodeFrom(data, at + 4, pads, padded, a, next.value, capacity)
  {
    hide Values, Octets, DecodeTail;
  }

  lemma LastStep(
      data: seq<Byte>, at: nat, pads: nat, padded: bool, a: Alphabet, written: seq<Byte>, capacity: nat)
    requires at <= |data| < at + 4
    ensures DecodeFrom(data, at, pads, padded, a, written, capacity)
         == DecodeTail(data[at..], at, pads, padded, a, written, capacity)
  {
    hide DecodeTail;
  }

  lemma DecodingSplits(input: seq<Byte>, a: Alphabet, padded: bool, capacity: nat)
    ensures var split := SplitPadding(input, padded);
            Decoding(input, a, padded, capacity)
            == if split.Err? then Err(split.error)
               else DecodeFrom(split.value.0, 0, split.value.1, padded, a, [], capacity)
  {
  }

  method DecodeSlice(input: seq<Byte>, a: Alphabet, padded: bool, out: array<Byte>) returns (r: Result<nat, DecodeError>)
    modifies out
    ensures var bytes := Decoding(input, a, padded, out.Length);
            if bytes.Err? then r == Err(bytes.error)
            else r == Ok(|bytes.value|) && Wrote(old(out[..]), out[..], 0, bytes.value)
  {
    hide Values, Octets, Wrote, Decoding, DecodeFrom, DecodeTail, SplitPadding;
    DecodingSplits(input, a, padded, out.Length);
    var split := SplitPadding(input, padded);
    if split.Err? { return Err(split.error); }
    var (data, pads) := split.value;
    ghost var was, done := out[..], [];
    WroteNothing(was, 0);
    var written, at := 0, 0;
    while at + 4 <= |data|
      invariant at <= |data| && written == |done| <= out.Length
      invariant DecodeFrom(data, 0, pads, padded, a, [], out.Length)
             == DecodeFrom(data, at, pads, padded, a, done, out.Length)
      invariant Wrote(was, out[..], 0, done)
    {
      QuantumStep(data, at, pads, padded, a, done, out.Length);
      var v := ReadValues(data[at..at + 4], at, a);
      if v.Err? { return Err(v.error); }
      assert v.value[..4] == v.value;
      var bytes := Octets(v.value);
      ghost var before := out[..];
      var put := PutBytes(out, written, bytes);
      if put.Err? { return Err(put.error); }
      WroteThen(was, before, out[..], 0, done, bytes);
      done := done + bytes;
      written, at := put.value, at + 4;
    }
    LastStep(data, at, pads, padded, a, done, out.Length);
    var bytes := TailBytes(data[at..], at, pads, padded, a, done, out.Length);
    if bytes.Err? { return Err(bytes.error); }
    ghost var before := out[..];
    r := PutBytes(out, written, bytes.value);
    if r.Ok? { WroteThen(was, before, out[..], 0, done, bytes.value); }
  }

  /** The bytes of the last, incomplete quantum. */
  method TailBytes(
      rest: seq<Byte>, base: nat, pads: nat, padded: bool, a: Alphabet, ghost done: seq<Byte>, ghost capacity: nat)
    returns (r: Result<seq<Byte>, DecodeError>)
    requires |rest| < 4 && |done| <= capacity
    ensures DecodeTail(rest, base, pads, padded, a, done, capacity)
         == if r.Ok? then Put(done, r.value, capacity) else Err(r.error)
  {
    hide Values, Octet0, Octet1, Octet2;
    if |rest| == 0 {
      if pads != 0 { return Err(InvalidPadding); }
      assert done + [] == done;
      return Ok([]);
    }
    if |rest| == 1 { return Err(InvalidLength); }
    if padded && pads != 4 - |rest| { return Err(InvalidPadding); }
    var v := ReadValues(rest, base, a);
    if v.Err? { return Err(v.error); }
    if |rest| == 2 {
      if v.value[1] & 0x0F != 0 { return Err(NonZeroPadBits); }
      return Ok([Octet0(v.value[0], v.value[1])]);
    }
    if v.value[2] & 0x03 != 0 { return Err(NonZeroPadBits); }
    return Ok([Octet0(v.value[0], v.value[1]), Octet1(v.value[1], v.value[2])]);
  }

  method Decode(input: seq<Byte>, a: Alphabet, padded: bool) returns (r: Result<seq<Byte>, DecodeError>)
    ensures r == Decoding(input, a, padded, DecodedLen(|input|))
  {
    var out := new Byte[DecodedLen(|input|)](_ => 0);
    var written := DecodeSlice(input, a, padded, out);
    match written {
      case Ok(n) =>
        assert out[..n] == Decoding(input, a, padded, out.Length).value;
        return Ok(out[..n]);
      case Err(e) => return Err(e);
    }
  }
}
