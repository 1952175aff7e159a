/** That the decoder accepts exactly the image of the encoder: one accepted spelling for all the
    bytes, alphabets and padding modes (sections 3.2, 3.3, 3.5, 4 and 5 of RFC 4648). */
module Base64Proofs {
  import opened Wrappers
  import opened Base64

  /** That the padding of a text goes with the length of its characters. */
  predicate PadsFit(characters: nat, pads: nat, padded: bool) {
    match characters % 4
    case 0 => pads == 0
    case 2 => padded ==> pads == 2
    case 3 => padded ==> pads == 1
    case _ => true
  }

  lemma ValuesOf(chunk: seq<Byte>, vs: seq<Byte>, base: nat, a: Alphabet)
    requires |chunk| == |vs| && forall k :: 0 <= k < |vs| ==> vs[k] < 64 && chunk[k] == Char(a, vs[k])
    ensures Values(chunk, base, a) == Ok(vs)
  {
    hide Char, Value;
    forall k | 0 <= k < |vs| ensures Value(a, chunk[k]) == Some(vs[k]) {
      ValueInvertsChar(a, chunk[k], vs[k]);
    }
    var r := Values(chunk, base, a);
    assert r.Ok? && r.value == vs;
  }

  /** The characters of a last, incomplete quantum decode to its bytes. */
  lemma TailDecodes(
      rest: seq<Byte>, base: nat, pads: nat, padded: bool, a: Alphabet, written: seq<Byte>, capacity: nat, d: seq<Byte>)
    requires |d| < 3 && Characters(d, a) == rest && |rest| < 4 && PadsFit(|rest|, pads, padded) && |written| <= capacity
    ensures DecodeTail(rest, base, pads, padded, a, written, capacity) == Put(written, d, capacity)
  {
    hide Char, Value, Sextet0, Sextet1, Sextet2, Octet0, Octet1;
    if |d| == 1 {
      assert d == [d[0]];
      OneDecodes(d[0], base, pads, padded, a, written, capacity);
    } else if |d| == 2 {
      assert d == [d[0], d[1]];
      TwoDecode(d[0], d[1], base, pads, padded, a, written, capacity);
    } else {
      assert d == [] && written + [] == written;
    }
  }

  lemma OneDecodes(
      d: Byte, base: nat, pads: nat, padded: bool, a: Alphabet, written: seq<Byte>, capacity: nat)
    requires PadsFit(2, pads, padded)
    ensures DecodeTail(Characters([d], a), base, pads, padded, a, written, capacity) == Put(written, [d], capacity)
  {
    hide Char, Value, Values, Sextet0, Sextet1, Sextet2, Octet0, Octet1, Put;
    OctetsOfSextets(d, 0, 0);
    ValuesOf(Characters([d], a), [Sextet0(d), Sextet1(d, 0)], base, a);
  }

  lemma TwoDecode(
      d: Byte, e: Byte, base: nat, pads: nat, padded: bool, a: Alphabet, written: seq<Byte>, capacity: nat)
    requires PadsFit(3, pads, padded)
    ensures DecodeTail(Characters([d, e], a), base, pads, padded, a, written, capacity) == Put(written, [d, e], capacity)
  {
    hide Char, Value, Values, Sextet0, Sextet1, Sextet2, Octet0, Octet1, Put;
    OctetsOfSextets(d, e, 0);
    OctetsOfSextets(e, 0, 0);
    ValuesOf(Characters([d, e], a), [Sextet0(d), Sextet1(d, e), Sextet2(e, 0)], base, a);
  }

  /** What a last quantum decodes to has it as its characters. */
  lemma TailEncodes(
      rest: seq<Byte>, base: nat, pads: nat, padded: bool, a: Alphabet, written: seq<Byte>, capacity: nat, d: seq<Byte>)
    requires |rest| < 4 && DecodeTail(rest, base, pads, padded, a, written, capacity) == Ok(written + d)
    requires |written| <= capacity
    ensures |d| < 3 && Characters(d, a) == rest && PadsFit(|rest|, pads, padded) && |written| + |d| <= capacity
  {
    hide Char, Value, Sextet0, Sextet1, Sextet2, Octet0, Octet1;
    if |rest| > 0 {
      var v := Values(rest, base, a).value;
      forall k | 0 <= k < |rest| ensures v[k] < 64 && rest[k] == Char(a, v[k]) {
        ValueInvertsChar(a, rest[k], v[k]);
      }
      if |rest| == 2 {
        SextetsOfOctets(v[0], v[1], 0, 0);
        Appended(written, d, [Octet0(v[0], v[1])]);
      } else {
        SextetsOfOctets(v[0], v[1], v[2], 0);
        Appended(written, d, [Octet0(v[0], v[1]), Octet1(v[1], v[2])]);
      }
    } else {
      Appended(written, d, []);
    }
  }

  lemma Appended<T>(a: seq<T>, b: seq<T>, c: seq<T>)
    requires a + b == if c == [] then a else a + c
    ensures b == c
  {
    assert b == (a + b)[|a|..];
    assert c == (a + c)[|a|..];
  }

  // ----- Characters without padding -----

  /** The characters of some bytes decode to them, or overrun the buffer. */
  lemma {:induction false} CharactersDecode(
      data: seq<Byte>, at: nat, pads: nat, padded: bool, a: Alphabet, written: seq<Byte>, capacity: nat, d: seq<Byte>)
    requires at <= |data| && Characters(d, a) == data[at..] && PadsFit(|data| - at, pads, padded) && |written| <= capacity
    ensures DecodeFrom(data, at, pads, padded, a, written, capacity)
         == if |written| + |d| <= capacity then Ok(written + d) else Err(Full)
    decreases |data| - at
  {
    hide DecodeFrom, Characters;
    if |d| < 3 {
      CharactersLength(d, a);
      LastStep(data, at, pads, padded, a, written, capacity);
      TailDecodes(data[at..], at, pads, padded, a, written, capacity, d);
    } else {
      QuantumFirst(data, at, a, d);
      QuantumDecodes(data, at, pads, padded, a, written, capacity, d[0], d[1], d[2]);
      if |written| + 3 <= capacity {
        CharactersDecode(data, at + 4, pads, padded, a, written + d[..3], capacity, d[3..]);
        assert written + d[..3] + d[3..] == written + d;
      }
    }
  }

  /** Fewer than four characters are the last quantum. */
  lemma DecodeQuantum(
      data: seq<Byte>, at: nat, pads: nat, padded: bool, a: Alphabet, written: seq<Byte>, capacity: nat, v: seq<Byte>)
    requires at + 4 <= |data| && |v| == 4 && Values(data[at..at + 4], at, a) == Ok(v)
    ensures DecodeFrom(data, at, pads, padded, a, written, capacity)
         == if |written| + 3 <= capacity then DecodeFrom(data, at + 4, pads, padded, a, written + Octets(v), capacity)
            else Err(Full)
  {
    hide Values, Octets, DecodeTail;
  }

  lemma QuantumFirst(data: seq<Byte>, at: nat, a: Alphabet, d: seq<Byte>)
    requires at <= |data| && |d| >= 3 && Characters(d, a) == data[at..]
    ensures at + 4 <= |data| && data[at..at + 4] == Quantum(d[0], d[1], d[2], a)
    ensures data[at + 4..] == Characters(d[3..], a) && d[..3] == [d[0], d[1], d[2]]
  {
    hide Char, Sextet0, Sextet1, Sextet2, Sextet3;
    var quantum := Quantum(d[0], d[1], d[2], a);
    assert data[at..] == quantum + Characters(d[3..], a);
    assert data[at..at + 4] == data[at..][..4];
    assert data[at + 4..] == data[at..][4..];
  }

  lemma QuantumDecodes(
      data: seq<Byte>, at: nat, pads: nat, padded: bool, a: Alphabet, written: seq<Byte>, capacity: nat,
      x: Byte, y: Byte, z: Byte)
    requires at + 4 <= |data| && data[at..at + 4] == Quantum(x, y, z, a)
    ensures DecodeFrom(data, at, pads, padded, a, written, capacity)
         == if |written| + 3 <= capacity then DecodeFrom(data, at + 4, pads, padded, a, written + [x, y, z], capacity)
            else Err(Full)
  {
    hide Char, Sextet0, Sextet1, Sextet2, Sextet3, Octet0, Octet1, Octet2, Values, DecodeFrom;
    var v := [Sextet0(x), Sextet1(x, y), Sextet2(y, z), Sextet3(z)];
    OctetsOfSextets(x, y, z);
    ValuesOf(Quantum(x, y, z, a), v, at, a);
    DecodeQuantum(data, at, pads, padded, a, written, capacity, v);
    assert Octets(v) == [x, y, z];
  }

  /** What decodes are the characters of what it decodes to. */
  lemma {:induction false} DecodedCharacters(
      data: seq<Byte>, at: nat, pads: nat, padded: bool, a: Alphabet, written: seq<Byte>, capacity: nat) returns (d: seq<Byte>)
    requires at <= |data| && |written| <= capacity
    requires DecodeFrom(data, at, pads, padded, a, written, capacity).Ok?
    ensures DecodeFrom(data, at, pads, padded, a, written, capacity) == Ok(written + d)
    ensures Characters(d, a) == data[at..] && PadsFit(|data| - at, pads, padded) && |written| + |d| <= capacity
    decreases |data| - at
  {
    hide DecodeFrom, Characters;
    if at + 4 > |data| {
      LastStep(data, at, pads, padded, a, written, capacity);
      d := TailDecoded(data[at..], at, pads, padded, a, written, capacity);
    } else {
      var x, y, z := DecodedQuantum(data, at, pads, padded, a, written, capacity);
      var rest := DecodedCharacters(data, at + 4, pads, padded, a, written + [x, y, z], capacity);
      d := [x, y, z] + rest;
      assert written + [x, y, z] + rest == written + d;
      QuantumThen(data, at, a, x, y, z, rest);
    }
  }

  lemma QuantumThen(data: seq<Byte>, at: nat, a: Alphabet, x: Byte, y: Byte, z: Byte, rest: seq<Byte>)
    requires at + 4 <= |data| && data[at..at + 4] == Quantum(x, y, z, a) && Characters(rest, a) == data[at + 4..]
    ensures Characters([x, y, z] + rest, a) == data[at..]
  {
    hide Char, Sextet0, Sextet1, Sextet2, Sextet3;
    assert ([x, y, z] + rest)[3..] == rest;
    assert data[at..] == data[at..at + 4] + data[at + 4..];
  }

  lemma DecodedQuantum(
      data: seq<Byte>, at: nat, pads: nat, padded: bool, a: Alphabet, written: seq<Byte>, capacity: nat)
    returns (x: Byte, y: Byte, z: Byte)
    requires at + 4 <= |data| && DecodeFrom(data, at, pads, padded, a, written, capacity).Ok?
    ensures |written| + 3 <= capacity && data[at..at + 4] == Quantum(x, y, z, a)
    ensures DecodeFrom(data, at, pads, padded, a, written, capacity)
         == DecodeFrom(data, at + 4, pads, padded, a, written + [x, y, z], capacity)
  {
    hide Char, Value, Sextet0, Sextet1, Sextet2, Sextet3, Octet0, Octet1, Octet2, DecodeTail, Values;
    var chunk := data[at..at + 4];
    assert Values(chunk, at, a).Ok?;
    var v := Values(chunk, at, a).value;
    forall k | 0 <= k < 4 ensures v[k] < 64 && chunk[k] == Char(a, v[k]) {
      ValueInvertsChar(a, chunk[k], v[k]);
    }
    SextetsOfOctets(v[0], v[1], v[2], v[3]);
    DecodeQuantum(data, at, pads, padded, a, written, capacity, v);
    x, y, z := Octets(v)[0], Octets(v)[1], Octets(v)[2];
    assert Octets(v) == [x, y, z];
    assert chunk == [chunk[0], chunk[1], chunk[2], chunk[3]];
  }

  lemma TailDecoded(
      rest: seq<Byte>, base: nat, pads: nat, padded: bool, a: Alphabet, written: seq<Byte>, capacity: nat) returns (d: seq<Byte>)
    requires |rest| < 4 && |written| <= capacity
    requires DecodeTail(rest, base, pads, padded, a, written, capacity).Ok?
    ensures DecodeTail(rest, base, pads, padded, a, written, capacity) == Ok(written + d)
    ensures Characters(d, a) == rest && PadsFit(|rest|, pads, padded) && |written| + |d| <= capacity
  {
    hide Characters, Octet0, Octet1;
    var r := DecodeTail(rest, base, pads, padded, a, written, capacity).value;
    d := r[|written|..];
    assert r == written + d;
    TailEncodes(rest, base, pads, padded, a, written, capacity, d);
  }

  // ----- Padding -----

  lemma {:induction false} NoPadCharacters(d: seq<Byte>, a: Alphabet)
    ensures forall k :: 0 <= k < |Characters(d, a)| ==> Characters(d, a)[k] != PAD
  {
    hide Char, Sextet0, Sextet1, Sextet2, Sextet3;
    PadHasNoValue(a);
    if |d| == 1 {
      OctetsOfSextets(d[0], 0, 0);
    } else if |d| == 2 {
      OctetsOfSextets(d[0], d[1], 0);
      OctetsOfSextets(d[1], 0, 0);
    } else if |d| >= 3 {
      OctetsOfSextets(d[0], d[1], d[2]);
      NoPadCharacters(d[3..], a);
    }
  }

  lemma {:induction false} TrailingPadsIs(x: seq<Byte>, n: nat)
    requires n <= |x| && (forall k :: |x| - n <= k < |x| ==> x[k] == PAD) && (n < |x| ==> x[|x| - n - 1] != PAD)
    ensures TrailingPads(x) == n
  {
    hide PAD;
    var m := TrailingPads(x);
    assert m < n ==> |x| - n <= |x| - m - 1 < |x|;
  }

  /** Splitting the padding off an encoding gives its characters. */
  lemma EncodingSplits(d: seq<Byte>, a: Alphabet, pad: bool)
    ensures var pads := if pad then Pads(|d|) else 0;
            SplitPadding(Encoding(d, a, pad), pad) == Ok((Characters(d, a), pads))
            && PadsFit(|Characters(d, a)|, pads, pad)
  {
    hide Characters, TrailingPads;
    var chars, pads := Characters(d, a), if pad then Pads(|d|) else 0;
    var x := Encoding(d, a, pad);
    assert x == chars + Padding(pads);
    CharactersLength(d, a);
    NoPadCharacters(d, a);
    assert pads < |x| ==> x[|x| - pads - 1] == chars[|chars| - 1];
    TrailingPadsIs(x, pads);
    assert x[..|x| - pads] == chars;
    assert !pad ==> x == chars;
    assert pad ==> |x| == (|d| / 3 + if |d| % 3 == 0 then 0 else 1) * 4;
  }

  /** A text is its characters and its padding. */
  lemma SplitJoins(x: seq<Byte>, padded: bool)
    requires SplitPadding(x, padded).Ok?
    ensures var (data, pads) := SplitPadding(x, padded).value;
            x == data + Padding(pads) && (!padded ==> pads == 0) && (padded ==> |x| % 4 == 0)
  {
    var (data, pads) := SplitPadding(x, padded).value;
    assert x == data + Padding(pads);
  }

  // ----- The agreement -----

  /** Valid input fails in a buffer exactly when the buffer is too small, and then as full. */
  lemma ValidFailsOnlyFull(x: seq<Byte>, a: Alphabet, padded: bool, capacity: nat, d: seq<Byte>)
    requires Encoding(d, a, padded) == x
    ensures Decoding(x, a, padded, capacity) == if |d| <= capacity then Ok(d) else Err(Full)
  {
    EncodingSplits(d, a, padded);
    var data := Characters(d, a);
    assert data[0..] == data && [] + d == d;
    CharactersDecode(data, 0, if padded then Pads(|d|) else 0, padded, a, [], capacity, d);
  }

  lemma DecodedIsEncoding(x: seq<Byte>, a: Alphabet, padded: bool, capacity: nat)
    requires Decoding(x, a, padded, capacity).Ok?
    ensures var d := Decoding(x, a, padded, capacity).value; Encoding(d, a, padded) == x && |d| <= capacity
  {
    hide DecodeFrom, Characters, SplitPadding, Encoding, PadsFit;
    var (data, pads) := SplitPadding(x, padded).value;
    SplitJoins(x, padded);
    var d := DecodedCharacters(data, 0, pads, padded, a, [], capacity);
    assert data[0..] == data && [] + d == d;
    JoinedIsEncoding(data, pads, padded, a, d);
  }

  lemma JoinedIsEncoding(data: seq<Byte>, pads: nat, padded: bool, a: Alphabet, d: seq<Byte>)
    requires Characters(d, a) == data && PadsFit(|data|, pads, padded) && (!padded ==> pads == 0)
    requires padded ==> |data + Padding(pads)| % 4 == 0
    ensures data + Padding(pads) == Encoding(d, a, padded)
  {
    hide Characters, Pads, PadsFit;
    CharactersLength(d, a);
    if padded {
      assert |data + Padding(pads)| == |data| + pads;
      PadsAre(|d|, |data|, pads);
    }
    assert Padding(0) == [];
  }

  /** As many are missing as a last quantum lacks. */
  lemma PadsAre(n: nat, characters: nat, pads: nat)
    requires characters == n / 3 * 4 + if n % 3 == 0 then 0 else n % 3 + 1
    requires PadsFit(characters, pads, true) && (characters + pads) % 4 == 0
    ensures pads == Pads(n)
  {
    var last := if n % 3 == 0 then 0 else n % 3 + 1;
    assert characters == 4 * (n / 3) + last && 0 <= last < 4;
    assert characters % 4 == last;
    if last == 0 { assert pads == 0; } else if last == 2 { assert pads == 2; } else { assert last == 3 && pads == 1; }
  }

  /** A text decodes to some bytes, in a buffer that holds them, if and only if it is their
      encoding. So the round trip holds, and an encoding has exactly one accepted spelling. */
  lemma DecodesIffEncoding(x: seq<Byte>, a: Alphabet, padded: bool, capacity: nat, d: seq<Byte>)
    ensures Decoding(x, a, padded, capacity) == Ok(d) <==> Encoding(d, a, padded) == x && |d| <= capacity
  {
    hide Decoding, Encoding;
    if Encoding(d, a, padded) == x { ValidFailsOnlyFull(x, a, padded, capacity, d); }
    if Decoding(x, a, padded, capacity) == Ok(d) { DecodedIsEncoding(x, a, padded, capacity); }
  }

  lemma {:induction false} NeverFullFrom(
      data: seq<Byte>, at: nat, pads: nat, padded: bool, a: Alphabet, written: seq<Byte>, capacity: nat)
    requires at <= |data| && at % 4 == 0 && |written| == at / 4 * 3
    requires capacity >= |data| / 4 * 3 + (if |data| % 4 == 2 then 1 else if |data| % 4 == 3 then 2 else 0)
    ensures DecodeFrom(data, at, pads, padded, a, written, capacity) != Err(Full)
    decreases |data| - at
  {
    hide Values, Octets;
    if at + 4 <= |data| {
      var v := Values(data[at..at + 4], at, a);
      if v.Ok? {
        var more := Octets(v.value);
        assert |written + more| == (at + 4) / 4 * 3;
        NeverFullFrom(data, at + 4, pads, padded, a, written + more, capacity);
      }
    } else {
      assert |data| / 4 == at / 4 && |data| % 4 == |data| - at;
    }
  }

  /** A buffer of `decoded_len` bytes is never too small, whatever the input is. */
  lemma DecodedLenNeverFull(x: seq<Byte>, a: Alphabet, padded: bool)
    requires |x| <= ISIZE_MAX
    ensures Decoding(x, a, padded, DecodedLen(|x|)) != Err(Full)
  {
    hide DecodeFrom;
    var split := SplitPadding(x, padded);
    if split.Ok? {
      var (data, pads) := split.value;
      SplitJoins(x, padded);
      NeverFullFrom(data, 0, pads, padded, a, [], DecodedLen(|x|));
    }
  }

  /** `decode` returns some bytes if and only if its input is their encoding. */
  lemma DecodeIffEncode(x: seq<Byte>, a: Alphabet, padded: bool, d: seq<Byte>)
    requires |x| <= ISIZE_MAX
    ensures Decoding(x, a, padded, DecodedLen(|x|)) == Ok(d) <==> Encoding(d, a, padded) == x
  {
    DecodesIffEncoding(x, a, padded, DecodedLen(|x|), d);
    if Encoding(d, a, padded) == x {
      ValidFailsOnlyFull(x, a, padded, DecodedLen(|x|), d);
      DecodedLenNeverFull(x, a, padded);
    }
  }

  // ----- The characters -----

  /** The character of a byte. */
  function Ascii(byte: Byte): char { (byte as int) as char }

  /** The alphabets: the capital letters, the small letters, the digits, and two that differ; the pad
      is an equals sign. */
  lemma AlphabetIs(a: Alphabet, v: Byte)
    ensures v < 26 ==> Ascii(Char(a, v)) == ('A' as int + v as int) as char
    ensures 26 <= v < 52 ==> Ascii(Char(a, v)) == ('a' as int + (v as int - 26)) as char
    ensures 52 <= v < 62 ==> Ascii(Char(a, v)) == ('0' as int + (v as int - 52)) as char
    ensures Ascii(Char(a, 62)) == (if a == UrlSafe then '-' else '+') && Ascii(Char(a, 63)) == (if a == UrlSafe then '_' else '/')
    ensures Ascii(PAD) == '='
  {
  }

  /** The four values of a quantum are its three bytes as one number of 24 bits, six bits each from
      the highest on; of a shorter one the bits that are missing are zeros. */
  lemma SextetsAreBits(x: Byte, y: Byte, z: Byte)
    ensures ((Sextet0(x) as bv24) << 18) | ((Sextet1(x, y) as bv24) << 12) | ((Sextet2(y, z) as bv24) << 6) | (Sextet3(z) as bv24)
         == ((x as bv24) << 16) | ((y as bv24) << 8) | (z as bv24)
  {
  }

  /** The text of some bytes. */
  function TextOf(bytes: seq<Byte>): seq<char> { seq(|bytes|, k requires 0 <= k < |bytes| => Ascii(bytes[k])) }

  /** The first test vectors of section 10 of RFC 4648, and the two alphabets on their last values. */
  lemma Vectors()
    ensures Encoding([], Standard, true) == []
    ensures TextOf(Encoding([0x66], Standard, true)) == ['Z', 'g', '=', '=']
    ensures TextOf(Encoding([0x66, 0x6F], Standard, true)) == ['Z', 'm', '8', '=']
    ensures TextOf(Encoding([0x66, 0x6F, 0x6F], Standard, true)) == ['Z', 'm', '9', 'v']
    ensures TextOf(Encoding([0x66, 0x6F], Standard, false)) == ['Z', 'm', '8']
  {
    var foo: seq<Byte> := [0x66, 0x6F, 0x6F];
    assert foo[3..] == [];
    assert Characters(foo, Standard) == Quantum(0x66, 0x6F, 0x6F, Standard) + Characters([], Standard);
  }

  /** A padded encoding has a length in fours, and ends in as many equals signs as its last quantum
      lacks: none, one, or two. */
  lemma PaddedInFours(d: seq<Byte>, a: Alphabet)
    ensures var x := Encoding(d, a, true); var pads := (3 - |d| % 3) % 3;
            && |x| % 4 == 0 && pads < 3 && pads <= |x|
            && forall k :: |x| - pads <= k < |x| ==> Ascii(x[k]) == '='
  {
    hide Characters;
    CharactersLength(d, a);
    var chars := Characters(d, a);
    FoursFit(|d|, |chars|);
  }

  lemma FoursFit(n: nat, characters: nat)
    requires characters == n / 3 * 4 + if n % 3 == 0 then 0 else n % 3 + 1
    ensures (characters + Pads(n)) % 4 == 0 && Pads(n) == (3 - n % 3) % 3
  {
  }

  /** The lengths that a caller asks for are exact: of what is encoded the length of the encoding, if
      an array can hold it, and of an unpadded encoding the length of what it decodes to; of a padded
      one that and its padding. */
  lemma LengthsAre(d: seq<Byte>, a: Alphabet, pad: bool)
    requires |d| <= 0x7FFF_FFFF_FFFF_FFFF
    ensures EncodedLen(|d|, pad) == Some(|Encoding(d, a, pad)|)
    ensures DecodedLen(|Encoding(d, a, pad)|) == |d| + if pad then Pads(|d|) else 0
  {
    hide Characters;
    CharactersLength(d, a);
    LengthsOf(|d|, pad);
  }

  lemma LengthsOf(n: nat, pad: bool)
    requires n <= 0x7FFF_FFFF_FFFF_FFFF
    ensures var tail := if n % 3 == 0 then 0 else n % 3 + 1;
            var len := n / 3 * 4 + tail + if pad then Pads(n) else 0;
            EncodedLen(n, pad) == Some(len) && DecodedLen(len) == n + if pad then Pads(n) else 0
  {
    var q, r := n / 3, n % 3;
    var tail := if r == 0 then 0 else r + 1;
    assert n == 3 * q + r;
    var len := q * 4 + tail + if pad then Pads(n) else 0;
    if r == 0 || !pad {
      assert len / 4 == q && len % 4 == tail;
    } else {
      assert len == (q + 1) * 4;
    }
  }

  /** There is no encoded length if and only if it would be over the largest of 64 bits. */
  lemma LengthTooLong(n: nat, pad: bool)
    ensures EncodedLen(n, pad).None?
       <==> n / 3 * 4 + (if n % 3 == 0 then 0 else if pad then 4 else n % 3 + 1) > 0xFFFF_FFFF_FFFF_FFFF
  {
  }

  // ----- What is refused -----

  /** A byte outside the alphabet is refused at its offset, if it is the first. */
  lemma {:induction false} ValuesFirst(chunk: seq<Byte>, base: nat, a: Alphabet, j: nat)
    requires j < |chunk| && Value(a, chunk[j]).None? && forall i :: 0 <= i < j ==> Value(a, chunk[i]).Some?
    ensures Values(chunk, base, a) == Err(InvalidByte(base + j, chunk[j]))
    decreases |chunk|
  {
    hide Value;
    if j > 0 { ValuesFirst(chunk[1..], base + 1, a, j - 1); }
  }

  /** Quanta of characters are decoded, up to the last, incomplete one. */
  lemma {:induction false} TailReached(
      data: seq<Byte>, at: nat, pads: nat, padded: bool, a: Alphabet, written: seq<Byte>, capacity: nat) returns (done: seq<Byte>)
    requires at <= |data| && at % 4 == 0 && (forall i :: at <= i < |data| / 4 * 4 ==> Value(a, data[i]).Some?)
    requires |written| + (|data| / 4 * 4 - at) / 4 * 3 <= capacity
    ensures |done| == |written| + (|data| / 4 * 4 - at) / 4 * 3
    ensures var end := |data| / 4 * 4;
            DecodeFrom(data, at, pads, padded, a, written, capacity) == DecodeTail(data[end..], end, pads, padded, a, done, capacity)
    decreases |data| - at
  {
    hide Value, Values, Octets, DecodeFrom, DecodeTail;
    if at + 4 <= |data| {
      QuantumStep(data, at, pads, padded, a, written, capacity);
      var chunk := data[at..at + 4];
      assert forall i :: 0 <= i < 4 ==> chunk[i] == data[at + i];
      AllValued(chunk, at, a);
      done := TailReached(data, at + 4, pads, padded, a, written + Octets(Values(chunk, at, a).value), capacity);
    } else {
      LastStep(data, at, pads, padded, a, written, capacity);
      done := written;
    }
  }

  lemma AllValued(chunk: seq<Byte>, base: nat, a: Alphabet)
    requires forall i :: 0 <= i < |chunk| ==> Value(a, chunk[i]).Some?
    ensures Values(chunk, base, a).Ok?
  {
    hide Value;
  }

  /** Which texts are refused for their padding: a padded one whose length is not in fours or that ends
      in more than two pads, and one with padding where none is expected. */
  lemma PaddingRefused(x: seq<Byte>, a: Alphabet, padded: bool, capacity: nat)
    ensures padded && |x| % 4 != 0 ==> Decoding(x, a, padded, capacity) == Err(InvalidLength)
    ensures padded && |x| % 4 == 0 && |x| >= 3 && x[|x| - 3] == x[|x| - 2] == x[|x| - 1] == 61
        ==> Decoding(x, a, padded, capacity) == Err(InvalidPadding)
    ensures !padded && x != [] && x[|x| - 1] == 61 ==> Decoding(x, a, padded, capacity) == Err(InvalidPadding)
  {
    hide DecodeFrom;
  }

  /** One character left over is refused. */
  lemma LengthRefused(x: seq<Byte>, a: Alphabet, capacity: nat)
    requires |x| % 4 == 1 && |x| / 4 * 3 <= capacity && forall i :: 0 <= i < |x| ==> Value(a, x[i]).Some?
    ensures Decoding(x, a, false, capacity) == Err(InvalidLength)
  {
    hide Value, Values, DecodeFrom, SplitPadding;
    NoPadding(x, a);
    var done := TailReached(x, 0, 0, false, a, [], capacity);
  }

  lemma NoPadding(x: seq<Byte>, a: Alphabet)
    requires x != [] ==> Value(a, x[|x| - 1]).Some?
    ensures SplitPadding(x, false) == Ok((x, 0))
  {
    PadHasNoValue(a);
    hide Value;
  }

  /** Without padding, the first byte outside the alphabet is refused at its offset, unless it is a last
      character alone or the padding character. */
  lemma FirstByteRefused(x: seq<Byte>, a: Alphabet, capacity: nat, k: nat)
    requires k < |x| && Value(a, x[k]).None? && (forall i :: 0 <= i < k ==> Value(a, x[i]).Some?)
    requires k / 4 * 3 <= capacity && x[|x| - 1] != 61 && (|x| % 4 == 1 ==> k < |x| - 1)
    ensures Decoding(x, a, false, capacity) == Err(InvalidByte(k, x[k]))
  {
    hide Value, Values, DecodeFrom;
    assert TrailingPads(x) == 0;
    ByteRefused(x, 0, a, [], capacity, k);
  }

  lemma {:induction false} ByteRefused(data: seq<Byte>, at: nat, a: Alphabet, written: seq<Byte>, capacity: nat, k: nat)
    requires at <= k < |data| && at % 4 == 0 && Value(a, data[k]).None? && (forall i :: at <= i < k ==> Value(a, data[i]).Some?)
    requires |written| + (k - at) / 4 * 3 <= capacity && (|data| % 4 == 1 ==> k < |data| - 1)
    ensures DecodeFrom(data, at, 0, false, a, written, capacity) == Err(InvalidByte(k, data[k]))
    decreases |data| - at
  {
    hide Value, Values, Octets, DecodeFrom;
    var chunk := if at + 4 <= |data| then data[at..at + 4] else data[at..];
    assert forall i :: 0 <= i < |chunk| ==> chunk[i] == data[at + i];
    if at + 4 <= k {
      QuantumStep(data, at, 0, false, a, written, capacity);
      AllValued(chunk, at, a);
      ByteRefused(data, at + 4, a, written + Octets(Values(chunk, at, a).value), capacity, k);
    } else {
      ValuesFirst(chunk, at, a, k - at);
      if at + 4 <= |data| {
        QuantumStep(data, at, 0, false, a, written, capacity);
      } else {
        LastStep(data, at, 0, false, a, written, capacity);
      }
    }
  }

  /** Bits that the last quantum does not use have to be zeros. */
  lemma BitsRefused(x: seq<Byte>, a: Alphabet, capacity: nat)
    requires |x| % 4 >= 2 && (forall i :: 0 <= i < |x| ==> Value(a, x[i]).Some?) && |x| / 4 * 3 <= capacity
    requires Value(a, x[|x| - 1]).value & (if |x| % 4 == 2 then 0x0F else 0x03) != 0
    ensures Decoding(x, a, false, capacity) == Err(NonZeroPadBits)
  {
    hide Value, Values, DecodeFrom;
    NoPadding(x, a);
    var done := TailReached(x, 0, 0, false, a, [], capacity);
    var end := |x| / 4 * 4;
    var rest := x[end..];
    assert rest[|rest| - 1] == x[|x| - 1];
    AllValued(rest, end, a);
  }
}
