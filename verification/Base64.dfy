/** Base 64 text (section 4 of RFC 4648): the encoder and the decoder, group by group, against streams of bits. */
module Base64 {
  import opened BitStream
  import opened Common

  const PAD: bv8 := 0x3D // '='

  // ----- the alphabet -----

  function Base64Char(val: bv8): bv8 {
    if val < 26 then 0x41 + val // 'A'
    else if val < 52 then 0x61 + (val - 26) // 'a'
    else if val < 62 then 0x30 + (val - 52) // '0'
    else if val == 62 then 0x2B // '+'
    else 0x2F // '/'
  }

  /** The value of a character, if it has one. The NUL at the end of a C string has none. */
  function ToValue(c: bv8): Option<bv8> {
    if 0x41 <= c <= 0x5A then Some(c - 0x41)
    else if 0x61 <= c <= 0x7A then Some(26 + (c - 0x61))
    else if 0x30 <= c <= 0x39 then Some(52 + (c - 0x30))
    else if c == 0x2B then Some(62)
    else if c == 0x2F then Some(63)
    else None
  }

  /** The alphabet and the values are inverse to each other, and padding is not in the alphabet. */
  lemma Alphabet(val: bv8, c: bv8)
    ensures val < 64 ==> ToValue(Base64Char(val)) == Some(val)
    ensures ToValue(c).Some? ==> ToValue(c).value < 64 && Base64Char(ToValue(c).value) == c
    ensures ToValue(PAD).None?
  {}

  /** The alphabet is that of table 1 of RFC 4648: its four rows begin and end as they should, with each character next
      to the one before. */
  lemma AlphabetRows(val: bv8)
    ensures Base64Char(0) == 'A' as bv8 && Base64Char(25) == 'Z' as bv8
    ensures Base64Char(26) == 'a' as bv8 && Base64Char(51) == 'z' as bv8
    ensures Base64Char(52) == '0' as bv8 && Base64Char(61) == '9' as bv8
    ensures Base64Char(62) == '+' as bv8 && Base64Char(63) == '/' as bv8 && PAD == '=' as bv8
    ensures val < 61 && val !in {25, 51} ==> Base64Char(val + 1) == Base64Char(val) + 1
  {}

  /** Four characters packed in a word. */
  function JoinChars(a: bv8, b: bv8, c: bv8, d: bv8): bv32 {
    (a as bv32) + ((b as bv32) << 8) + ((c as bv32) << 16) + ((d as bv32) << 24)
  }

  function SplitInt(word: bv32, bytePos: bv8): bv8
    requires bytePos < 4
  {
    ((word >> (bytePos << 3)) & 0xFF) as bv8
  }

  /** The last character for four left-over bits, from a packed table. */
  function Base64B16(val: bv8): (c: bv8)
    requires val < 16
    ensures c == Base64Char(val << 2)
  {
    var row := val >> 2;
    SplitInt(if row == 0 then JoinChars(0x41, 0x45, 0x49, 0x4D) // A E I M
             else if row == 1 then JoinChars(0x51, 0x55, 0x59, 0x63) // Q U Y c
             else if row == 2 then JoinChars(0x67, 0x6B, 0x6F, 0x73) // g k o s
             else JoinChars(0x77, 0x30, 0x34, 0x38), // w 0 4 8
             val & 3)
  }

  /** The last character for two left-over bits, from a packed table. */
  function Base64B8(val: bv8): (c: bv8)
    requires val < 4
    ensures c == Base64Char(val << 4)
  {
    SplitInt(JoinChars(0x41, 0x51, 0x67, 0x77), val) // A Q g w
  }

  // ----- the encoding -----

  /** Six bits of some bytes. */
  function Sextet(bytes: seq<bv8>, k: nat): (v: bv8)
    ensures v < 64
  {
    Number6(BitOf8(bytes, 6 * k), BitOf8(bytes, 6 * k + 1), BitOf8(bytes, 6 * k + 2),
            BitOf8(bytes, 6 * k + 3), BitOf8(bytes, 6 * k + 4), BitOf8(bytes, 6 * k + 5))
  }

  /** Character `k` of the text, behind the last bits padding. */
  function SextetChar(bytes: seq<bv8>, k: nat): bv8 {
    if 6 * k < 8 * |bytes| then Base64Char(Sextet(bytes, k)) else PAD
  }

  /** The base 64 text of some bytes: it spells their bits six by six, and is padded to a multiple of four. */
  ghost function Encoding(bytes: seq<bv8>): (text: seq<bv8>)
    ensures |text| == (|bytes| + 2) / 3 * 4
  {
    seq((|bytes| + 2) / 3 * 4, k requires 0 <= k => SextetChar(bytes, k))
  }

  lemma EncodingAt(bytes: seq<bv8>, k: nat)
    requires k < |Encoding(bytes)|
    ensures Encoding(bytes)[k] == SextetChar(bytes, k)
  {}

  lemma BitsFrom(bytes: seq<bv8>, at: nat, i: nat)
    requires at <= |bytes|
    ensures BitOf8(bytes, 8 * at + i) == BitOf8(bytes[at..], i)
  {
    hide Has;
    assert (8 * at + i) / 8 == at + i / 8 && (8 * at + i) % 8 == i % 8;
  }

  /** Groups of three bytes and of four characters go together. */
  lemma SextetsFrom(bytes: seq<bv8>, q: nat, k: nat)
    requires 3 * q <= |bytes|
    ensures Sextet(bytes, 4 * q + k) == Sextet(bytes[3 * q..], k)
  {
    hide BitOf8, Number6;
    var i := 6 * k;
    assert 6 * (4 * q + k) == 8 * (3 * q) + i;
    BitsFrom(bytes, 3 * q, i);
    BitsFrom(bytes, 3 * q, i + 1);
    BitsFrom(bytes, 3 * q, i + 2);
    BitsFrom(bytes, 3 * q, i + 3);
    BitsFrom(bytes, 3 * q, i + 4);
    BitsFrom(bytes, 3 * q, i + 5);
  }

  // What the masks and shifts of the encoder select.

  lemma Sextet0(bytes: seq<bv8>)
    requires |bytes| >= 1
    ensures Sextet(bytes, 0) == bytes[0] >> 2
  {}

  lemma Sextet1(bytes: seq<bv8>)
    ensures |bytes| >= 2 ==> Sextet(bytes, 1) == ((bytes[0] & 3) << 4) | (bytes[1] >> 4)
    ensures |bytes| == 1 ==> Sextet(bytes, 1) == (bytes[0] & 3) << 4
  {}

  lemma Sextet2(bytes: seq<bv8>)
    ensures |bytes| >= 3 ==> Sextet(bytes, 2) == ((bytes[1] & 0x0F) << 2) | ((bytes[2] >> 6) & 3)
    ensures |bytes| == 2 ==> Sextet(bytes, 2) == (bytes[1] & 0x0F) << 2
  {}

  lemma Sextet3(bytes: seq<bv8>)
    requires |bytes| >= 3
    ensures Sextet(bytes, 3) == bytes[2] & 0x3F
  {}

  /** The four characters that the encoder computes for three bytes. */
  function FullGroup(a: bv8, b: bv8, c: bv8): (text: seq<bv8>)
    ensures |text| == 4
  {
    [Base64Char(a >> 2), Base64Char(((a & 3) << 4) | (b >> 4)),
     Base64Char(((b & 0x0F) << 2) | ((c >> 6) & 3)), Base64Char(c & 0x3F)]
  }

  /** What the encoder computes for two bytes that are left over, through a packed table. */
  function TwoLeft(a: bv8, b: bv8): (text: seq<bv8>)
    ensures |text| == 4
  {
    [Base64Char(a >> 2), Base64Char(((a & 3) << 4) | (b >> 4)), Base64B16(b & 0x0F), PAD]
  }

  /** What the encoder computes for one byte that is left over, through a packed table. */
  function OneLeft(a: bv8): (text: seq<bv8>)
    ensures |text| == 4
  {
    [Base64Char(a >> 2), Base64B8(a & 3), PAD, PAD]
  }

  /** What the encoder computes for the next group of a rest of the source. */
  function GroupText(rest: seq<bv8>): (text: seq<bv8>)
    requires rest != []
    ensures |text| == 4
  {
    if |rest| >= 3 then FullGroup(rest[0], rest[1], rest[2])
    else if |rest| == 2 then TwoLeft(rest[0], rest[1])
    else OneLeft(rest[0])
  }

  lemma FullGroupSpells(rest: seq<bv8>)
    requires |rest| >= 3
    ensures FullGroup(rest[0], rest[1], rest[2]) ==
            [SextetChar(rest, 0), SextetChar(rest, 1), SextetChar(rest, 2), SextetChar(rest, 3)]
  {
    Sextet0(rest);
    Sextet1(rest);
    Sextet2(rest);
    Sextet3(rest);
    hide Sextet, Base64Char;
  }

  lemma TwoLeftSpells(rest: seq<bv8>)
    requires |rest| == 2
    ensures TwoLeft(rest[0], rest[1]) ==
            [SextetChar(rest, 0), SextetChar(rest, 1), SextetChar(rest, 2), SextetChar(rest, 3)]
  {
    Sextet0(rest);
    Sextet1(rest);
    Sextet2(rest);
    hide Sextet, Base64Char, Base64B16;
  }

  lemma OneLeftSpells(rest: seq<bv8>)
    requires |rest| == 1
    ensures OneLeft(rest[0]) == [SextetChar(rest, 0), SextetChar(rest, 1), SextetChar(rest, 2), SextetChar(rest, 3)]
  {
    Sextet0(rest);
    Sextet1(rest);
    hide Sextet, Base64Char, Base64B8;
  }

  lemma SextetCharsFrom(bytes: seq<bv8>, q: nat, k: nat)
    requires 3 * q <= |bytes|
    ensures SextetChar(bytes, 4 * q + k) == SextetChar(bytes[3 * q..], k)
  {
    hide Sextet, Base64Char;
    SextetsFrom(bytes, q, k);
  }

  /** The characters that the encoder computes for a group are those of the encoding. */
  lemma EncodesGroup(source: seq<bv8>, q: nat)
    requires 3 * q < |source|
    ensures Encoding(source)[4 * q..4 * q + 4] == GroupText(source[3 * q..])
  {
    hide SextetChar, FullGroup, TwoLeft, OneLeft, Encoding;
    var rest := source[3 * q..];
    if |rest| >= 3 { FullGroupSpells(rest); } else if |rest| == 2 { TwoLeftSpells(rest); } else { OneLeftSpells(rest); }
    forall k | 0 <= k < 4 ensures Encoding(source)[4 * q + k] == SextetChar(rest, k) {
      SextetCharsFrom(source, q, k);
      EncodingAt(source, 4 * q + k);
    }
    hide GroupText;
    assert Encoding(source)[4 * q + 0] == SextetChar(rest, 0) && Encoding(source)[4 * q + 1] == SextetChar(rest, 1);
    assert Encoding(source)[4 * q + 2] == SextetChar(rest, 2) && Encoding(source)[4 * q + 3] == SextetChar(rest, 3);
  }

  /** Test vectors of section 10 of RFC 4648: "f", "fo", and "foo". */
  lemma KnownTexts()
    ensures Encoding([0x66]) == [0x5A, 0x67, 0x3D, 0x3D]
    ensures Encoding([0x66, 0x6F]) == [0x5A, 0x6D, 0x38, 0x3D]
    ensures Encoding([0x66, 0x6F, 0x6F]) == [0x5A, 0x6D, 0x39, 0x76]
  {
    assert GroupText([0x66]) == [0x5A, 0x67, 0x3D, 0x3D];
    assert GroupText([0x66, 0x6F]) == [0x5A, 0x6D, 0x38, 0x3D];
    assert GroupText([0x66, 0x6F, 0x6F]) == [0x5A, 0x6D, 0x39, 0x76];
    hide GroupText, Encoding;
    OneGroup([0x66]);
    OneGroup([0x66, 0x6F]);
    OneGroup([0x66, 0x6F, 0x6F]);
  }

  lemma OneGroup(bytes: seq<bv8>)
    requires 1 <= |bytes| <= 3
    ensures Encoding(bytes) == GroupText(bytes)
  {
    hide GroupText, Encoding;
    EncodesGroup(bytes, 0);
    assert bytes[0..] == bytes;
    assert Encoding(bytes)[0..4] == Encoding(bytes);
  }

  /** `Base64_Encode_Internal`: the encoding as a C string in fresh memory, if memory can be had for it and for the
      string object that takes it over. */
  method Encode(source: seq<bv8>, mallocFails: bool, createFails: bool) returns (encoded: array?<bv8>)
    ensures encoded == null <==> mallocFails || createFails
    ensures encoded != null ==>
              && fresh(encoded) && encoded.Length == |Encoding(source)| + 2
              && encoded[..|Encoding(source)|] == Encoding(source) && encoded[|Encoding(source)|] == 0
  {
    hide GroupText, Encoding;
    var neededSize := (if |source| == 0 then 0 else ((|source| - 1) / 3 + 1) * 4) + 1;
    if mallocFails {
      return null;
    }
    var memory := new bv8[neededSize + 1];
    var position, destination := 0, 0;
    ghost var q, text := 0, Encoding(source);
    while |source| - position >= 3
      invariant position == 3 * q <= |source| && destination == 4 * q <= |text|
      invariant memory[..destination] == text[..destination]
    {
      EncodesGroup(source, q);
      assert text[..destination + 4] == text[..destination] + text[destination..destination + 4];
      Put(memory, destination, GroupText(source[position..]));
      position := position + 3;
      destination := destination + 4;
      q := q + 1;
    }
    if |source| - position > 0 {
      EncodesGroup(source, q);
      assert text == text[..destination] + text[destination..destination + 4];
      Put(memory, destination, GroupText(source[position..]));
      destination := destination + 4;
    }
    assert memory[..destination] == text;
    memory[destination] := 0;
    encoded := if createFails then null else memory;
  }

  // ----- the decoding -----

  /** The values of the leading characters that have one. */
  ghost function Values(s: seq<bv8>): (v: seq<bv8>)
    ensures |v| <= |s| && (|v| < |s| ==> ToValue(s[|v|]).None?)
    ensures forall k | 0 <= k < |v| :: ToValue(s[k]) == Some(v[k]) && v[k] < 64
  {
    if s == [] || ToValue(s[0]).None? then [] else [ToValue(s[0]).value] + Values(s[1..])
  }

  /** Eight bits of some values. */
  function Octet(values: seq<bv8>, k: nat): bv8 {
    Number8(BitOf6(values, 8 * k), BitOf6(values, 8 * k + 1), BitOf6(values, 8 * k + 2), BitOf6(values, 8 * k + 3),
            BitOf6(values, 8 * k + 4), BitOf6(values, 8 * k + 5), BitOf6(values, 8 * k + 6), BitOf6(values, 8 * k + 7))
  }

  /** The bytes that a run of sextets spells; bits that do not fill a byte are dropped. */
  ghost function Unpacked(v: seq<bv8>): (bytes: seq<bv8>)
    ensures |bytes| == 6 * |v| / 8
  {
    seq(6 * |v| / 8, k requires 0 <= k => Octet(v, k))
  }

  /** What `Base64decode` writes, whatever the string. */
  ghost function Decoding(s: seq<bv8>): seq<bv8> {
    Unpacked(Values(s))
  }

  /** The number of padding characters at the end, at most two. */
  function Pads(s: seq<bv8>): nat {
    if |s| < 2 || s[|s|-1] != PAD then 0 else if s[|s|-2] != PAD then 1 else 2
  }

  /** `Base64decode_len`. */
  function DecodeLen(s: seq<bv8>): int
    requires |s| % 4 == 0
  {
    if |s| == 0 then 0 else
      |s| / 4 * 3 - (if s[|s|-1] != PAD then 0 else if s[|s|-2] != PAD then 1 else 2)
  }

  /** Characters of the alphabet only, but for the padding at the end. */
  predicate WellFormed(s: seq<bv8>) {
    |s| % 4 == 0 && forall k | 0 <= k < |s| - Pads(s) :: ToValue(s[k]).Some?
  }

  lemma ValuesStopAtPadding(s: seq<bv8>)
    requires |s| % 4 == 0
    ensures |Values(s)| <= |s| - Pads(s)
    ensures WellFormed(s) <==> |Values(s)| == |s| - Pads(s)
  {
    Alphabet(0, 0);
    hide ToValue;
    if Pads(s) > 0 { assert ToValue(s[|s| - Pads(s)]).None?; }
  }

  /** The writes of the decoder stay within the computed length, for malformed strings too, and fill it exactly if the
      string is well formed. */
  lemma FillsExactlyIfWellFormed(s: seq<bv8>)
    requires |s| % 4 == 0
    ensures |Decoding(s)| <= DecodeLen(s)
    ensures |Decoding(s)| == DecodeLen(s) <==> WellFormed(s)
  {
    hide WellFormed, Values, Unpacked;
    ValuesStopAtPadding(s);
    assert |s| == |s| / 4 * 4;
  }

  /** `numberOfBase64Characters`. */
  method NumberOfBase64Characters(encodedString: seq<bv8>) returns (length: nat)
    ensures length == |Values(encodedString)|
  {
    length := 0;
    while length < |encodedString| && ToValue(encodedString[length]).Some?
      invariant length <= |Values(encodedString)|
    {
      length := length + 1;
    }
  }

  lemma UnpackedAt(v: seq<bv8>, k: nat)
    requires k < |Unpacked(v)|
    ensures Unpacked(v)[k] == Octet(v, k)
  {}

  lemma ValueBitsFrom(v: seq<bv8>, at: nat, i: nat)
    requires at <= |v|
    ensures BitOf6(v, 6 * at + i) == BitOf6(v[at..], i)
  {
    hide Has;
    assert (6 * at + i) / 6 == at + i / 6 && (6 * at + i) % 6 == i % 6;
  }

  lemma OctetsFrom(v: seq<bv8>, q: nat, k: nat)
    requires 4 * q <= |v|
    ensures Octet(v, 3 * q + k) == Octet(v[4 * q..], k)
  {
    hide BitOf6, Number8;
    var i := 8 * k;
    assert 8 * (3 * q + k) == 6 * (4 * q) + i;
    ValueBitsFrom(v, 4 * q, i);
    ValueBitsFrom(v, 4 * q, i + 1);
    ValueBitsFrom(v, 4 * q, i + 2);
    ValueBitsFrom(v, 4 * q, i + 3);
    ValueBitsFrom(v, 4 * q, i + 4);
    ValueBitsFrom(v, 4 * q, i + 5);
    ValueBitsFrom(v, 4 * q, i + 6);
    ValueBitsFrom(v, 4 * q, i + 7);
  }

  // What the masks and shifts of the decoder select.

  lemma Octet0(v: seq<bv8>)
    requires |v| >= 2 && v[0] < 64 && v[1] < 64
    ensures Octet(v, 0) == (v[0] << 2) | (v[1] >> 4)
  {}

  lemma Octet1(v: seq<bv8>)
    requires |v| >= 3 && v[1] < 64 && v[2] < 64
    ensures Octet(v, 1) == ((v[1] & 0x0F) << 4) | (v[2] >> 2)
  {}

  lemma Octet2(v: seq<bv8>)
    requires |v| >= 4 && v[2] < 64 && v[3] < 64
    ensures Octet(v, 2) == ((v[2] & 3) << 6) | v[3]
  {}

  /** The bytes that the decoder computes for four, three or two characters; a single one is dropped. */
  function GroupBytes(v: seq<bv8>): (bytes: seq<bv8>)
    ensures |bytes| == if |v| >= 4 then 3 else 6 * |v| / 8
  {
    if |v| >= 4 then [(v[0] << 2) | (v[1] >> 4), ((v[1] & 0x0F) << 4) | (v[2] >> 2), ((v[2] & 3) << 6) | v[3]]
    else if |v| == 3 then [(v[0] << 2) | (v[1] >> 4), ((v[1] & 0x0F) << 4) | (v[2] >> 2)]
    else if |v| == 2 then [(v[0] << 2) | (v[1] >> 4)]
    else []
  }

  lemma GroupBytesAt(v: seq<bv8>, k: nat)
    requires k < |GroupBytes(v)| && forall j | 0 <= j < |v| :: v[j] < 64
    ensures GroupBytes(v)[k] == Octet(v, k)
  {
    if k == 0 { Octet0(v); } else if k == 1 { Octet1(v); } else { Octet2(v); }
    hide Octet;
  }

  /** The bytes that the decoder computes for a group are those that the sextets spell. */
  lemma DecodesGroup(v: seq<bv8>, q: nat)
    requires 4 * q <= |v| && forall k | 0 <= k < |v| :: v[k] < 64
    ensures 3 * q + |GroupBytes(v[4 * q..])| <= |Unpacked(v)|
    ensures Unpacked(v)[3 * q..3 * q + |GroupBytes(v[4 * q..])|] == GroupBytes(v[4 * q..])
  {
    hide Octet, Unpacked, GroupBytes;
    forall k | 0 <= k < |GroupBytes(v[4 * q..])| ensures Unpacked(v)[3 * q + k] == GroupBytes(v[4 * q..])[k] {
      GroupBytesAt(v[4 * q..], k);
      OctetsFrom(v, q, k);
      UnpackedAt(v, 3 * q + k);
    }
  }

  /** Reads at most four values for one round of the decoder. */
  method ReadValues(s: seq<bv8>, first: nat, count: nat) returns (values: seq<bv8>)
    requires first + count <= |Values(s)|
    ensures values == Values(s)[first..first + count]
  {
    hide Values, ToValue;
    values := [];
    ghost var v := Values(s);
    for k := 0 to count
      invariant values == v[first..first + k]
    {
      values := values + [ToValue(s[first + k]).value];
    }
  }

  /** `Base64decode`. */
  method DecodeInto(decodedString: array<bv8>, base64String: seq<bv8>)
    requires |Decoding(base64String)| <= decodedString.Length
    modifies decodedString
    ensures Decoding(base64String) <= decodedString[..]
    ensures decodedString[|Decoding(base64String)|..] == old(decodedString[|Decoding(base64String)|..])
  {
    hide Unpacked, Values, GroupBytes;
    ghost var v := Values(base64String);
    var numberOfEncodedChars := NumberOfBase64Characters(base64String);
    var first, decodedIndex := 0, 0;
    ghost var q := 0;
    while numberOfEncodedChars >= 4
      invariant first + numberOfEncodedChars == |v| && first == 4 * q && decodedIndex == 3 * q
      invariant decodedString[..decodedIndex] == Unpacked(v)[..decodedIndex]
      invariant decodedString[|Unpacked(v)|..] == old(decodedString[|Unpacked(v)|..])
    {
      DecodesGroup(v, q);
      var values := ReadValues(base64String, first, 4);
      GroupBytesOfFour(v[first..]);
      assert values == v[first..][..4];
      assert Unpacked(v)[..decodedIndex + 3] ==
             Unpacked(v)[..decodedIndex] + Unpacked(v)[decodedIndex..decodedIndex + 3];
      Put(decodedString, decodedIndex, GroupBytes(values));
      numberOfEncodedChars := numberOfEncodedChars - 4;
      first := first + 4;
      decodedIndex := decodedIndex + 3;
      q := q + 1;
    }
    LastGroup(v, q);
    var values := ReadValues(base64String, first, numberOfEncodedChars);
    assert values == v[first..];
    Put(decodedString, decodedIndex, GroupBytes(values));
    assert decodedString[..|Unpacked(v)|] == Unpacked(v);
  }

  /** Less than four values remain. */
  lemma LastGroup(v: seq<bv8>, q: nat)
    requires 4 * q <= |v| < 4 * q + 4 && forall k | 0 <= k < |v| :: v[k] < 64
    ensures 3 * q + |GroupBytes(v[4 * q..])| == |Unpacked(v)|
    ensures Unpacked(v)[..3 * q] + GroupBytes(v[4 * q..]) == Unpacked(v)
  {
    hide Octet, Unpacked, GroupBytes;
    DecodesGroup(v, q);
    var n := 3 * q;
    assert 6 * |v| == 8 * n + 6 * (|v| - 4 * q);
    assert Unpacked(v)[n..|Unpacked(v)|] == GroupBytes(v[4 * q..]);
    assert Unpacked(v) == Unpacked(v)[..n] + Unpacked(v)[n..];
  }

  lemma GroupBytesOfFour(v: seq<bv8>)
    requires |v| >= 4
    ensures GroupBytes(v) == GroupBytes(v[..4])
  {}

  /** `Base64_Decoder`: nothing for a string of a bad length or when an allocation fails. Where a malformed string
      leaves part of the buffer unwritten, the bytes there are arbitrary. */
  method Decoder(source: seq<bv8>, newFails: bool, preBuildFails: bool) returns (decoded: Option<array<bv8>>)
    ensures decoded.None? <==> |source| % 4 != 0 || newFails || (preBuildFails && source != [])
    ensures decoded.Some? ==> fresh(decoded.value) && Decoding(source) <= decoded.value[..]
    ensures decoded.Some? ==> decoded.value.Length == DecodeLen(source)
    ensures decoded.Some? && WellFormed(source) ==> decoded.value[..] == Decoding(source)
  {
    if |source| % 4 != 0 || newFails {
      return None;
    }
    FillsExactlyIfWellFormed(source);
    var sizeOfOutputBuffer := DecodeLen(source);
    if sizeOfOutputBuffer > 0 && preBuildFails {
      return None;
    }
    var buffer := new bv8[sizeOfOutputBuffer];
    if sizeOfOutputBuffer > 0 {
      DecodeInto(buffer, source);
    }
    decoded := Some(buffer);
  }

  // ----- the two together -----

  /** In a well-formed string, the bits of the last character that do not belong to any byte are zero. */
  predicate NoLooseBits(s: seq<bv8>)
    requires WellFormed(s)
  {
    Pads(s) == 0 || ToValue(s[|s| - Pads(s) - 1]).value & (if Pads(s) == 1 then 3 else 0x0F) == 0
  }

  predicate Canonical(s: seq<bv8>) {
    WellFormed(s) && NoLooseBits(s)
  }

  /** Where the run of characters with values ends. */
  lemma ValuesEnd(s: seq<bv8>, n: nat)
    requires n <= |s| && (forall k | 0 <= k < n :: ToValue(s[k]).Some?) && (n < |s| ==> ToValue(s[n]).None?)
    ensures |Values(s)| == n
  {
    hide ToValue;
  }

  /** The values read from encoded text. */
  lemma ValuesOfEncoding(bytes: seq<bv8>)
    ensures |Values(Encoding(bytes))| == (8 * |bytes| + 5) / 6
    ensures forall k | 0 <= k < (8 * |bytes| + 5) / 6 :: Values(Encoding(bytes))[k] == Sextet(bytes, k)
  {
    var s, used := Encoding(bytes), (8 * |bytes| + 5) / 6;
    forall k | 0 <= k < |s| ensures ToValue(s[k]) == if k < used then Some(Sextet(bytes, k)) else None {
      hide Encoding, Sextet, Base64Char, ToValue;
      EncodingAt(bytes, k);
      Alphabet(Sextet(bytes, k), 0);
    }
    hide Values, Encoding, Sextet, ToValue;
    ValuesEnd(s, used);
  }

  lemma BitsOfSextet(bytes: seq<bv8>, k: nat)
    ensures var v, i := Sextet(bytes, k), 6 * k;
            && (Has(v, 5) <==> BitOf8(bytes, i)) && (Has(v, 4) <==> BitOf8(bytes, i + 1))
            && (Has(v, 3) <==> BitOf8(bytes, i + 2)) && (Has(v, 2) <==> BitOf8(bytes, i + 3))
            && (Has(v, 1) <==> BitOf8(bytes, i + 4)) && (Has(v, 0) <==> BitOf8(bytes, i + 5))
  {
    hide BitOf8, Number6, Has;
    BitsOfNumber6(BitOf8(bytes, 6 * k), BitOf8(bytes, 6 * k + 1), BitOf8(bytes, 6 * k + 2),
                  BitOf8(bytes, 6 * k + 3), BitOf8(bytes, 6 * k + 4), BitOf8(bytes, 6 * k + 5));
  }

  lemma BitOfSextet(bytes: seq<bv8>, k: nat, j: nat)
    requires j < 6
    ensures Has(Sextet(bytes, k), 5 - j) <==> BitOf8(bytes, 6 * k + j)
  {
    hide BitOf8, Sextet, Has;
    BitsOfSextet(bytes, k);
  }

  /** The values read from encoded text have the bits of the bytes. */
  lemma SameBits(bytes: seq<bv8>, i: nat)
    requires i < 6 * |Values(Encoding(bytes))|
    ensures BitOf6(Values(Encoding(bytes)), i) == BitOf8(bytes, i)
  {
    hide Values, Encoding, Sextet, BitOf8, Has;
    ValuesOfEncoding(bytes);
    assert i == 6 * (i / 6) + i % 6;
    BitOfSextet(bytes, i / 6, i % 6);
  }

  lemma BitOfByte(bytes: seq<bv8>, k: nat, j: nat)
    requires k < |bytes| && j < 8
    ensures BitOf6(Values(Encoding(bytes)), 8 * k + j) <==> Has(bytes[k], 7 - j)
  {
    hide Values, Encoding, BitOf6, Has;
    assert (8 * k + j) / 8 == k && (8 * k + j) % 8 == j;
    ValuesOfEncoding(bytes);
    SameBits(bytes, 8 * k + j);
  }

  lemma SameByte(bytes: seq<bv8>, k: nat)
    requires k < |bytes|
    ensures Octet(Values(Encoding(bytes)), k) == bytes[k]
  {
    hide Number8, Values, Encoding, BitOf6, Has;
    NumberOfBits8(bytes[k]);
    BitOfByte(bytes, k, 0);
    BitOfByte(bytes, k, 1);
    BitOfByte(bytes, k, 2);
    BitOfByte(bytes, k, 3);
    BitOfByte(bytes, k, 4);
    BitOfByte(bytes, k, 5);
    BitOfByte(bytes, k, 6);
    BitOfByte(bytes, k, 7);
  }

  /** Decoding undoes encoding, for all byte strings. */
  lemma DecodesWhatWasEncoded(bytes: seq<bv8>)
    ensures Decoding(Encoding(bytes)) == bytes
  {
    hide Values, Encoding, Octet, Unpacked;
    var v := Values(Encoding(bytes));
    ValuesOfEncoding(bytes);
    forall k | 0 <= k < |bytes| ensures Unpacked(v)[k] == bytes[k] {
      UnpackedAt(v, k);
      SameByte(bytes, k);
    }
  }

  lemma LooseBits(v: bv8)
    ensures v & 0x0F == 0 <==> !Has(v, 3) && !Has(v, 2) && !Has(v, 1) && !Has(v, 0)
    ensures v & 3 == 0 <==> !Has(v, 1) && !Has(v, 0)
  {}

  /** The lengths of a well-formed string of so many groups and padding characters, of its values and of its bytes. */
  lemma Counting(groups: nat, pads: nat, values: nat, bytes: nat)
    requires pads <= 2 && (pads > 0 ==> groups > 0) && values == 4 * groups - pads && bytes == 6 * values / 8
    ensures bytes == 3 * groups - pads && values == (8 * bytes + 5) / 6 && (bytes + 2) / 3 == groups
  {}

  lemma Lengths(s: seq<bv8>) returns (groups: nat)
    requires WellFormed(s)
    ensures |s| == 4 * groups && |Values(s)| == 4 * groups - Pads(s) && |Decoding(s)| == 3 * groups - Pads(s)
    ensures |Values(s)| == (8 * |Decoding(s)| + 5) / 6
    ensures |Encoding(Decoding(s))| == |s|
  {
    groups := |s| / 4;
    ValuesStopAtPadding(s);
    hide WellFormed, Values, Unpacked, Encoding;
    assert |s| == 4 * groups && |Values(s)| == 4 * groups - Pads(s);
    Counting(groups, Pads(s), |Values(s)|, |Decoding(s)|);
  }

  lemma LastBits(v: seq<bv8>)
    requires v != []
    ensures var n, last := 6 * |v|, v[|v| - 1];
            && BitOf6(v, n - 1) == Has(last, 0) && BitOf6(v, n - 2) == Has(last, 1)
            && BitOf6(v, n - 3) == Has(last, 2) && BitOf6(v, n - 4) == Has(last, 3)
  {
    hide Has;
  }

  ghost predicate NoBits(v: seq<bv8>, from: nat) {
    forall i | from <= i < 6 * |v| :: !BitOf6(v, i)
  }

  lemma NoBitsAtEnd(v: seq<bv8>)
    ensures NoBits(v, 6 * |v|)
  {}

  lemma NoLastBits(v: seq<bv8>)
    requires v != []
    ensures NoBits(v, 6 * |v| - 2) <==> v[|v| - 1] & 3 == 0
    ensures NoBits(v, 6 * |v| - 4) <==> v[|v| - 1] & 0x0F == 0
  {
    LastBits(v);
    LooseBits(v[|v| - 1]);
    hide BitOf6, Has;
    var n := 6 * |v|;
    assert NoBits(v, n - 2) <==> !BitOf6(v, n - 2) && !BitOf6(v, n - 1);
    assert NoBits(v, n - 4) <==> !BitOf6(v, n - 4) && !BitOf6(v, n - 3) && !BitOf6(v, n - 2) && !BitOf6(v, n - 1);
  }

  /** The bits that belong to no byte are those behind the last whole byte. */
  lemma LooseBitsAreBehind(s: seq<bv8>)
    requires WellFormed(s)
    ensures NoLooseBits(s) <==> NoBits(Values(s), 8 * |Decoding(s)|)
  {
    var groups := Lengths(s);
    var v := Values(s);
    assert 8 * |Decoding(s)| == 6 * |v| - 2 * Pads(s);
    hide NoBits, ToValue, Unpacked;
    if Pads(s) > 0 {
      assert ToValue(s[|v| - 1]) == Some(v[|v| - 1]);
      NoLastBits(v);
      hide Values;
    } else {
      NoBitsAtEnd(v);
    }
  }

  // ----- encoding what was decoded -----

  /** The bytes read from text have the bits of the values. */
  lemma BitsOfOctet(v: seq<bv8>, k: nat)
    ensures var b, i := Octet(v, k), 8 * k;
            && (Has(b, 7) <==> BitOf6(v, i)) && (Has(b, 6) <==> BitOf6(v, i + 1))
            && (Has(b, 5) <==> BitOf6(v, i + 2)) && (Has(b, 4) <==> BitOf6(v, i + 3))
            && (Has(b, 3) <==> BitOf6(v, i + 4)) && (Has(b, 2) <==> BitOf6(v, i + 5))
            && (Has(b, 1) <==> BitOf6(v, i + 6)) && (Has(b, 0) <==> BitOf6(v, i + 7))
  {
    hide BitOf6, Number8, Has;
    var i := 8 * k;
    BitsOfNumber8(BitOf6(v, i), BitOf6(v, i + 1), BitOf6(v, i + 2), BitOf6(v, i + 3),
                  BitOf6(v, i + 4), BitOf6(v, i + 5), BitOf6(v, i + 6), BitOf6(v, i + 7));
  }

  lemma BitOfOctet(v: seq<bv8>, k: nat, j: nat)
    requires j < 8
    ensures Has(Octet(v, k), 7 - j) <==> BitOf6(v, 8 * k + j)
  {
    hide BitOf6, Octet, Has;
    BitsOfOctet(v, k);
  }

  lemma SameBitsBack(v: seq<bv8>, i: nat)
    requires NoBits(v, 8 * |Unpacked(v)|)
    ensures BitOf8(Unpacked(v), i) == BitOf6(v, i)
  {
    hide Unpacked, Octet, Has;
    var k := i / 8;
    assert i == 8 * k + i % 8;
    if k < |Unpacked(v)| {
      UnpackedAt(v, k);
      BitOfOctet(v, k, i % 8);
      hide BitOf6;
    }
  }

  lemma BitOfValue(v: seq<bv8>, k: nat, j: nat)
    requires k < |v| && j < 6 && NoBits(v, 8 * |Unpacked(v)|)
    ensures BitOf8(Unpacked(v), 6 * k + j) <==> Has(v[k], 5 - j)
  {
    hide Unpacked, NoBits, BitOf8, Has;
    assert (6 * k + j) / 6 == k && (6 * k + j) % 6 == j;
    SameBitsBack(v, 6 * k + j);
  }

  lemma SameValue(v: seq<bv8>, k: nat)
    requires k < |v| && v[k] < 64 && NoBits(v, 8 * |Unpacked(v)|)
    ensures Sextet(Unpacked(v), k) == v[k]
  {
    hide Unpacked, NoBits, BitOf8, Has, Number6;
    NumberOfBits6(v[k]);
    BitOfValue(v, k, 0);
    BitOfValue(v, k, 1);
    BitOfValue(v, k, 2);
    BitOfValue(v, k, 3);
    BitOfValue(v, k, 4);
    BitOfValue(v, k, 5);
  }

  lemma EncodesCanonical(s: seq<bv8>)
    requires Canonical(s)
    ensures Encoding(Decoding(s)) == s
  {
    var groups := Lengths(s);
    LooseBitsAreBehind(s);
    var v, bytes := Values(s), Decoding(s);
    hide WellFormed, NoLooseBits, Values, Unpacked, NoBits, Encoding, ToValue, Base64Char, Sextet;
    forall k | 0 <= k < |s| ensures Encoding(bytes)[k] == s[k] {
      EncodingAt(bytes, k);
      if k < |v| {
        SameValue(v, k);
        Alphabet(0, s[k]);
      } else {
        PaddingBehindValues(s, k);
      }
    }
  }

  lemma PaddingBehindValues(s: seq<bv8>, k: nat)
    requires WellFormed(s) && |Values(s)| <= k < |s|
    ensures s[k] == PAD
  {
    hide Values;
    ValuesStopAtPadding(s);
  }

  lemma PadsOfEncoding(bytes: seq<bv8>)
    ensures Pads(Encoding(bytes)) == |Encoding(bytes)| - (8 * |bytes| + 5) / 6
  {
    var n, s, used := |bytes|, Encoding(bytes), (8 * |bytes| + 5) / 6;
    Alphabet(0, 0);
    hide Encoding, Base64Char, Sextet, ToValue;
    forall k | 0 <= k < |s| ensures s[k] == PAD <==> k >= used {
      EncodingAt(bytes, k);
      Alphabet(Sextet(bytes, k), 0);
    }
    assert n == n / 3 * 3 + n % 3;
  }

  lemma NoBitsBehindEncoding(bytes: seq<bv8>)
    ensures NoBits(Values(Encoding(bytes)), 8 * |bytes|)
  {
    hide Encoding, Values, BitOf6;
    var v := Values(Encoding(bytes));
    forall i | 8 * |bytes| <= i < 6 * |v| ensures !BitOf6(v, i) { SameBits(bytes, i); }
  }

  /** Encoded text is canonical. */
  lemma EncodingIsCanonical(bytes: seq<bv8>)
    ensures Canonical(Encoding(bytes))
  {
    hide Encoding, Values, Pads, NoLooseBits, Decoding, WellFormed, NoBits;
    var s := Encoding(bytes);
    PadsOfEncoding(bytes);
    ValuesOfEncoding(bytes);
    ValuesStopAtPadding(s);
    LooseBitsAreBehind(s);
    DecodesWhatWasEncoded(bytes);
    NoBitsBehindEncoding(bytes);
  }

  /** Exactly the canonical strings, with zeros for the bits that belong to no byte, are what encoding yields again. */
  lemma EncodingUndoesDecodingExactly(s: seq<bv8>)
    ensures Encoding(Decoding(s)) == s <==> Canonical(s)
  {
    EncodingIsCanonical(Decoding(s));
    if Canonical(s) { EncodesCanonical(s); }
  }
}
