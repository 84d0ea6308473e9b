/** Base 32 text (section 6 of RFC 4648, in lower case): the encoder and the decoder, against groups of 40 bits. */
module Base32 {
  import opened BitStream
  import opened Common

  const PAD: bv8 := 0x3D // '='
  const EQUAL_SIGN: bv8 := 32
  const ASCII_VALUE_MAX: bv8 := 0x80

  // ----- the alphabet -----

  /** BASE32_VALUES: the letters, the digits from 2 to 7, and the padding. */
  function Base32Char(value: bv8): bv8
    requires value <= EQUAL_SIGN
  {
    if value < 26 then 0x61 + value else if value < 32 then 0x32 + (value - 26) else PAD
  }

  /** `convert_value_to_base32_char`. The upper end of the lower-case range is one too high. */
  function ConvertValue(c: bv8): bv8 {
    if 50 <= c <= 55 then 26 + (c - 50)
    else if c == 61 then EQUAL_SIGN
    else if c <= 49 || 56 <= c <= 64 then 0xFF
    else if 65 <= c <= 90 then c - 65
    else if 91 <= c <= 96 then 0xFF
    else if 97 <= c <= 123 then c - 97
    else 0xFF
  }

  function LowerCase(c: bv8): bv8 {
    if 0x41 <= c <= 0x5A then c + 0x20 else c
  }

  predicate InAlphabet(c: bv8) {
    0x61 <= LowerCase(c) <= 0x7A || 0x32 <= c <= 0x37
  }

  /** The conversions are inverse to each other, but for letter case and one stray character, the brace that follows 'z'
      and is taken for a '2'. */
  lemma Alphabet(value: bv8, c: bv8)
    ensures value <= EQUAL_SIGN ==> ConvertValue(Base32Char(value)) == value && Base32Char(value) < ASCII_VALUE_MAX
    ensures ConvertValue(LowerCase(c)) == ConvertValue(c)
    ensures ConvertValue(c) < 32 <==> InAlphabet(c) || c == 0x7B
    ensures ConvertValue(c) < 32 && c != 0x7B ==> Base32Char(ConvertValue(c)) == LowerCase(c)
    ensures ConvertValue(c) == EQUAL_SIGN <==> c == PAD
    ensures !InAlphabet(c) && c != 0x7B && c != PAD ==> ConvertValue(c) == 0xFF
    ensures ConvertValue(0x7B) == ConvertValue(0x32)
  {}

  /** The alphabet is that of table 3 of RFC 4648, in lower case: its two rows begin and end as they should, with each
      character next to the one before. */
  lemma AlphabetRows(value: bv8)
    ensures Base32Char(0) == 'a' as bv8 && Base32Char(25) == 'z' as bv8
    ensures Base32Char(26) == '2' as bv8 && Base32Char(31) == '7' as bv8 && Base32Char(32) == '=' as bv8
    ensures value < 31 && value != 25 ==> Base32Char(value + 1) == Base32Char(value) + 1
  {}

  // ----- blocks of 40 bits -----

  /** Five bits of some bytes. */
  function Quintet(bytes: seq<bv8>, k: nat): (v: bv8)
    ensures v < 32
  {
    Number5(BitOf8(bytes, 5 * k), BitOf8(bytes, 5 * k + 1), BitOf8(bytes, 5 * k + 2),
            BitOf8(bytes, 5 * k + 3), BitOf8(bytes, 5 * k + 4))
  }

  /** Eight bits of some values. */
  function Octet(values: seq<bv8>, k: nat): bv8 {
    Number8(BitOf5(values, 8 * k), BitOf5(values, 8 * k + 1), BitOf5(values, 8 * k + 2), BitOf5(values, 8 * k + 3),
            BitOf5(values, 8 * k + 4), BitOf5(values, 8 * k + 5), BitOf5(values, 8 * k + 6), BitOf5(values, 8 * k + 7))
  }

  function FirstQuintets(bytes: seq<bv8>): (values: seq<bv8>)
    ensures |values| == 8 && forall k | 0 <= k < 8 :: values[k] == Quintet(bytes, k)
  {
    hide Quintet;
    seq(8, k requires 0 <= k => Quintet(bytes, k))
  }

  function FirstOctets(values: seq<bv8>): (bytes: seq<bv8>)
    ensures |bytes| == 5 && forall k | 0 <= k < 5 :: bytes[k] == Octet(values, k)
  {
    hide Octet;
    seq(5, k requires 0 <= k => Octet(values, k))
  }

  // What the masks and shifts of the encoder select.

  lemma Quintet0(block: seq<bv8>)
    requires |block| == 5
    ensures Quintet(block, 0) == (block[0] & 0xF8) >> 3
  {}

  lemma Quintet1(block: seq<bv8>)
    requires |block| == 5
    ensures Quintet(block, 1) == ((block[1] & 0xC0) >> 6) | ((block[0] & 0x07) << 2)
  {}

  lemma Quintet2(block: seq<bv8>)
    requires |block| == 5
    ensures Quintet(block, 2) == (block[1] & 0x3E) >> 1
  {}

  lemma Quintet3(block: seq<bv8>)
    requires |block| == 5
    ensures Quintet(block, 3) == ((block[2] & 0xF0) >> 4) | ((block[1] & 0x01) << 4)
  {}

  lemma Quintet4(block: seq<bv8>)
    requires |block| == 5
    ensures Quintet(block, 4) == ((block[3] & 0x80) >> 7) | ((block[2] & 0x0F) << 1)
  {}

  lemma Quintet5(block: seq<bv8>)
    requires |block| == 5
    ensures Quintet(block, 5) == (block[3] & 0x7C) >> 2
  {}

  lemma Quintet6(block: seq<bv8>)
    requires |block| == 5
    ensures Quintet(block, 6) == ((block[4] & 0xE0) >> 5) | ((block[3] & 0x03) << 3)
  {}

  lemma Quintet7(block: seq<bv8>)
    requires |block| == 5
    ensures Quintet(block, 7) == block[4] & 0x1F
  {}

  // What the masks and shifts of the decoder select.

  lemma Octet0(v: seq<bv8>)
    requires |v| == 8
    ensures Octet(v, 0) == ((v[0] & 0x1F) << 3) | ((v[1] & 0x1C) >> 2)
  {}

  lemma Octet1(v: seq<bv8>)
    requires |v| == 8
    ensures Octet(v, 1) == ((v[1] & 0x03) << 6) | ((v[2] & 0x1F) << 1) | ((v[3] & 0x10) >> 4)
  {}

  lemma Octet2(v: seq<bv8>)
    requires |v| == 8
    ensures Octet(v, 2) == ((v[3] & 0x0F) << 4) | ((v[4] & 0x1E) >> 1)
  {}

  lemma Octet3(v: seq<bv8>)
    requires |v| == 8
    ensures Octet(v, 3) == ((v[4] & 0x01) << 7) | ((v[5] & 0x1F) << 2) | ((v[6] & 0x18) >> 3)
  {}

  lemma Octet4(v: seq<bv8>)
    requires |v| == 8
    ensures Octet(v, 4) == ((v[6] & 0x07) << 5) | (v[7] & 0x1F)
  {}

  /** The encoder takes a block apart. */
  lemma EncoderMasks(block: seq<bv8>)
    requires |block| == 5
    ensures FirstQuintets(block) ==
            [(block[0] & 0xF8) >> 3, ((block[1] & 0xC0) >> 6) | ((block[0] & 0x07) << 2), (block[1] & 0x3E) >> 1,
             ((block[2] & 0xF0) >> 4) | ((block[1] & 0x01) << 4), ((block[3] & 0x80) >> 7) | ((block[2] & 0x0F) << 1),
             (block[3] & 0x7C) >> 2, ((block[4] & 0xE0) >> 5) | ((block[3] & 0x03) << 3), block[4] & 0x1F]
  {
    hide Quintet;
    Quintet0(block);
    Quintet1(block);
    Quintet2(block);
    Quintet3(block);
    Quintet4(block);
    Quintet5(block);
    Quintet6(block);
    Quintet7(block);
  }

  /** The five bytes that the decoder computes for a block. */
  function DecodedBlock(v: seq<bv8>): (bytes: seq<bv8>)
    requires |v| == 8
    ensures |bytes| == 5
  {
    [((v[0] & 0x1F) << 3) | ((v[1] & 0x1C) >> 2),
     ((v[1] & 0x03) << 6) | ((v[2] & 0x1F) << 1) | ((v[3] & 0x10) >> 4),
     ((v[3] & 0x0F) << 4) | ((v[4] & 0x1E) >> 1),
     ((v[4] & 0x01) << 7) | ((v[5] & 0x1F) << 2) | ((v[6] & 0x18) >> 3),
     ((v[6] & 0x07) << 5) | (v[7] & 0x1F)]
  }

  /** The decoder puts a block together. */
  lemma DecoderMasks(v: seq<bv8>)
    requires |v| == 8
    ensures DecodedBlock(v) == FirstOctets(v)
  {
    hide Octet;
    Octet0(v);
    Octet1(v);
    Octet2(v);
    Octet3(v);
    Octet4(v);
  }

  // ----- the encoding -----

  /** The number of characters that hold bits of a block. */
  function Used(size: nat): (count: nat)
    requires 1 <= size <= 5
    ensures (count - 1) * 5 < size * 8 <= count * 5 && count <= 8
  {
    (size * 8 + 4) / 5
  }

  /** The values that stand for a block of at most five bytes, and the padding. */
  function BlockValues(block: seq<bv8>): (values: seq<bv8>)
    requires 1 <= |block| <= 5
    ensures |values| == 8 && forall k | 0 <= k < 8 :: values[k] <= EQUAL_SIGN
  {
    seq(8, k requires 0 <= k < 8 => if k < Used(|block|) then Quintet(block, k) else EQUAL_SIGN)
  }

  /** The text of a block of at most five bytes. */
  function EncodedBlock(block: seq<bv8>): (text: seq<bv8>)
    requires 1 <= |block| <= 5
    ensures |text| == 8
  {
    var values := BlockValues(block);
    seq(8, k requires 0 <= k < 8 => Base32Char(values[k]))
  }

  lemma BlockAt(block: seq<bv8>, k: nat)
    requires 1 <= |block| <= 5 && k < 8
    ensures BlockValues(block)[k] == if 5 * k < 8 * |block| then Quintet(block, k) else EQUAL_SIGN
    ensures EncodedBlock(block)[k] == Base32Char(BlockValues(block)[k])
  {}

  /** The base 32 text of some bytes, block by block. */
  ghost function Encoding(bytes: seq<bv8>): seq<bv8> {
    if bytes == [] then []
    else if |bytes| <= 5 then EncodedBlock(bytes)
    else EncodedBlock(bytes[..5]) + Encoding(bytes[5..])
  }

  /** `base32_encoding_length`. */
  function EncodingLength(size: nat): nat {
    (size + 5 - 1) / 5 * 8
  }

  lemma {:induction false} EncodingHasItsLength(bytes: seq<bv8>)
    ensures |Encoding(bytes)| == EncodingLength(|bytes|)
  {
    hide EncodedBlock;
    if |bytes| > 5 { EncodingHasItsLength(bytes[5..]); }
  }

  /** The bits of a block, as the fall-through of `base32_encode_impl` computes them: those of absent bytes are zero. */
  method Bits(block: seq<bv8>) returns (positions: seq<bv8>)
    requires 1 <= |block| <= 5
    ensures positions == FirstQuintets(block)
  {
    hide Quintet;
    var pos1, pos2, pos3, pos4, pos5, pos6, pos7, pos8: bv8 := 0, 0, 0, 0, 0, 0, 0, 0;
    if |block| == 5 {
      pos8 := block[4] & 0x1F;
      pos7 := (block[4] & 0xE0) >> 5;
    }
    if |block| >= 4 {
      pos7 := pos7 | ((block[3] & 0x03) << 3);
      pos6 := (block[3] & 0x7C) >> 2;
      pos5 := (block[3] & 0x80) >> 7;
    }
    if |block| >= 3 {
      pos5 := pos5 | ((block[2] & 0x0F) << 1);
      pos4 := (block[2] & 0xF0) >> 4;
    }
    if |block| >= 2 {
      pos4 := pos4 | ((block[1] & 0x01) << 4);
      pos3 := (block[1] & 0x3E) >> 1;
      pos2 := (block[1] & 0xC0) >> 6;
    }
    pos2 := pos2 | ((block[0] & 0x07) << 2);
    pos1 := (block[0] & 0xF8) >> 3;
    positions := [pos1, pos2, pos3, pos4, pos5, pos6, pos7, pos8];
    ghost var filled := block + seq(5 - |block|, _ => 0);
    FilledUp(block);
    EncoderMasks(filled);
  }

  lemma NoBitsInZero(k: nat)
    requires k < 8
    ensures !Has(0, k)
  {}

  /** Zero bytes add no bits. */
  lemma FilledUp(block: seq<bv8>)
    requires |block| <= 5
    ensures var filled := block + seq(5 - |block|, _ => 0);
            FirstQuintets(block) == FirstQuintets(filled)
  {
    hide Has;
    var filled := block + seq(5 - |block|, _ => 0);
    forall i: nat ensures BitOf8(block, i) == BitOf8(filled, i) {
      if |block| <= i / 8 < 5 { NoBitsInZero(7 - i % 8); }
    }
    forall k | 0 <= k < 8 ensures Quintet(block, k) == Quintet(filled, k) {
      hide BitOf8;
    }
    hide Quintet;
  }

  /** The positions of a block: padding replaces the last ones, by falling through again. */
  method Positions(block: seq<bv8>) returns (positions: seq<bv8>)
    requires 1 <= |block| <= 5
    ensures positions == BlockValues(block)
  {
    hide Quintet;
    positions := Bits(block);
    var n := |block|;
    if n == 1 {
      positions := positions[2 := EQUAL_SIGN][3 := EQUAL_SIGN];
    }
    if n <= 2 {
      positions := positions[4 := EQUAL_SIGN];
    }
    if n <= 3 {
      positions := positions[5 := EQUAL_SIGN][6 := EQUAL_SIGN];
    }
    if n <= 4 {
      positions := positions[7 := EQUAL_SIGN];
    }
  }

  /** One round of the loop of `base32_encode_impl`. */
  method EncodeBlock(block: seq<bv8>) returns (text: seq<bv8>)
    requires 1 <= |block| <= 5
    ensures text == EncodedBlock(block)
  {
    hide BlockValues, Base32Char;
    var pos := Positions(block);
    text := [Base32Char(pos[0]), Base32Char(pos[1]), Base32Char(pos[2]), Base32Char(pos[3]),
             Base32Char(pos[4]), Base32Char(pos[5]), Base32Char(pos[6]), Base32Char(pos[7])];
  }

  lemma BitsOfParts(bytes: seq<bv8>, i: nat)
    requires |bytes| > 5
    ensures i < 40 ==> BitOf8(bytes, i) == BitOf8(bytes[..5], i)
    ensures i >= 40 ==> BitOf8(bytes, i) == BitOf8(bytes[5..], i - 40)
  {
    hide Has;
    if i >= 40 { assert i / 8 == (i - 40) / 8 + 5 && i % 8 == (i - 40) % 8; }
  }

  /** The first block holds the first 40 bits, and the rest the bits from there on. */
  lemma QuintetsOfParts(bytes: seq<bv8>, k: nat)
    requires |bytes| > 5
    ensures Quintet(bytes, k) == if k < 8 then Quintet(bytes[..5], k) else Quintet(bytes[5..], k - 8)
  {
    hide BitOf8, Number5;
    var i := 5 * k;
    BitsOfParts(bytes, i);
    BitsOfParts(bytes, i + 1);
    BitsOfParts(bytes, i + 2);
    BitsOfParts(bytes, i + 3);
    BitsOfParts(bytes, i + 4);
  }

  /** The encoded text spells the bits of all the bytes, five by five, and pads them. */
  lemma {:induction false} EncodingSpellsTheBits(bytes: seq<bv8>, k: nat)
    requires k < |Encoding(bytes)|
    ensures Encoding(bytes)[k] == Base32Char(if 5 * k < 8 * |bytes| then Quintet(bytes, k) else EQUAL_SIGN)
  {
    hide Base32Char, Quintet;
    if bytes == [] {
    } else if |bytes| > 5 {
      QuintetsOfParts(bytes, k);
      if k >= 8 { EncodingSpellsTheBits(bytes[5..], k - 8); } else { BlockAt(bytes[..5], k); }
    } else {
      BlockAt(bytes, k);
    }
  }

  lemma EncodingStep(bytes: seq<bv8>, at: nat, n: nat)
    requires at < |bytes| && n == (if |bytes| - at > 5 then 5 else |bytes| - at)
    ensures Encoding(bytes[at..]) == EncodedBlock(bytes[at..][..n]) + Encoding(bytes[at + n..])
  {
    hide EncodedBlock;
    if |bytes| - at > 5 {
      assert bytes[at..][5..] == bytes[at + 5..];
    } else {
      assert bytes[at..][..n] == bytes[at..];
    }
  }

  /** Test vectors of section 10 of RFC 4648: "fooba" and, with padding, "foobar". */
  lemma KnownTexts()
    ensures Encoding([0x66, 0x6F, 0x6F, 0x62, 0x61]) == [0x6D, 0x7A, 0x78, 0x77, 0x36, 0x79, 0x74, 0x62]
    ensures Encoding([0x66, 0x6F, 0x6F, 0x62, 0x61, 0x72]) ==
            [0x6D, 0x7A, 0x78, 0x77, 0x36, 0x79, 0x74, 0x62, 0x6F, 0x69, 0x3D, 0x3D, 0x3D, 0x3D, 0x3D, 0x3D]
  {
    var first, second: seq<bv8> := [0x66, 0x6F, 0x6F, 0x62, 0x61], [0x72];
    KnownBlock();
    KnownLastBlock();
    hide EncodedBlock;
    assert (first + second)[..5] == first && (first + second)[5..] == second;
    assert first + second == [0x66, 0x6F, 0x6F, 0x62, 0x61, 0x72];
  }

  lemma KnownBlock()
    ensures EncodedBlock([0x66, 0x6F, 0x6F, 0x62, 0x61]) == [0x6D, 0x7A, 0x78, 0x77, 0x36, 0x79, 0x74, 0x62]
  {
    hide Quintet, EncodedBlock, BlockValues;
    var block: seq<bv8> := [0x66, 0x6F, 0x6F, 0x62, 0x61];
    EncoderMasks(block);
    assert FirstQuintets(block) == [12, 25, 23, 22, 30, 24, 19, 1];
    BlockText(block, [12, 25, 23, 22, 30, 24, 19, 1]);
  }

  lemma KnownLastBlock()
    ensures EncodedBlock([0x72]) == [0x6F, 0x69, 0x3D, 0x3D, 0x3D, 0x3D, 0x3D, 0x3D]
  {
    hide Quintet, EncodedBlock, BlockValues;
    var filled: seq<bv8> := [0x72, 0, 0, 0, 0];
    FilledUp([0x72]);
    assert [0x72] + seq(4, _ => 0) == filled;
    EncoderMasks(filled);
    assert FirstQuintets(filled) == [14, 8, 0, 0, 0, 0, 0, 0];
    BlockText([0x72], [14, 8, 32, 32, 32, 32, 32, 32]);
  }

  lemma BlockText(block: seq<bv8>, v: seq<bv8>)
    requires 1 <= |block| <= 5 && |v| == 8 && forall k | 0 <= k < 8 :: v[k] <= EQUAL_SIGN
    requires forall k | 0 <= k < 8 :: v[k] == if k < Used(|block|) then FirstQuintets(block)[k] else EQUAL_SIGN
    ensures EncodedBlock(block) ==
            [Base32Char(v[0]), Base32Char(v[1]), Base32Char(v[2]), Base32Char(v[3]),
             Base32Char(v[4]), Base32Char(v[5]), Base32Char(v[6]), Base32Char(v[7])]
  {
    hide Quintet, Base32Char;
    assert BlockValues(block) == v;
  }

  /** `base32_encode_impl`: the encoding as a C string in fresh memory that it fills exactly, if memory can be had. */
  method Encode(source: seq<bv8>, mallocFails: bool) returns (encoded: array?<bv8>)
    ensures encoded == null <==> mallocFails
    ensures encoded != null ==> fresh(encoded) && encoded[..] == Encoding(source) + [0]
  {
    hide EncodedBlock, Encoding;
    var outputLen := EncodingLength(|source|);
    if mallocFails {
      return null;
    }
    var result := new bv8[outputLen + 1](_ => 0);
    var rest, resultLen := source, 0;
    EncodingHasItsLength(source);
    while |rest| >= 1
      invariant resultLen <= outputLen
      invariant result[..resultLen] + Encoding(rest) == Encoding(source)
      invariant resultLen + |Encoding(rest)| == outputLen && result[outputLen] == 0
    {
      var blockLen := if |rest| > 5 then 5 else |rest|;
      EncodingStep(rest, 0, blockLen);
      assert rest[0..] == rest;
      var text := EncodeBlock(rest[..blockLen]);
      Associative(result[..resultLen], text, Encoding(rest[blockLen..]));
      ghost var last := result[outputLen..];
      assert last == [0];
      rest := rest[blockLen..];
      Put(result, resultLen, text);
      assert result[resultLen + 8..][outputLen - resultLen - 8] == 0;
      resultLen := resultLen + 8;
    }
    assert Encoding([]) == [] by { EncodingHasItsLength([]); }
    encoded := result;
  }

  // ----- the decoding -----

  function Values(s: seq<bv8>): (v: seq<bv8>)
    ensures |v| == |s|
  {
    seq(|s|, k requires 0 <= k < |s| => ConvertValue(s[k]))
  }

  /** The number of bytes that a block of eight values stands for, by its padding. */
  function Kept(v: seq<bv8>): (count: nat)
    requires |v| == 8
    ensures 1 <= count <= 5
  {
    if v[7] != EQUAL_SIGN then 5
    else if v[5] != EQUAL_SIGN then 4
    else if v[4] != EQUAL_SIGN then 3
    else if v[2] != EQUAL_SIGN then 2
    else 1
  }

  /** The temporary buffer of the decoder: five bytes for each block, whatever its padding. */
  ghost function Buffered(v: seq<bv8>): (bytes: seq<bv8>)
    ensures |bytes| == |v| / 8 * 5
  {
    if |v| < 8 then [] else DecodedBlock(v[..8]) + Buffered(v[8..])
  }

  ghost function KeptSize(v: seq<bv8>): (size: nat)
    ensures size <= |Buffered(v)|
  {
    if |v| < 8 then 0 else Kept(v[..8]) + KeptSize(v[8..])
  }

  /** The strings that the decoder does not reject: whether the characters are in the alphabet does not matter. */
  predicate Accepted(s: seq<bv8>) {
    |s| % 8 == 0 && forall k | 0 <= k < |s| :: s[k] < ASCII_VALUE_MAX
  }

  lemma AcceptedMeans(s: seq<bv8>)
    ensures Accepted(s) <==> |s| % 8 == 0 && forall k | 0 <= k < |s| :: s[k] <= 127
  {}

  /** Of the padding of a block only the characters 8, 6, 5 and 3 matter, each only if those before are padding. */
  lemma KeptMeans(v: seq<bv8>)
    requires |v| == 8
    ensures Kept(v) == 5 - (if v[7] != 32 then 0 else if v[5] != 32 then 1 else if v[4] != 32 then 2
                            else if v[2] != 32 then 3 else 4)
  {}

  /** What the decoder yields: the beginning of the buffer, as long as the padding of all blocks leaves. */
  ghost function Decoding(s: seq<bv8>): Option<seq<bv8>> {
    if Accepted(s) then Some(Buffered(Values(s))[..KeptSize(Values(s))]) else None
  }

  /** The inner loop of `base32_decode_impl`. */
  method ReadBlock(source: seq<bv8>, at: nat) returns (input: seq<bv8>, ok: bool)
    requires at + 8 <= |source|
    ensures ok <==> forall k | at <= k < at + 8 :: source[k] < ASCII_VALUE_MAX
    ensures ok ==> input == Values(source)[at..at + 8]
  {
    input := [];
    for index := 0 to 8
      invariant forall k | at <= k < at + index :: source[k] < ASCII_VALUE_MAX
      invariant input == Values(source)[at..at + index]
    {
      if source[at + index] >= ASCII_VALUE_MAX {
        return input, false;
      }
      input := input + [ConvertValue(source[at + index])];
    }
    ok := true;
  }

  lemma BufferedStep(v: seq<bv8>, at: nat)
    requires at + 8 <= |v|
    ensures Buffered(v[at..]) == DecodedBlock(v[at..at + 8]) + Buffered(v[at + 8..])
    ensures KeptSize(v[at..]) == Kept(v[at..at + 8]) + KeptSize(v[at + 8..])
  {
    hide DecodedBlock, Kept;
    assert v[at..][..8] == v[at..at + 8] && v[at..][8..] == v[at + 8..];
  }

  /** `base32_decode_impl`. The test for an exceeded target length never succeeds: the result is the decoding whenever
      the string is accepted and memory does not run out. */
  method Decode(source: seq<bv8>, mallocFails: bool, createFails: bool) returns (result: Option<seq<bv8>>)
    ensures result == if mallocFails || createFails then None else Decoding(source)
  {
    hide DecodedBlock, Kept, Buffered, KeptSize, Values;
    if |source| % 8 != 0 || mallocFails {
      return None;
    }
    ghost var v := Values(source);
    assert v[0..] == v;
    var allocationLen := |source| * 5 / 8;
    var tempBuffer := new bv8[allocationLen];
    var destBuff, destSize, position := 0, 0, 0;
    while position < |source|
      invariant position <= |source| && (|source| - position) % 8 == 0
      invariant destSize <= destBuff && destBuff + |Buffered(v[position..])| == allocationLen
      invariant forall k | 0 <= k < position :: source[k] < ASCII_VALUE_MAX
      invariant tempBuffer[..destBuff] + Buffered(v[position..]) == Buffered(v)
      invariant destSize + KeptSize(v[position..]) == KeptSize(v)
    {
      var input, ok := ReadBlock(source, position);
      if !ok {
        assert !Accepted(source);
        return None;
      }
      if destSize + 5 > allocationLen {
        assert false;
        return None;
      }
      BufferedStep(v, position);
      var bytes := DecodedBlock(input);
      Associative(tempBuffer[..destBuff], bytes, Buffered(v[position + 8..]));
      position := position + 8;
      Put(tempBuffer, destBuff, bytes);
      destBuff := destBuff + 5;
      destSize := destSize + Kept(input);
    }
    assert v[position..] == [];
    assert tempBuffer[..destBuff] == Buffered(v);
    assert KeptSize(v[position..]) == 0;
    assert Accepted(source);
    assert tempBuffer[..destSize] == Buffered(v)[..KeptSize(v)];
    result := if createFails then None else Some(tempBuffer[..destSize]);
  }

  // ----- the two together -----

  lemma ValuesOfBlock(block: seq<bv8>)
    requires 1 <= |block| <= 5
    ensures Values(EncodedBlock(block)) == BlockValues(block)
    ensures forall k | 0 <= k < 8 :: EncodedBlock(block)[k] < ASCII_VALUE_MAX
  {
    var values, text := BlockValues(block), EncodedBlock(block);
    forall k | 0 <= k < 8 ensures ConvertValue(text[k]) == values[k] && text[k] < ASCII_VALUE_MAX {
      Alphabet(values[k], 0);
    }
  }

  lemma BitOfQuintet(block: seq<bv8>, k: nat, j: nat)
    requires j < 5
    ensures Has(Quintet(block, k), 4 - j) <==> BitOf8(block, 5 * k + j)
  {
    BitsOfNumber5(BitOf8(block, 5 * k), BitOf8(block, 5 * k + 1), BitOf8(block, 5 * k + 2),
                BitOf8(block, 5 * k + 3), BitOf8(block, 5 * k + 4));
    hide BitOf8, Number5, Has;
  }

  lemma NoBitsInPadding(j: nat)
    requires j < 5
    ensures !Has(EQUAL_SIGN, 4 - j)
  {}

  /** The values of a block have the bits of the block. */
  lemma SameBits(block: seq<bv8>, i: nat)
    requires 1 <= |block| <= 5 && i < 40
    ensures BitOf5(BlockValues(block), i) == BitOf8(block, i)
  {
    hide Quintet, Has;
    var k := i / 5;
    assert i == 5 * k + i % 5;
    if k < Used(|block|) {
      BitOfQuintet(block, k, i % 5);
      hide BitOf8;
    } else {
      NoBitsInPadding(i % 5);
    }
  }

  lemma BitOfByte(block: seq<bv8>, k: nat, j: nat)
    requires 1 <= |block| <= 5 && k < |block| && j < 8
    ensures BitOf5(BlockValues(block), 8 * k + j) <==> Has(block[k], 7 - j)
  {
    hide BlockValues, BitOf5, Has;
    assert (8 * k + j) / 8 == k && (8 * k + j) % 8 == j;
    SameBits(block, 8 * k + j);
  }

  /** A block is read back, byte by byte. */
  lemma SameByte(block: seq<bv8>, k: nat)
    requires 1 <= |block| <= 5 && k < |block|
    ensures Octet(BlockValues(block), k) == block[k]
  {
    hide Number8, BlockValues, BitOf5, Has;
    NumberOfBits8(block[k]);
    BitOfByte(block, k, 0);
    BitOfByte(block, k, 1);
    BitOfByte(block, k, 2);
    BitOfByte(block, k, 3);
    BitOfByte(block, k, 4);
    BitOfByte(block, k, 5);
    BitOfByte(block, k, 6);
    BitOfByte(block, k, 7);
  }

  /** The bytes of a block are the first of the five read back, and its padding tells how many they are. */
  lemma DecodesBlock(block: seq<bv8>)
    requires 1 <= |block| <= 5
    ensures block <= DecodedBlock(BlockValues(block)) && Kept(BlockValues(block)) == |block|
  {
    hide DecodedBlock, Quintet, Octet, FirstOctets;
    DecoderMasks(BlockValues(block));
    BlockAt(block, 7);
    BlockAt(block, 5);
    BlockAt(block, 4);
    BlockAt(block, 2);
    forall k | 0 <= k < |block| ensures Octet(BlockValues(block), k) == block[k] { SameByte(block, k); }
  }

  lemma BufferedAppend(block: seq<bv8>, rest: seq<bv8>)
    requires |block| == 8
    ensures Buffered(block + rest) == DecodedBlock(block) + Buffered(rest)
    ensures KeptSize(block + rest) == Kept(block) + KeptSize(rest)
  {
    hide DecodedBlock, Kept;
    assert (block + rest)[..8] == block && (block + rest)[8..] == rest;
  }

  lemma ValuesAppend(s: seq<bv8>, t: seq<bv8>)
    ensures Values(s + t) == Values(s) + Values(t)
  {}

  /** Encoded text is never rejected. */
  lemma {:induction false} EncodingIsAccepted(bytes: seq<bv8>)
    ensures Accepted(Encoding(bytes))
  {
    hide EncodedBlock;
    if |bytes| > 5 {
      ValuesOfBlock(bytes[..5]);
      EncodingIsAccepted(bytes[5..]);
    } else if bytes != [] {
      ValuesOfBlock(bytes);
    }
  }

  /** Cutting the buffer after the bytes that a first full block and then the rest stand for. */
  lemma CutAppend(first: seq<bv8>, n: nat, second: seq<bv8>, m: nat)
    requires n <= |first| && m <= |second| && (n < |first| ==> m == 0)
    ensures (first + second)[..n + m] == first[..n] + second[..m]
  {}

  /** Decoding undoes encoding. */
  lemma {:induction false} DecodesWhatWasEncoded(bytes: seq<bv8>)
    ensures Decoding(Encoding(bytes)) == Some(bytes)
  {
    hide EncodedBlock, BlockValues, DecodedBlock, Kept, Values, Accepted;
    EncodingIsAccepted(bytes);
    if bytes != [] {
      var n := if |bytes| > 5 then 5 else |bytes|;
      var block, rest := bytes[..n], bytes[n..];
      DecodesWhatWasEncoded(rest);
      EncodingStep(bytes, 0, n);
      assert bytes[0..] == bytes && bytes == block + rest;
      ValuesOfBlock(block);
      ValuesAppend(EncodedBlock(block), Encoding(rest));
      var v := Values(Encoding(rest));
      BufferedAppend(BlockValues(block), v);
      DecodesBlock(block);
      EncodingIsAccepted(rest);
      EncodingHasItsLength(rest);
      CutAppend(DecodedBlock(BlockValues(block)), n, Buffered(v), KeptSize(v));
      assert Values(Encoding(bytes)) == BlockValues(block) + v;
      assert DecodedBlock(BlockValues(block))[..n] == block;
    }
  }

  // ----- the canonical texts -----

  predicate IsDigit(c: bv8) {
    0x61 <= c <= 0x7A || 0x32 <= c <= 0x37
  }

  /** The last block of a canonical text, which stands for `size` bytes: digits, then padding, and zeros for the bits of
      the last digit that belong to no byte. */
  ghost predicate CanonicalBlock(text: seq<bv8>, size: nat)
    requires |text| == 8 && 1 <= size <= 5
  {
    && (forall k | 0 <= k < 8 :: if k < Used(size) then IsDigit(text[k]) else text[k] == PAD)
    && (forall i | 8 * size <= i < 40 :: !BitOf5(Values(text), i))
  }

  /** Canonical are texts of whole blocks of eight digits and at most one last block. */
  ghost predicate Canonical(s: seq<bv8>) {
    || s == []
    || (|s| == 8 && exists size | 1 <= size <= 5 :: CanonicalBlock(s, size))
    || (|s| > 8 && CanonicalBlock(s[..8], 5) && Canonical(s[8..]))
  }

  lemma EncodedBlockIsCanonical(block: seq<bv8>)
    requires 1 <= |block| <= 5
    ensures CanonicalBlock(EncodedBlock(block), |block|)
  {
    hide Quintet, Has;
    var text := EncodedBlock(block);
    ValuesOfBlock(block);
    forall k | 0 <= k < 8 ensures if k < Used(|block|) then IsDigit(text[k]) else text[k] == PAD {
      BlockAt(block, k);
    }
    forall i | 8 * |block| <= i < 40 ensures !BitOf5(Values(text), i) {
      SameBits(block, i);
    }
  }

  lemma {:induction false} EncodingIsCanonical(bytes: seq<bv8>)
    ensures Canonical(Encoding(bytes))
  {
    hide EncodedBlock, CanonicalBlock;
    if |bytes| > 5 {
      EncodedBlockIsCanonical(bytes[..5]);
      EncodingIsCanonical(bytes[5..]);
      EncodingHasItsLength(bytes[5..]);
      assert Encoding(bytes)[..8] == EncodedBlock(bytes[..5]) && Encoding(bytes)[8..] == Encoding(bytes[5..]);
    } else if bytes != [] {
      EncodedBlockIsCanonical(bytes);
    }
  }

  lemma ValuesOfCanonical(text: seq<bv8>, size: nat, k: nat)
    requires |text| == 8 && 1 <= size <= 5 && CanonicalBlock(text, size) && k < 8
    ensures var v := Values(text)[k];
            && text[k] < ASCII_VALUE_MAX && Base32Char(v) == text[k]
            && if k < Used(size) then v < 32 else v == EQUAL_SIGN
  {
    Alphabet(0, text[k]);
  }

  /** The padding of a canonical block tells its size. */
  lemma KeptOfCanonical(text: seq<bv8>, size: nat)
    requires |text| == 8 && 1 <= size <= 5 && CanonicalBlock(text, size)
    ensures Kept(Values(text)) == size
  {
    hide CanonicalBlock, Base32Char, Values;
    ValuesOfCanonical(text, size, 2);
    ValuesOfCanonical(text, size, 4);
    ValuesOfCanonical(text, size, 5);
    ValuesOfCanonical(text, size, 7);
  }

  lemma BitOfOctet(v: seq<bv8>, k: nat, j: nat)
    requires j < 8
    ensures Has(Octet(v, k), 7 - j) <==> BitOf5(v, 8 * k + j)
  {
    hide BitOf5, Number8, Has;
    BitsOfNumber8(BitOf5(v, 8 * k), BitOf5(v, 8 * k + 1), BitOf5(v, 8 * k + 2), BitOf5(v, 8 * k + 3),
                  BitOf5(v, 8 * k + 4), BitOf5(v, 8 * k + 5), BitOf5(v, 8 * k + 6), BitOf5(v, 8 * k + 7));
  }

  /** The bytes read from a canonical block have the bits of its values. */
  lemma SameBitsDecoded(text: seq<bv8>, size: nat, i: nat)
    requires |text| == 8 && 1 <= size <= 5 && CanonicalBlock(text, size) && i < 40
    ensures BitOf8(DecodedBlock(Values(text))[..size], i) == BitOf5(Values(text), i)
  {
    hide Octet, Has, BitOf5, Values, DecodedBlock, Base32Char, FirstOctets;
    var v := Values(text);
    DecoderMasks(v);
    BitOfOctet(v, i / 8, i % 8);
    assert i == 8 * (i / 8) + i % 8;
  }

  /** So the digits come back. */
  lemma SameDigit(text: seq<bv8>, size: nat, k: nat)
    requires |text| == 8 && 1 <= size <= 5 && CanonicalBlock(text, size) && k < Used(size)
    ensures Quintet(DecodedBlock(Values(text))[..size], k) == Values(text)[k]
  {
    hide CanonicalBlock, DecodedBlock, Values, Number5, BitOf8, Has, Base32Char, BitOf5;
    ValuesOfCanonical(text, size, k);
    NumberOfBits5(Values(text)[k]);
    SameBitOfDigit(text, size, k, 0);
    SameBitOfDigit(text, size, k, 1);
    SameBitOfDigit(text, size, k, 2);
    SameBitOfDigit(text, size, k, 3);
    SameBitOfDigit(text, size, k, 4);
  }

  lemma SameBitOfDigit(text: seq<bv8>, size: nat, k: nat, j: nat)
    requires |text| == 8 && 1 <= size <= 5 && CanonicalBlock(text, size) && k < Used(size) && j < 5
    ensures BitOf8(DecodedBlock(Values(text))[..size], 5 * k + j) == Has(Values(text)[k], 4 - j)
  {
    hide CanonicalBlock, DecodedBlock, Values, Has, BitOf8;
    SameBitsDecoded(text, size, 5 * k + j);
    assert (5 * k + j) / 5 == k && (5 * k + j) % 5 == j;
  }

  lemma EncodesCanonicalBlock(text: seq<bv8>, size: nat)
    requires |text| == 8 && 1 <= size <= 5 && CanonicalBlock(text, size)
    ensures EncodedBlock(DecodedBlock(Values(text))[..size]) == text
  {
    hide CanonicalBlock, DecodedBlock, Quintet, Values, Base32Char, BlockValues, EncodedBlock;
    var block := DecodedBlock(Values(text))[..size];
    forall k | 0 <= k < 8 ensures EncodedBlock(block)[k] == text[k] {
      BlockAt(block, k);
      ValuesOfCanonical(text, size, k);
      if k < Used(size) { SameDigit(text, size, k); }
    }
  }

  /** A canonical text is decoded, and encoded again as it was. */
  lemma {:induction false} EncodesCanonical(s: seq<bv8>)
    requires Canonical(s)
    ensures Accepted(s) && Encoding(Decoding(s).value) == s
  {
    hide CanonicalBlock, DecodedBlock, Values, EncodedBlock, Kept, Base32Char;
    if s != [] {
      var size := if |s| > 8 then 5 else var n :| 1 <= n <= 5 && CanonicalBlock(s, n); n;
      var text, rest := s[..8], s[8..];
      assert s == text + rest && (|s| == 8 ==> text == s);
      forall k | 0 <= k < 8 ensures text[k] < ASCII_VALUE_MAX { ValuesOfCanonical(text, size, k); }
      EncodesCanonical(rest);
      EncodesCanonicalBlock(text, size);
      KeptOfCanonical(text, size);
      ValuesAppend(text, rest);
      var v, w := Values(text), Values(rest);
      BufferedAppend(v, w);
      CutAppend(DecodedBlock(v), size, Buffered(w), KeptSize(w));
      var bytes := Decoding(s).value;
      assert bytes == DecodedBlock(v)[..size] + Decoding(rest).value;
      EncodingStep(bytes, 0, size);
      assert bytes[0..] == bytes && bytes[..size] == DecodedBlock(v)[..size] && bytes[size..] == Decoding(rest).value;
    }
  }

  /** Exactly the canonical texts are what encoding yields again. */
  lemma EncodingUndoesDecodingExactly(s: seq<bv8>)
    ensures Decoding(s).Some? && Encoding(Decoding(s).value) == s <==> Canonical(s)
  {
    if Decoding(s).Some? { EncodingIsCanonical(Decoding(s).value); }
    if Canonical(s) { EncodesCanonical(s); }
  }

  /** Strings that differ only in characters that convert alike are decoded alike. */
  lemma ConvertedAlike(s: seq<bv8>, t: seq<bv8>)
    requires |s| == |t| && forall k | 0 <= k < |s| :: ConvertValue(s[k]) == ConvertValue(t[k])
    requires forall k | 0 <= k < |s| :: s[k] < ASCII_VALUE_MAX <==> t[k] < ASCII_VALUE_MAX
    ensures Decoding(s) == Decoding(t)
  {
    hide ConvertValue, Buffered, KeptSize;
    assert Values(s) == Values(t);
  }

  /** Letter case does not matter. */
  lemma CaseDoesNotMatter(s: seq<bv8>, t: seq<bv8>)
    requires |s| == |t| && forall k | 0 <= k < |s| :: LowerCase(s[k]) == LowerCase(t[k])
    ensures Decoding(s) == Decoding(t)
  {
    forall k | 0 <= k < |s| ensures ConvertValue(s[k]) == ConvertValue(t[k]) {
      Alphabet(0, s[k]);
      Alphabet(0, t[k]);
    }
    ConvertedAlike(s, t);
  }

  /** A brace is decoded like the digit 2. */
  lemma BraceIsTwo(s: seq<bv8>, k: nat)
    requires k < |s| && s[k] == 0x7B
    ensures Decoding(s) == Decoding(s[k := 0x32])
  {
    ConvertedAlike(s, s[k := 0x32]);
  }
}
