/** Bytes as streams of bits, and the numbers that runs of bits spell: what the base 32 and base 64 texts have in
    common. */
module BitStream {

  function Weight(k: nat): bv8
    requires k < 8
  {
    if k == 0 then 0x01 else if k == 1 then 0x02 else if k == 2 then 0x04 else if k == 3 then 0x08
    else if k == 4 then 0x10 else if k == 5 then 0x20 else if k == 6 then 0x40 else 0x80
  }

  predicate Has(b: bv8, k: nat)
    requires k < 8
  {
    b & Weight(k) != 0
  }

  /** Bit `i` of some bytes, the highest of each byte first; behind the last byte there are zeros. */
  predicate BitOf8(bytes: seq<bv8>, i: nat) {
    i / 8 < |bytes| && Has(bytes[i / 8], 7 - i % 8)
  }

  /** Bit `i` of the low six bits of some values. */
  predicate BitOf6(values: seq<bv8>, i: nat) {
    i / 6 < |values| && Has(values[i / 6], 5 - i % 6)
  }

  /** Bit `i` of the low five bits of some values. */
  predicate BitOf5(values: seq<bv8>, i: nat) {
    i / 5 < |values| && Has(values[i / 5], 4 - i % 5)
  }

  function Bit(bit: bool, k: nat): bv8
    requires k < 8
  {
    if bit then Weight(k) else 0
  }

  function Number5(b4: bool, b3: bool, b2: bool, b1: bool, b0: bool): (v: bv8)
    ensures v < 32
  {
    Bit(b4, 4) | Bit(b3, 3) | Bit(b2, 2) | Bit(b1, 1) | Bit(b0, 0)
  }

  function Number6(b5: bool, b4: bool, b3: bool, b2: bool, b1: bool, b0: bool): (v: bv8)
    ensures v < 64
  {
    Bit(b5, 5) | Bit(b4, 4) | Bit(b3, 3) | Bit(b2, 2) | Bit(b1, 1) | Bit(b0, 0)
  }

  function Number8(b7: bool, b6: bool, b5: bool, b4: bool, b3: bool, b2: bool, b1: bool, b0: bool): bv8 {
    Bit(b7, 7) | Bit(b6, 6) | Bit(b5, 5) | Bit(b4, 4) | Bit(b3, 3) | Bit(b2, 2) | Bit(b1, 1) | Bit(b0, 0)
  }

  lemma BitsOfNumber5(b4: bool, b3: bool, b2: bool, b1: bool, b0: bool)
    ensures var v := Number5(b4, b3, b2, b1, b0);
            && (Has(v, 4) <==> b4) && (Has(v, 3) <==> b3) && (Has(v, 2) <==> b2)
            && (Has(v, 1) <==> b1) && (Has(v, 0) <==> b0)
  {}

  lemma BitsOfNumber6(b5: bool, b4: bool, b3: bool, b2: bool, b1: bool, b0: bool)
    ensures var v := Number6(b5, b4, b3, b2, b1, b0);
            && (Has(v, 5) <==> b5) && (Has(v, 4) <==> b4) && (Has(v, 3) <==> b3)
            && (Has(v, 2) <==> b2) && (Has(v, 1) <==> b1) && (Has(v, 0) <==> b0)
  {}

  lemma BitsOfNumber8(b7: bool, b6: bool, b5: bool, b4: bool, b3: bool, b2: bool, b1: bool, b0: bool)
    ensures var v := Number8(b7, b6, b5, b4, b3, b2, b1, b0);
            && (Has(v, 7) <==> b7) && (Has(v, 6) <==> b6) && (Has(v, 5) <==> b5) && (Has(v, 4) <==> b4)
            && (Has(v, 3) <==> b3) && (Has(v, 2) <==> b2) && (Has(v, 1) <==> b1) && (Has(v, 0) <==> b0)
  {}

  lemma NumberOfBits5(v: bv8)
    requires v < 32
    ensures Number5(Has(v, 4), Has(v, 3), Has(v, 2), Has(v, 1), Has(v, 0)) == v
  {}

  lemma NumberOfBits6(v: bv8)
    requires v < 64
    ensures Number6(Has(v, 5), Has(v, 4), Has(v, 3), Has(v, 2), Has(v, 1), Has(v, 0)) == v
  {}

  lemma NumberOfBits8(b: bv8)
    ensures Number8(Has(b, 7), Has(b, 6), Has(b, 5), Has(b, 4), Has(b, 3), Has(b, 2), Has(b, 1), Has(b, 0)) == b
  {}
}
