/** The receive half of the SChannel adapter in its open state: ciphertext arrives in arbitrary fragments, and
    the drain loop hands complete records (section 6.2 of RFC 5246) to the decryption library. */
module SchannelReceive {
  import opened Common

  const HEADER := 5

  // ----- records -----

  /** The length announced by a record header: one byte of type, two of version, two of length. */
  function RecordLength(buffer: seq<byte>): (length: nat)
    requires |buffer| >= HEADER
    ensures length >= HEADER
  {
    HEADER + buffer[3] as int * 256 + buffer[4] as int
  }

  predicate Complete(buffer: seq<byte>) {
    |buffer| >= HEADER && |buffer| >= RecordLength(buffer)
  }

  /** A record is complete when the five bytes of its header and as many more as the last two of these say, the higher
      first, are there. */
  lemma CompleteMeans(buffer: seq<byte>)
    ensures Complete(buffer) <==> |buffer| >= 5 && |buffer| >= 5 + 256 * buffer[3] as int + buffer[4] as int
    ensures Complete(buffer) ==> RecordLength(buffer) == 5 + 256 * buffer[3] as int + buffer[4] as int
  {}

  /** The fewest bytes that could make the first record complete. */
  function Missing(buffer: seq<byte>): (count: nat)
    requires !Complete(buffer)
    ensures count > 0
  {
    if |buffer| < HEADER - 1 then HEADER - |buffer|
    else if |buffer| == HEADER - 1 then 1 + buffer[3] as int * 256
    else RecordLength(buffer) - |buffer|
  }

  /** With fewer bytes than `Missing` no continuation is complete, and with that many some continuation is. */
  lemma MissingIsExact(buffer: seq<byte>)
    requires !Complete(buffer)
    ensures forall more: seq<byte> | |more| < Missing(buffer) :: !Complete(buffer + more)
    ensures exists more: seq<byte> | |more| == Missing(buffer) :: Complete(buffer + more)
  {
    var more := seq(Missing(buffer), _ => 0 as byte);
    assert Complete(buffer + more);
  }

  /** What the n-th record of a session decrypts to. */
  type Cipher = (nat, seq<byte>) -> seq<byte>

  /** The plaintext of the complete records at the front of `stream`, the first of which is number `n`. */
  ghost function Plaintext(cipher: Cipher, n: nat, stream: seq<byte>): seq<byte>
    decreases |stream|
  {
    if !Complete(stream) then [] else
      var length := RecordLength(stream);
      cipher(n, stream[..length]) + Plaintext(cipher, n + 1, stream[length..])
  }

  /** The bytes behind the complete records. */
  ghost function Leftover(stream: seq<byte>): (rest: seq<byte>)
    ensures !Complete(rest) && |rest| <= |stream|
    decreases |stream|
  {
    if Complete(stream) then Leftover(stream[RecordLength(stream)..]) else stream
  }

  ghost function Records(stream: seq<byte>): nat
    decreases |stream|
  {
    if Complete(stream) then 1 + Records(stream[RecordLength(stream)..]) else 0
  }

  lemma OneRecord(cipher: Cipher, n: nat, stream: seq<byte>)
    requires Complete(stream)
    ensures var length := RecordLength(stream);
            && Plaintext(cipher, n, stream) == cipher(n, stream[..length]) + Plaintext(cipher, n + 1, stream[length..])
            && Leftover(stream) == Leftover(stream[length..]) && Records(stream) == 1 + Records(stream[length..])
  {}

  lemma NoRecord(cipher: Cipher, n: nat, stream: seq<byte>)
    requires !Complete(stream)
    ensures Plaintext(cipher, n, stream) == [] && Leftover(stream) == stream && Records(stream) == 0
  {}

  /** What follows a complete record does not change it. */
  lemma SameRecord(first: seq<byte>, second: seq<byte>)
    requires Complete(first)
    ensures var stream, length := first + second, RecordLength(first);
            && Complete(stream) && RecordLength(stream) == length <= |first|
            && stream[..length] == first[..length] && stream[length..] == first[length..] + second
  {}

  /** Decoding a stream in two parts: the second part continues from the leftover of the first. */
  lemma {:induction false} DecodeInParts(cipher: Cipher, n: nat, first: seq<byte>, second: seq<byte>)
    ensures Plaintext(cipher, n, first + second) ==
            Plaintext(cipher, n, first) + Plaintext(cipher, n + Records(first), Leftover(first) + second)
    ensures Leftover(first + second) == Leftover(Leftover(first) + second)
    ensures Records(first + second) == Records(first) + Records(Leftover(first) + second)
    decreases |first|
  {
    if Complete(first) {
      var length := RecordLength(first);
      SameRecord(first, second);
      hide Complete, RecordLength, Plaintext, Leftover, Records;
      OneRecord(cipher, n, first);
      OneRecord(cipher, n, first + second);
      DecodeInParts(cipher, n + 1, first[length..], second);
      Associative(cipher(n, first[..length]), Plaintext(cipher, n + 1, first[length..]),
                  Plaintext(cipher, n + Records(first), Leftover(first) + second));
    } else {
      NoRecord(cipher, n, first);
      hide Plaintext, Leftover, Records;
    }
  }

  /** What has been delivered does not depend on how the stream was cut: however it arrives in fragments,
      continuing from leftover to leftover yields the decoding of the whole. */
  ghost function DecodeFragments(cipher: Cipher, n: nat, held: seq<byte>, fragments: seq<seq<byte>>): seq<byte>
    decreases |fragments|
  {
    if fragments == [] then [] else
      var buffer := held + fragments[0];
      Plaintext(cipher, n, buffer) + DecodeFragments(cipher, n + Records(buffer), Leftover(buffer), fragments[1..])
  }

  lemma FirstFragment(cipher: Cipher, n: nat, held: seq<byte>, fragments: seq<seq<byte>>)
    requires fragments != []
    ensures var buffer := held + fragments[0];
            DecodeFragments(cipher, n, held, fragments) ==
            Plaintext(cipher, n, buffer)
            + DecodeFragments(cipher, n + Records(buffer), Leftover(buffer), fragments[1..])
  {
    hide Plaintext, Leftover, Records;
  }

  lemma SameStream(held: seq<byte>, fragments: seq<seq<byte>>)
    requires fragments != []
    ensures held + Flatten(fragments) == (held + fragments[0]) + Flatten(fragments[1..])
  {
    Associative(held, fragments[0], Flatten(fragments[1..]));
  }

  lemma NoFragments(cipher: Cipher, n: nat, held: seq<byte>)
    requires !Complete(held)
    ensures DecodeFragments(cipher, n, held, []) == Plaintext(cipher, n, held + Flatten([]))
  {
    assert held + [] == held;
  }

  lemma {:induction false} FragmentationIsInvisible(cipher: Cipher, n: nat, held: seq<byte>, fragments: seq<seq<byte>>)
    requires !Complete(held)
    decreases |fragments|
    ensures DecodeFragments(cipher, n, held, fragments) == Plaintext(cipher, n, held + Flatten(fragments))
  {
    hide Plaintext, Leftover, Records, Complete, DecodeFragments, Flatten;
    if fragments == [] {
      NoFragments(cipher, n, held);
    } else {
      var buffer, rest := held + fragments[0], Flatten(fragments[1..]);
      FirstFragment(cipher, n, held, fragments);
      FragmentationIsInvisible(cipher, n + Records(buffer), Leftover(buffer), fragments[1..]);
      DecodeInParts(cipher, n, buffer, rest);
      SameStream(held, fragments);
    }
  }

  /** Waiting for fewer bytes than are missing, some of which have come. */
  lemma MissingAfterArrival(buffer: seq<byte>, bytes: seq<byte>)
    requires !Complete(buffer) && |bytes| < Missing(buffer)
    ensures !Complete(buffer + bytes) && Missing(buffer + bytes) >= Missing(buffer) - |bytes|
  {}

  // ----- the adapter -----

  datatype State = Open | Error

  /** The library's verdict on a buffer. `missing` is its hint, absent when it gives none; on success the
      plaintext lies in the buffer at `offset`, and `extra` bytes follow the record. */
  datatype Verdict =
    | Incomplete(missing: Option<nat>)
    | Decrypted(offset: nat, length: nat, extra: Option<nat>)
    | Broken

  /** Decryption never yields more than the record's payload. */
  ghost predicate Fits(cipher: Cipher) {
    forall n: nat, record: seq<byte> :: |record| >= HEADER ==> |cipher(n, record)| <= |record| - HEADER
  }

  class Adapter {
    var state: State
    var received: array<byte>
    var count: nat
    var needed: nat
    // the library's session: its keys, and the records it has decrypted
    const cipher: Cipher
    var records: nat
    // all bytes taken in, the plaintext handed on, the errors indicated
    ghost var stream: seq<byte>
    ghost var delivered: seq<byte>
    ghost var errors: nat
    // calls of the library and of realloc that have failed
    ghost var failures: nat

    /** The buffer continues the stream after the records already handed on. */
    ghost predicate Consistent()
      reads this, received
    {
      && Fits(cipher)
      && count <= received.Length
      && errors == (if state == Error then 1 else 0)
      && delivered <= Plaintext(cipher, 0, stream)
      && (state == Open ==> Continues(cipher, stream, delivered, records, received[..count]))
    }

    /** Between calls everything that can be delivered has been, and there is room for the bytes waited for. */
    ghost predicate Valid()
      reads this, received
    {
      && Consistent()
      && (state == Open ==>
            && !Complete(received[..count])
            && 0 < needed <= Missing(received[..count])
            && count + needed <= received.Length)
    }

    /** What `Valid` means for the user of an open adapter. */
    lemma ValidMeans()
      requires Valid() && state == Open
      ensures delivered == Plaintext(cipher, 0, stream)
      ensures received[..count] == Leftover(stream)
      ensures records == Records(stream)
    {
      assert delivered + [] == delivered;
    }

    /** The handshake has just succeeded, leaving `leftover` in the buffer. */
    constructor (cipher: Cipher, leftover: seq<byte>)
      requires Fits(cipher)
      ensures Valid() && fresh(received)
      ensures this.cipher == cipher && stream == leftover
    {
      state, count, records := Open, |leftover|, 0;
      var size := if leftover == [] then 1 else |leftover|;
      received := new byte[size](i => if 0 <= i < |leftover| then leftover[i] else 0);
      needed := if leftover == [] then 1 else 0;
      this.cipher := cipher;
      stream, delivered, errors, failures := leftover, [], 0, 0;
      new;
      assert received[..count] == leftover;
      assert [] + Plaintext(cipher, 0, leftover) == Plaintext(cipher, 0, leftover);
      Drain();
    }

    /** `realloc`: a block of the new size with the old contents; or failure with nothing changed, if it is not
        `granted`. */
    method Reallocate(size: nat, granted: bool) returns (ok: bool)
      requires count <= size && count <= received.Length
      modifies `received, `failures
      ensures ok == granted && failures == old(failures) + (if ok then 0 else 1)
      ensures ok ==> fresh(received) && received.Length == size && received[..count] == old(received[..count])
      ensures !ok ==> received == old(received)
    {
      ok := granted;
      if ok {
        var block := new byte[size];
        forall i | 0 <= i < count { block[i] := received[i]; }
        received := block;
      } else {
        failures := failures + 1;
      }
    }

    /** `resize_receive_buffer`: grows the buffer if it is smaller than `size`, and fails exactly if it cannot. */
    method ResizeReceiveBuffer(size: nat, granted: bool) returns (ok: bool)
      requires count <= received.Length
      modifies `received, `failures
      ensures ok <==> size <= old(received.Length) || granted
      ensures failures == old(failures) + (if ok then 0 else 1)
      ensures if ok && size > old(received.Length) then fresh(received) && received.Length == size
              else received == old(received)
      ensures received[..count] == old(received[..count])
    {
      ok := true;
      if size > received.Length {
        ok := Reallocate(size, granted);
      }
    }

    /** The library. It asks for more exactly when the first record is incomplete, never for more bytes than are
        missing; otherwise it replaces the record's payload by its plaintext in place. It may fail at any time. */
    method DecryptMessage(ghost buffer: seq<byte>) returns (verdict: Verdict)
      requires Fits(cipher) && count <= received.Length && buffer == received[..count]
      modifies received, `records, `failures
      ensures failures == old(failures) + (if verdict.Broken? then 1 else 0)
      ensures !verdict.Decrypted? ==> received[..count] == buffer && records == old(records)
      ensures verdict.Incomplete? ==>
                && !Complete(buffer)
                && (verdict.missing.Some? ==> 0 < verdict.missing.value <= Missing(buffer))
      ensures verdict.Decrypted? ==>
                && Complete(buffer)
                && var length := RecordLength(buffer);
                && verdict.offset + verdict.length <= length
                && received[verdict.offset..verdict.offset + verdict.length] == cipher(old(records), buffer[..length])
                && received[length..count] == buffer[length..]
                && verdict.extra == (if length < count then Some(count - length) else None)
                && records == old(records) + 1
    {
      var present := received[..count];
      var fails: bool := *;
      if fails {
        verdict := Broken;
        failures := failures + 1;
      } else if !Complete(present) {
        var hint: nat :| 0 < hint <= Missing(present);
        var hints: bool := *;
        verdict := Incomplete(if hints then Some(hint) else None);
      } else {
        var length := RecordLength(present);
        var plain := cipher(records, present[..length]);
        forall i | 0 <= i < |plain| { received[HEADER + i] := plain[i]; }
        assert received[HEADER..HEADER + |plain|] == plain;
        assert received[length..count] == buffer[length..];
        records := records + 1;
        verdict := Decrypted(HEADER, |plain|, if length < count then Some(count - length) else None);
      }
    }

    /** Moves the bytes behind the first `consumed` ones to the front of the buffer. */
    method Discard(consumed: nat)
      requires consumed <= count <= received.Length
      modifies received, `count
      ensures count == old(count) - consumed
      ensures received[..count] == old(received[consumed..count])
    {
      ghost var rest := received[consumed..count];
      forall i | 0 <= i < count - consumed { received[i] := received[consumed + i]; }
      count := count - consumed;
      assert received[..count] == rest;
    }

    /** Moves the state to error and tells the user. */
    method IndicateError()
      requires state == Open
      modifies `state, `errors
      ensures state == Error && errors == old(errors) + 1
    {
      state, errors := Error, errors + 1;
    }

    /** The record at the front of `buffer` has been decrypted in place: hands its plaintext to the user and
        discards it. */
    method HandOn(offset: nat, length: nat, extra: Option<nat>, ghost buffer: seq<byte>)
      requires state == Open && Fits(cipher) && errors == 0
      requires |buffer| == count <= received.Length && Complete(buffer)
      requires records > 0 && Continues(cipher, stream, delivered, records - 1, buffer)
      requires offset + length <= RecordLength(buffer)
      requires received[offset..offset + length] == cipher(records - 1, buffer[..RecordLength(buffer)])
      requires received[RecordLength(buffer)..count] == buffer[RecordLength(buffer)..]
      requires extra == (if RecordLength(buffer) < count then Some(count - RecordLength(buffer)) else None)
      modifies `state, `errors, `count, `needed, `delivered, `received, `failures, received
      ensures Consistent() && (needed > 0 ==> Valid())
      ensures failures == old(failures) + (if state == Open then 0 else 1)
      ensures count == old(count) - RecordLength(buffer)
      ensures received == old(received) || fresh(received)
    {
      assert |buffer| >= HEADER && RecordLength(buffer) <= |buffer|;
      hide Plaintext, Leftover, Records, Continues, Complete, Missing, RecordLength, Fits;
      Deliver(offset, length, if extra.Some? then count - extra.value else count, buffer);
      Settle();
    }

    /** The first `consumed` bytes are the record. */
    method Deliver(offset: nat, length: nat, consumed: nat, ghost buffer: seq<byte>)
      requires state == Open && Fits(cipher) && errors == 0
      requires |buffer| == count <= received.Length && Complete(buffer)
      requires records > 0 && Continues(cipher, stream, delivered, records - 1, buffer)
      requires consumed == RecordLength(buffer) <= count && offset + length <= consumed
      requires received[offset..offset + length] == cipher(records - 1, buffer[..consumed])
      requires received[consumed..count] == buffer[consumed..]
      modifies `count, `delivered, received
      ensures Consistent() && count == old(count) - consumed
    {
      hide Plaintext, Leftover, Records, Continues, Complete, Missing, RecordLength, Fits;
      ContinuesAfterRecord(cipher, stream, delivered, records - 1, buffer);
      delivered := delivered + received[offset..offset + length];
      Discard(consumed);
    }

    /** After a record: waits for the beginning of the next one if nothing is left, and fits the buffer to that. */
    method Settle()
      requires state == Open && Consistent()
      modifies `state, `errors, `needed, `received, `failures
      ensures Consistent() && (needed > 0 ==> Valid())
      ensures failures == old(failures) + (if state == Open then 0 else 1)
      ensures received == old(received) || fresh(received)
    {
      assert !Complete([]) && Missing([]) >= 1;
      hide Plaintext, Leftover, Records, Continues, Complete, Missing, Fits;
      needed := if count == 0 then 1 else 0;
      var granted: bool := *;
      var ok := Reallocate(needed + count, granted);
      assert count == 0 ==> received[..count] == [];
      if !ok {
        IndicateError();
      }
    }

    /** The first record is incomplete: makes room for as many more bytes as the library asked for, or for one. */
    method AskForMore(missing: Option<nat>, ghost buffer: seq<byte>)
      requires state == Open && Consistent() && buffer == received[..count] && !Complete(buffer)
      requires missing.Some? ==> 0 < missing.value <= Missing(buffer)
      modifies `state, `errors, `needed, `received, `failures
      ensures Valid() && needed == (if missing.Some? then missing.value else 1)
      ensures failures == old(failures) + (if state == Open then 0 else 1)
      ensures received == old(received) || fresh(received)
    {
      hide Plaintext, Leftover, Records, Continues, Complete, Missing, RecordLength, Fits;
      needed := if missing.Some? then missing.value else 1;
      var granted: bool := *;
      var ok := ResizeReceiveBuffer(count + needed, granted);
      if !ok {
        IndicateError();
      }
    }

    /** The drain loop: decrypts and hands on complete records until more bytes are needed. It ends in an error exactly
        if the library or an allocation failed on the way. */
    method Drain()
      requires Consistent()
      requires needed > 0 ==> Valid()
      modifies this, received
      ensures Valid() && stream == old(stream)
      ensures received == old(received) || fresh(received)
      ensures old(state) == Error ==> state == Error && delivered == old(delivered)
      ensures old(state) == Open ==> failures == old(failures) + (if state == Open then 0 else 1)
    {
      hide Plaintext, Leftover, Records, Continues, Complete, Missing, Fits;
      while needed == 0
        invariant Consistent() && (needed > 0 ==> Valid())
        invariant stream == old(stream)
        invariant received == old(received) || fresh(received)
        invariant old(state) == Error ==> state == Error && delivered == old(delivered)
        invariant old(state) == Open ==> failures == old(failures) + (if state == Open then 0 else 1)
        decreases needed == 0, state == Open, count
      {
        if state == Error {
          break;
        }
        ghost var buffer := received[..count];
        var verdict := DecryptMessage(buffer);
        match verdict
        case Broken => IndicateError();
        case Incomplete(missing) => AskForMore(missing, buffer);
        case Decrypted(offset, length, extra) => HandOn(offset, length, extra, buffer);
      }
    }

    /** A fragment arrives. It is taken in, and then everything complete has been handed on; or, exactly if it does not
        fit and memory is not `granted`, it is dropped without anyone being told. */
    method OnBytesReceived(bytes: seq<byte>, granted: bool) returns (taken: bool)
      requires Valid()
      modifies this, received
      ensures Valid()
      ensures received == old(received) || fresh(received)
      ensures taken <==> old(count) + |bytes| <= old(received.Length) || granted
      ensures stream == if taken then old(stream) + bytes else old(stream)
      ensures !taken ==> delivered == old(delivered) && state == old(state) && errors == old(errors)
      ensures old(state) == Error ==> state == Error && delivered == old(delivered)
      ensures taken && old(state) == Open ==> failures == old(failures) + (if state == Open then 0 else 1)
    {
      hide Plaintext, Leftover, Records, Continues, Complete, Missing, RecordLength, Fits;
      taken := ResizeReceiveBuffer(count + |bytes|, granted);
      if !taken {
        return;
      }
      ghost var buffer := received[..count];
      forall i | 0 <= i < |bytes| { received[count + i] := bytes[i]; }
      count := count + |bytes|;
      assert received[..count] == buffer + bytes;
      PlaintextGrows(cipher, stream, bytes);
      if state == Open {
        ContinuesAfterArrival(cipher, stream, delivered, records, buffer, bytes);
        if |bytes| < needed {
          MissingAfterArrival(buffer, bytes);
        }
      }
      stream := stream + bytes;
      needed := if |bytes| > needed then 0 else needed - |bytes|;
      Drain();
    }
  }

  /** `buffer` is what is left of `stream` after the first `records` records, whose plaintext is `delivered`. */
  ghost predicate Continues(cipher: Cipher, stream: seq<byte>, delivered: seq<byte>, records: nat, buffer: seq<byte>) {
    && delivered + Plaintext(cipher, records, buffer) == Plaintext(cipher, 0, stream)
    && Leftover(buffer) == Leftover(stream)
    && records + Records(buffer) == Records(stream)
  }

  /** Handing on the first record. */
  lemma ContinuesAfterRecord(cipher: Cipher, stream: seq<byte>, delivered: seq<byte>, records: nat, buffer: seq<byte>)
    requires Continues(cipher, stream, delivered, records, buffer) && Complete(buffer)
    ensures var length := RecordLength(buffer);
            Continues(cipher, stream, delivered + cipher(records, buffer[..length]), records + 1, buffer[length..])
    ensures delivered + cipher(records, buffer[..RecordLength(buffer)]) <= Plaintext(cipher, 0, stream)
  {
    var length := RecordLength(buffer);
    Associative(delivered, cipher(records, buffer[..length]), Plaintext(cipher, records + 1, buffer[length..]));
  }

  /** Bytes arriving behind the buffer. */
  lemma ContinuesAfterArrival(cipher: Cipher, stream: seq<byte>, delivered: seq<byte>, records: nat,
                              buffer: seq<byte>, bytes: seq<byte>)
    requires Continues(cipher, stream, delivered, records, buffer)
    ensures Continues(cipher, stream + bytes, delivered, records, buffer + bytes)
  {
    hide Plaintext, Leftover, Records;
    DecodeInParts(cipher, 0, stream, bytes);
    DecodeInParts(cipher, records, buffer, bytes);
    var rest := Plaintext(cipher, Records(stream), Leftover(stream) + bytes);
    Associative(delivered, Plaintext(cipher, records, buffer), rest);
  }

  lemma PlaintextGrows(cipher: Cipher, stream: seq<byte>, bytes: seq<byte>)
    ensures Plaintext(cipher, 0, stream) <= Plaintext(cipher, 0, stream + bytes)
  {
    DecodeInParts(cipher, 0, stream, bytes);
  }

  // ----- a dropped fragment -----

  /** A record with one byte in it. */
  function OneByte(payload: byte): seq<byte> {
    [23, 3, 3, 0, 1, payload]
  }

  /** A session whose records carry their payload as it is. */
  function Bare(n: nat, record: seq<byte>): seq<byte> {
    if |record| < HEADER then [] else record[HEADER..]
  }

  /** What a dropped fragment means for the user: of two records, if the fragment with the first one is dropped, the
      user gets the second one's plaintext as if it were the first, with no error anywhere. */
  lemma DroppedFragmentIsLost(first: byte, second: byte)
    ensures Fits(Bare)
    ensures Plaintext(Bare, 0, OneByte(first) + OneByte(second)) == [first, second]
    ensures Plaintext(Bare, 0, OneByte(second)) == [second]
  {
    var both := OneByte(first) + OneByte(second);
    assert both[..6] == OneByte(first) && both[6..] == OneByte(second);
    OneRecord(Bare, 0, both);
    LastRecord(0, second);
    LastRecord(1, second);
    hide Plaintext;
    assert [first] + [second] == [first, second];
  }

  lemma LastRecord(n: nat, payload: byte)
    ensures Complete(OneByte(payload)) && Plaintext(Bare, n, OneByte(payload)) == [payload]
  {
    var record := OneByte(payload);
    assert record[..6] == record && record[6..] == [];
    OneRecord(Bare, n, record);
    NoRecord(Bare, n + 1, []);
    hide Plaintext;
  }

  /** A fragment that cuts a record can even make the library wait for bytes of another record: without it the bytes
      behind are read as the rest of the record it belongs to. */
  lemma DroppedFragmentGarbles(first: byte, second: byte)
    ensures Plaintext(Bare, 0, OneByte(first)[..5] + OneByte(second)) == [23]
    ensures Leftover(OneByte(first)[..5] + OneByte(second)) == OneByte(second)[1..]
  {
    var torn := OneByte(first)[..5] + OneByte(second);
    var rest := OneByte(second)[1..];
    assert torn[..6] == OneByte(23) && torn[6..] == rest;
    assert !Complete(rest);
    OneRecord(Bare, 0, torn);
    NoRecord(Bare, 1, rest);
    hide Plaintext, Leftover;
  }
}
