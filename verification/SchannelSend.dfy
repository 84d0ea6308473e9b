/** The send half of the SChannel adapter: messages go out as records of at most 16384 plaintext bytes
    (section 6.2.1 of RFC 5246); while the session is being renegotiated they wait in a queue. */
module SchannelSend {
  import opened Common
  import opened Messages

  const MAX_CHUNK := 16 * 1024

  /** A record's plaintext; `notify` says that the message's completion callback travels with it. */
  datatype Chunk = Chunk(bytes: seq<byte>, notify: bool)

  /** The chunks of a message that begin at the front of what is left of it. */
  ghost function Chunks(bytes: seq<byte>, notify: bool): seq<Chunk> {
    if bytes == [] then []
    else if |bytes| <= MAX_CHUNK then [Chunk(bytes, notify)]
    else [Chunk(bytes[..MAX_CHUNK], false)] + Chunks(bytes[MAX_CHUNK..], notify)
  }

  ghost function ChunksOf(messages: seq<Message>): seq<Chunk> {
    if messages == [] then [] else Chunks(messages[0].bytes, messages[0].notify) + ChunksOf(messages[1..])
  }

  ghost function Payload(chunks: seq<Chunk>): seq<byte> {
    if chunks == [] then [] else chunks[0].bytes + Payload(chunks[1..])
  }

  /** Every chunk is a legal record, and the callback is on the last one only. */
  lemma {:induction false} ChunksAreRecords(bytes: seq<byte>, notify: bool)
    ensures forall i | 0 <= i < |Chunks(bytes, notify)| :: var c := Chunks(bytes, notify)[i];
              1 <= |c.bytes| <= 16384 && (c.notify <==> notify && i == |Chunks(bytes, notify)| - 1)
  {
    if |bytes| > MAX_CHUNK {
      var rest := Chunks(bytes[MAX_CHUNK..], notify);
      ChunksAreRecords(bytes[MAX_CHUNK..], notify);
      assert rest != [];
      hide Chunks;
      assert forall i | 1 <= i < |Chunks(bytes, notify)| :: Chunks(bytes, notify)[i] == rest[i-1];
    }
  }

  lemma PayloadHead(c: Chunk, rest: seq<Chunk>)
    ensures Payload([c] + rest) == c.bytes + Payload(rest)
  {
    assert ([c] + rest)[1..] == rest;
  }

  /** Together the chunks are the message, and there are no more of them than its length needs. */
  lemma {:induction false} ChunksAreTheMessage(bytes: seq<byte>, notify: bool)
    ensures Payload(Chunks(bytes, notify)) == bytes
    ensures |Chunks(bytes, notify)| == (|bytes| + 16383) / 16384
  {
    assert Payload([]) == [];
    hide Payload;
    if |bytes| > MAX_CHUNK {
      ChunksAreTheMessage(bytes[MAX_CHUNK..], notify);
      PayloadHead(Chunk(bytes[..MAX_CHUNK], false), Chunks(bytes[MAX_CHUNK..], notify));
      assert bytes == bytes[..MAX_CHUNK] + bytes[MAX_CHUNK..];
    } else if bytes != [] {
      PayloadHead(Chunk(bytes, notify), []);
      assert [Chunk(bytes, notify)] + [] == [Chunk(bytes, notify)];
    }
  }

  lemma FirstChunk(bytes: seq<byte>, notify: bool, size: nat)
    requires bytes != [] && size == if MAX_CHUNK > |bytes| then |bytes| else MAX_CHUNK
    ensures Chunks(bytes, notify) ==
            [Chunk(bytes[..size], size == |bytes| && notify)] + Chunks(bytes[size..], notify)
  {
    if size == |bytes| { assert bytes[..size] == bytes && bytes[size..] == []; }
  }

  lemma NoChunks(bytes: seq<byte>, notify: bool)
    ensures Chunks(bytes, notify) == [] <==> bytes == []
  {}

  lemma FirstOfRest<T>(all: seq<T>, n: nat, x: T, rest: seq<T>)
    requires n <= |all| && all[n..] == [x] + rest
    ensures n < |all| && all[n] == x && all[n + 1..] == rest && all[..n + 1] == all[..n] + [x]
  {
    assert all[n..][0] == x && all[n..][1..] == rest;
  }

  /** Every chunk has the bytes of its place in the message. */
  lemma {:induction false} ChunkAt(bytes: seq<byte>, notify: bool, i: nat)
    requires 16384 * i < |bytes|
    ensures i < |Chunks(bytes, notify)|
    ensures Chunks(bytes, notify)[i].bytes ==
            if 16384 * (i + 1) <= |bytes| then bytes[16384 * i..16384 * (i + 1)] else bytes[16384 * i..]
  {
    if |bytes| > MAX_CHUNK && i > 0 {
      ChunkAt(bytes[MAX_CHUNK..], notify, i - 1);
      assert Chunks(bytes, notify)[i] == Chunks(bytes[MAX_CHUNK..], notify)[i - 1];
      assert bytes[MAX_CHUNK..][16384 * (i - 1)..] == bytes[16384 * i..];
      hide Chunks;
      if 16384 * (i + 1) <= |bytes| {
        assert bytes[MAX_CHUNK..][16384 * (i - 1)..16384 * i] == bytes[16384 * i..16384 * (i + 1)];
      }
    } else if |bytes| <= MAX_CHUNK {
      assert bytes[0..] == bytes;
      assert bytes[0..|bytes|] == bytes;
    }
  }

  lemma {:induction false} ChunksOfAppend(left: seq<Message>, right: seq<Message>)
    ensures ChunksOf(left + right) == ChunksOf(left) + ChunksOf(right)
  {
    if left == [] {
      assert left + right == right;
    } else {
      ChunksOfAppend(left[1..], right);
      assert (left + right)[1..] == left[1..] + right;
      Associative(Chunks(left[0].bytes, left[0].notify), ChunksOf(left[1..]), ChunksOf(right));
    }
  }

  lemma ChunksOfSingle(m: Message)
    ensures ChunksOf([m]) == Chunks(m.bytes, m.notify)
  {
    assert [m][1..] == [];
  }

  lemma {:induction false} PayloadAppend(left: seq<Chunk>, right: seq<Chunk>)
    ensures Payload(left + right) == Payload(left) + Payload(right)
  {
    if left == [] {
      assert left + right == right;
    } else {
      PayloadAppend(left[1..], right);
      assert (left + right)[1..] == left[1..] + right;
      Associative(left[0].bytes, Payload(left[1..]), Payload(right));
    }
  }

  lemma {:induction false} PayloadOfChunks(messages: seq<Message>)
    ensures Payload(ChunksOf(messages)) == BytesOf(messages)
  {
    if messages != [] {
      PayloadOfChunks(messages[1..]);
      ChunksAreTheMessage(messages[0].bytes, messages[0].notify);
      PayloadAppend(Chunks(messages[0].bytes, messages[0].notify), ChunksOf(messages[1..]));
    }
  }

  /** The chunks that went out when sending each message stopped after `cuts[i]` of its chunks. */
  ghost function Parts(messages: seq<Message>, cuts: seq<nat>): seq<Chunk>
    requires |messages| == |cuts|
    requires forall i | 0 <= i < |cuts| :: cuts[i] <= |Chunks(messages[i].bytes, messages[i].notify)|
  {
    if messages == [] then [] else
      Chunks(messages[0].bytes, messages[0].notify)[..cuts[0]] + Parts(messages[1..], cuts[1..])
  }

  /** How many of the messages did not go out whole. */
  ghost function CutShort(messages: seq<Message>, cuts: seq<nat>): nat
    requires |messages| == |cuts|
  {
    if messages == [] then 0 else
      (if cuts[0] < |Chunks(messages[0].bytes, messages[0].notify)| then 1 else 0) + CutShort(messages[1..], cuts[1..])
  }

  lemma {:induction false} NoneCutShort(messages: seq<Message>, cuts: seq<nat>)
    requires |messages| == |cuts|
    requires forall i | 0 <= i < |cuts| :: cuts[i] <= |Chunks(messages[i].bytes, messages[i].notify)|
    requires CutShort(messages, cuts) == 0
    ensures Parts(messages, cuts) == ChunksOf(messages)
  {
    if messages != [] {
      NoneCutShort(messages[1..], cuts[1..]);
      var chunks := Chunks(messages[0].bytes, messages[0].notify);
      assert chunks[..|chunks|] == chunks;
    }
  }

  lemma {:induction false} PartsSnoc(messages: seq<Message>, cuts: seq<nat>, m: Message, cut: nat)
    requires |messages| == |cuts|
    requires forall i | 0 <= i < |cuts| :: cuts[i] <= |Chunks(messages[i].bytes, messages[i].notify)|
    requires cut <= |Chunks(m.bytes, m.notify)|
    ensures Parts(messages + [m], cuts + [cut]) == Parts(messages, cuts) + Chunks(m.bytes, m.notify)[..cut]
    ensures CutShort(messages + [m], cuts + [cut]) ==
            CutShort(messages, cuts) + (if cut < |Chunks(m.bytes, m.notify)| then 1 else 0)
  {
    hide Chunks;
    if messages == [] {
      assert messages + [m] == [m] && cuts + [cut] == [cut];
    } else {
      assert (messages + [m])[1..] == messages[1..] + [m] && (cuts + [cut])[1..] == cuts[1..] + [cut];
      PartsSnoc(messages[1..], cuts[1..], m, cut);
      Associative(Chunks(messages[0].bytes, messages[0].notify)[..cuts[0]], Parts(messages[1..], cuts[1..]),
                  Chunks(m.bytes, m.notify)[..cut]);
    }
  }

  /** Part of the queue `whole` has been sent, with `rest` remaining: what has gone out, and the errors indicated. */
  ghost predicate QueueSent(whole: seq<Message>, rest: seq<Message>, cuts: seq<nat>, before: seq<Chunk>,
                            sent: seq<Chunk>, had: nat, errors: nat)
  {
    && |cuts| <= |whole| && rest == whole[|cuts|..]
    && (forall i | 0 <= i < |cuts| :: cuts[i] <= |Chunks(whole[i].bytes, whole[i].notify)|)
    && sent == before + Parts(whole[..|cuts|], cuts)
    && errors == had + CutShort(whole[..|cuts|], cuts)
  }

  lemma NothingSent(whole: seq<Message>, before: seq<Chunk>, had: nat)
    ensures QueueSent(whole, whole, [], before, before, had, had)
  {}

  lemma OneMoreSent(whole: seq<Message>, rest: seq<Message>, cuts: seq<nat>, before: seq<Chunk>, sent: seq<Chunk>,
                    had: nat, errors: nat, cut: nat)
    requires QueueSent(whole, rest, cuts, before, sent, had, errors) && rest != []
    requires cut <= |Chunks(rest[0].bytes, rest[0].notify)|
    ensures var chunks := Chunks(rest[0].bytes, rest[0].notify);
            QueueSent(whole, rest[1..], cuts + [cut], before, sent + chunks[..cut], had,
                      errors + if cut < |chunks| then 1 else 0)
  {
    hide Chunks, Parts, CutShort;
    var n := |cuts|;
    assert whole[..n + 1] == whole[..n] + [rest[0]];
    PartsSnoc(whole[..n], cuts, rest[0], cut);
    Associative(before, Parts(whole[..n], cuts), Chunks(rest[0].bytes, rest[0].notify)[..cut]);
  }

  lemma AllSent(whole: seq<Message>, cuts: seq<nat>, before: seq<Chunk>, sent: seq<Chunk>, had: nat, errors: nat)
    requires QueueSent(whole, [], cuts, before, sent, had, errors)
    ensures |cuts| == |whole| && forall i | 0 <= i < |cuts| :: cuts[i] <= |Chunks(whole[i].bytes, whole[i].notify)|
    ensures sent == before + Parts(whole, cuts) && errors == had + CutShort(whole, cuts)
  {
    assert |whole[|cuts|..]| == |whole| - |cuts|;
    assert whole[..|whole|] == whole;
  }

  lemma NoneQueued(sent: seq<Chunk>)
    ensures sent + ChunksOf([]) == sent
  {}

  datatype State = NotOpen | OpeningUnderlyingIo | ClientHelloSent | Renegotiate | Open | Closing | Error

  /** One attempt to encrypt a chunk and pass it on. */
  datatype Call = Call(chunk: Chunk, ok: bool)

  /** What went out. */
  ghost function Passed(calls: seq<Call>): seq<Chunk> {
    if calls == [] then [] else
      var before, last := Passed(calls[..|calls|-1]), calls[|calls|-1];
      if last.ok then before + [last.chunk] else before
  }

  lemma PassedMore(calls: seq<Call>, c: Call)
    ensures Passed(calls + [c]) == if c.ok then Passed(calls) + [c.chunk] else Passed(calls)
  {
    assert (calls + [c])[..|calls|] == calls;
  }

  class Sender {
    var state: State
    var queue: seq<Message>
    // what the library and the socket below were asked to send, and whether they did; how often not; what they sent;
    // what `Send` agreed to send; and the errors indicated
    ghost var calls: seq<Call>
    ghost var failures: nat
    ghost var sent: seq<Chunk>
    ghost var accepted: seq<Message>
    ghost var errors: nat
    // some message went out only in part
    ghost var torn: bool

    /** As long as no message was torn, the socket has been given the chunks of the accepted messages in the order
        of their acceptance, up to the queue; and nothing waits in the queue of an open session. */
    ghost predicate Valid()
      reads this
    {
      && (state == Open ==> queue == [])
      && sent == Passed(calls)
      && (!torn ==> sent + ChunksOf(queue) == ChunksOf(accepted))
    }

    constructor ()
      ensures Valid() && state == Open && queue == [] && sent == [] && accepted == [] && !torn && errors == 0
      ensures calls == [] && failures == 0
    {
      state, queue, calls, failures, sent, accepted, errors, torn := Open, [], [], 0, [], [], 0, false;
    }

    /** The library and the socket below, which may fail at any time. */
    method EncryptAndPass(bytes: seq<byte>, notify: bool) returns (ok: bool)
      modifies `calls, `failures, `sent
      ensures calls == old(calls) + [Call(Chunk(bytes, notify), ok)]
      ensures failures == old(failures) + (if ok then 0 else 1)
      ensures sent == if ok then old(sent) + [Chunk(bytes, notify)] else old(sent)
      ensures old(sent == Passed(calls)) ==> sent == Passed(calls)
    {
      ok := *;
      PassedMore(calls, Call(Chunk(bytes, notify), ok));
      calls := calls + [Call(Chunk(bytes, notify), ok)];
      if ok { sent := sent + [Chunk(bytes, notify)]; } else { failures := failures + 1; }
    }

    /** `send_chunk`: a chunk that is not empty is encrypted and passed on by an open session, or else nothing is. */
    method SendChunk(bytes: seq<byte>, notify: bool) returns (ok: bool)
      modifies `calls, `failures, `sent
      ensures bytes == [] || state != Open ==> !ok && calls == old(calls) && failures == old(failures)
      ensures bytes != [] && state == Open ==>
                calls == old(calls) + [Call(Chunk(bytes, notify), ok)]
                && failures == old(failures) + (if ok then 0 else 1)
      ensures sent == if ok then old(sent) + [Chunk(bytes, notify)] else old(sent)
      ensures old(sent == Passed(calls)) ==> sent == Passed(calls)
    {
      if bytes == [] || state != Open {
        return false;
      }
      ok := EncryptAndPass(bytes, notify);
    }

    /** `internal_send`: the chunks of the message are sent in order, up to the first that fails; `cut` of them went
        out. In an open session the call fails exactly if the last attempt did. */
    method InternalSend(bytes: seq<byte>, notify: bool) returns (ok: bool, ghost cut: nat)
      modifies `calls, `failures, `sent
      ensures cut <= |Chunks(bytes, notify)| && (ok <==> cut == |Chunks(bytes, notify)|)
      ensures bytes == [] ==> ok
      ensures bytes != [] && state != Open ==> !ok && cut == 0
      ensures |calls| == |old(calls)| + cut + (if state == Open && !ok then 1 else 0) && old(calls) <= calls
      ensures forall i | 0 <= i < cut :: calls[|old(calls)| + i] == Call(Chunks(bytes, notify)[i], true)
      ensures state == Open && !ok ==> calls[|calls|-1] == Call(Chunks(bytes, notify)[cut], false)
      ensures failures == old(failures) + (if state == Open && !ok then 1 else 0)
      ensures sent == old(sent) + Chunks(bytes, notify)[..cut]
      ensures old(sent == Passed(calls)) ==> sent == Passed(calls)
    {
      NoChunks(bytes, notify);
      hide Chunks, Passed;
      var rest := bytes;
      cut := 0;
      ghost var all := Chunks(bytes, notify);
      assert all[..0] == [] && all[0..] == all && sent + [] == sent;
      while rest != []
        invariant cut <= |all| && all[cut..] == Chunks(rest, notify) && failures == old(failures)
        invariant sent == old(sent) + all[..cut]
        invariant state != Open ==> cut == 0
        invariant old(calls) <= calls && |calls| == |old(calls)| + cut
        invariant forall i | 0 <= i < cut :: calls[|old(calls)| + i] == Call(all[i], true)
        invariant old(sent == Passed(calls)) ==> sent == Passed(calls)
        decreases |rest|
      {
        var toSend := if MAX_CHUNK > |rest| then |rest| else MAX_CHUNK;
        var whole := toSend == |rest|;
        FirstChunk(rest, notify, toSend);
        FirstOfRest(all, cut, Chunk(rest[..toSend], whole && notify), Chunks(rest[toSend..], notify));
        var sentOne := SendChunk(rest[..toSend], whole && notify);
        if !sentOne {
          break;
        }
        Associative(old(sent), all[..cut], [Chunk(rest[..toSend], whole && notify)]);
        rest := rest[toSend..];
        cut := cut + 1;
      }
      NoChunks(rest, notify);
      ok := rest == [];
    }

    /** `tlsio_schannel_send`; `granted` says whether there is memory for a copy in the queue. */
    method Send(m: Message, granted: bool) returns (ok: bool, ghost cut: nat)
      requires Valid()
      modifies `queue, `calls, `failures, `sent, `accepted, `torn
      ensures Valid() && old(calls) <= calls
      ensures accepted == if ok then old(accepted) + [m] else old(accepted)
      ensures state == Renegotiate ==> sent == old(sent) && torn == old(torn) && calls == old(calls)
      ensures state == Renegotiate ==> ok == granted && queue == if ok then old(queue) + [m] else old(queue)
      ensures state != Renegotiate ==>
                && queue == old(queue)
                && cut <= |Chunks(m.bytes, m.notify)|
                && sent == old(sent) + Chunks(m.bytes, m.notify)[..cut]
                && (ok <==> cut == |Chunks(m.bytes, m.notify)|)
                && torn == (old(torn) || (!ok && cut > 0))
      ensures state == Open ==> (ok <==> failures == old(failures))
      ensures state !in {Open, Renegotiate} ==> (ok <==> m.bytes == []) && calls == old(calls)
    {
      hide Passed;
      cut := 0;
      if state == Renegotiate {
        ok := granted;
        if ok {
          QueueGrows(sent, queue, accepted, m);
          queue, accepted := queue + [m], accepted + [m];
        }
      } else {
        ghost var before := sent;
        NoChunks(m.bytes, m.notify);
        ok, cut := InternalSend(m.bytes, m.notify);
        ghost var all := Chunks(m.bytes, m.notify);
        assert all[..|all|] == all;
        if ok {
          assert state != Open ==> all == [];
          SentGrows(before, queue, accepted, m, state == Open);
          accepted := accepted + [m];
        } else {
          torn := torn || cut > 0;
        }
      }
    }

    /** The session enters renegotiation. */
    method BeginRenegotiation()
      requires Valid() && state == Open
      modifies `state
      ensures Valid() && state == Renegotiate
    {
      state := Renegotiate;
    }

    /** The renegotiation has succeeded: the queue is sent in order, each message whole or, with an error indicated,
        up to the chunk that failed. `cuts` says how far each got. */
    method FinishRenegotiation() returns (ghost cuts: seq<nat>)
      requires Valid() && state == Renegotiate
      modifies `state, `queue, `calls, `failures, `sent, `errors, `torn
      ensures Valid() && state == Open && queue == [] && old(calls) <= calls
      ensures errors - old(errors) == failures - old(failures) <= |old(queue)|
      ensures failures == old(failures) ==> sent == old(sent) + ChunksOf(old(queue)) && torn == old(torn)
      ensures |cuts| == |old(queue)|
      ensures forall i | 0 <= i < |cuts| :: cuts[i] <= |Chunks(old(queue)[i].bytes, old(queue)[i].notify)|
      ensures sent == old(sent) + Parts(old(queue), cuts)
      ensures errors == old(errors) + CutShort(old(queue), cuts)
      ensures torn == (old(torn) || CutShort(old(queue), cuts) > 0)
    {
      hide Chunks, Parts, CutShort, ChunksOf, QueueSent, Passed;
      state, cuts := Open, [];
      ghost var whole, before := queue, sent;
      NothingSent(whole, before, errors);
      while queue != []
        invariant state == Open && torn == old(torn) && old(calls) <= calls && sent == Passed(calls)
        invariant errors - old(errors) == failures - old(failures) <= |whole| - |queue|
        invariant QueueSent(whole, queue, cuts, before, sent, old(errors), errors)
        decreases |queue|
      {
        ghost var rest, already, had := queue, sent, errors;
        var m := queue[0];
        var ok, cut := InternalSend(m.bytes, m.notify);
        if !ok {
          errors := errors + 1;
        }
        queue := queue[1..];
        OneMoreSent(whole, rest, cuts, before, already, old(errors), had, cut);
        cuts := cuts + [cut];
      }
      AllSent(whole, cuts, before, sent, old(errors), errors);
      torn := torn || CutShort(whole, cuts) > 0;
      if CutShort(whole, cuts) == 0 { NoneCutShort(whole, cuts); }
      NoneQueued(sent);
    }
  }

  lemma QueueGrows(sent: seq<Chunk>, queue: seq<Message>, accepted: seq<Message>, m: Message)
    ensures sent + ChunksOf(queue) == ChunksOf(accepted) ==> sent + ChunksOf(queue + [m]) == ChunksOf(accepted + [m])
  {
    ChunksOfAppend(queue, [m]);
    ChunksOfAppend(accepted, [m]);
    Associative(sent, ChunksOf(queue), ChunksOf([m]));
  }

  lemma SentGrows(sent: seq<Chunk>, queue: seq<Message>, accepted: seq<Message>, m: Message, empty: bool)
    requires if empty then queue == [] else Chunks(m.bytes, m.notify) == []
    ensures sent + ChunksOf(queue) == ChunksOf(accepted) ==>
              sent + Chunks(m.bytes, m.notify) + ChunksOf(queue) == ChunksOf(accepted + [m])
  {
    ChunksOfAppend(accepted, [m]);
    ChunksOfSingle(m);
    if empty {
      assert sent + ChunksOf([]) == sent;
      assert sent + Chunks(m.bytes, m.notify) + ChunksOf([]) == sent + Chunks(m.bytes, m.notify);
    } else {
      assert sent + [] == sent && ChunksOf(accepted) + [] == ChunksOf(accepted);
    }
  }

  /** What the invariant says once a session is open again: if nothing was torn, the socket was given the accepted
      messages, in the order in which they were accepted. */
  lemma SentInCallOrder(s: Sender)
    requires s.Valid() && s.state == Open && !s.torn
    ensures s.sent == ChunksOf(s.accepted)
    ensures Payload(s.sent) == BytesOf(s.accepted)
  {
    assert s.sent + [] == s.sent;
    PayloadOfChunks(s.accepted);
  }
}
