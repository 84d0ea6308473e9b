/** The send half of the Berkeley socket adapter: a queue of unsent messages in front of a
    socket that may take all, part or none of what it is offered. */
module SocketSendQueue {
  import opened Common
  import opened Messages
  import opened SocketState

  /** What one `send` call on the socket did. */
  datatype SendResult = Took(count: nat) | WouldBlock | Failed

  /** What the outside world sees, in time order. Messages are named by their acceptance number;
      bytes of a message that was then refused belong to nobody. */
  datatype Event =
    | Taken(id: nat, bytes: seq<byte>)
    | Orphaned(bytes: seq<byte>)
    | Completed(id: nat)
    | ErrorIndicated(lost: nat)

  /** One call of `send` on the socket: what it was offered, and its answer. */
  datatype Call = Call(offered: seq<byte>, answer: SendResult)

  // ----- readings of a log -----

  /** The bytes the socket took, in order. */
  ghost function Wire(log: seq<Event>): seq<byte> {
    if log == [] then [] else
      var e, before := log[|log|-1], Wire(log[..|log|-1]);
      if e.Taken? || e.Orphaned? then before + e.bytes else before
  }

  /** The bytes that the socket took of what it was offered, in order. */
  ghost function TakenBy(calls: seq<Call>): seq<byte> {
    if calls == [] then [] else
      var c, before := calls[|calls|-1], TakenBy(calls[..|calls|-1]);
      if c.answer.Took? && c.answer.count <= |c.offered| then before + c.offered[..c.answer.count] else before
  }

  lemma OneMoreCall(calls: seq<Call>, c: Call)
    requires c.answer.Took? ==> c.answer.count <= |c.offered|
    ensures TakenBy(calls + [c]) ==
            if c.answer.Took? then TakenBy(calls) + c.offered[..c.answer.count] else TakenBy(calls)
  {
    assert (calls + [c])[..|calls|] == calls;
  }

  /** The bytes of message `id` the socket took. */
  ghost function TakenOf(log: seq<Event>, id: nat): seq<byte> {
    if log == [] then [] else
      var e, before := log[|log|-1], TakenOf(log[..|log|-1], id);
      if e.Taken? && e.id == id then before + e.bytes else before
  }

  /** The messages whose completion callback ran, in order. */
  ghost function Completions(log: seq<Event>): seq<nat> {
    if log == [] then [] else
      var e, before := log[|log|-1], Completions(log[..|log|-1]);
      if e.Completed? then before + [e.id] else before
  }

  /** The messages whose loss was indicated as an error, in order. */
  ghost function Errors(log: seq<Event>): seq<nat> {
    if log == [] then [] else
      var e, before := log[|log|-1], Errors(log[..|log|-1]);
      if e.ErrorIndicated? then before + [e.lost] else before
  }

  /** No message was dropped and no byte of a refused message reached the socket. */
  ghost predicate NoLoss(log: seq<Event>) {
    forall e <- log :: !e.ErrorIndicated? && (e.Orphaned? ==> e.bytes == [])
  }

  /** Of the first |fate| messages, those that were sent whole and asked to be notified. */
  ghost function NotifiedIds(accepted: seq<Message>, fate: seq<bool>): seq<nat>
    requires |fate| <= |accepted|
  {
    if fate == [] then [] else
      var last := |fate| - 1;
      var before := NotifiedIds(accepted, fate[..last]);
      if fate[last] && accepted[last].notify then before + [last] else before
  }

  ghost function LostIds(fate: seq<bool>): seq<nat> {
    if fate == [] then [] else
      var last := |fate| - 1;
      if fate[last] then LostIds(fate[..last]) else LostIds(fate[..last]) + [last]
  }

  // ----- the two invariants -----

  /** Every message that has left the queue was sent whole (`true`) or lost before its last byte. */
  ghost predicate Settled(accepted: seq<Message>, fate: seq<bool>, log: seq<Event>) {
    && |fate| <= |accepted|
    && (forall i {:trigger fate[i]} | 0 <= i < |fate| ::
          if fate[i] then TakenOf(log, i) == accepted[i].bytes else TakenOf(log, i) < accepted[i].bytes)
    && Completions(log) == NotifiedIds(accepted, fate)
    && Errors(log) == LostIds(fate)
  }

  /** Queue entry `p` is what the socket has yet to take of message `m`, number `id`. */
  ghost predicate Waits(m: Message, id: nat, log: seq<Event>, p: Message) {
    p.bytes != [] && p.notify == m.notify && TakenOf(log, id) + p.bytes == m.bytes
  }

  /** The queue holds the last messages accepted, in order, and only its head can be partly sent. */
  ghost predicate Queued(accepted: seq<Message>, first: nat, log: seq<Event>, pending: seq<Message>) {
    && first + |pending| == |accepted|
    && (forall j {:trigger pending[j]} | 0 <= j < |pending| :: Waits(accepted[first + j], first + j, log, pending[j]))
    && (forall id: nat | first < id :: TakenOf(log, id) == [])
    && (pending == [] ==> TakenOf(log, first) == [])
  }

  /** When a completion is logged, the socket has taken every byte of its message. */
  ghost predicate Timed(accepted: seq<Message>, log: seq<Event>) {
    forall k | 0 <= k < |log| && log[k].Completed? ::
      log[k].id < |accepted| && TakenOf(log[..k], log[k].id) == accepted[log[k].id].bytes
  }

  /** Messages leave the queue in acceptance order: the settled ones come first, then the queued ones. */
  ghost predicate Tracks(accepted: seq<Message>, fate: seq<bool>, log: seq<Event>, pending: seq<Message>) {
    Settled(accepted, fate, log) && Queued(accepted, |fate|, log, pending) && Timed(accepted, log)
  }

  /** One connection's stream: it owes the bytes that were already queued when it was opened and then
      those of every message accepted since. */
  ghost predicate Streams(conn: seq<Event>, sent: seq<Message>, stale: seq<byte>, pending: seq<Message>) {
    NoLoss(conn) ==> Wire(conn) + BytesOf(pending) == stale + BytesOf(sent)
  }

  /** The log after the socket took the whole of `m`. */
  ghost function WholeWrite(log: seq<Event>, id: nat, m: Message): seq<Event> {
    var taken := log + [Taken(id, m.bytes)];
    if m.notify then taken + [Completed(id)] else taken
  }

  // ----- how the readings grow -----

  lemma TakenGrows(log: seq<Event>, e: Event, id: nat)
    ensures TakenOf(log + [e], id) == if e.Taken? && e.id == id then TakenOf(log, id) + e.bytes else TakenOf(log, id)
  {
    assert (log + [e])[..|log|] == log;
  }

  lemma TakenGrowsAll(log: seq<Event>, e: Event)
    ensures forall id: nat :: TakenOf(log + [e], id) ==
              if e.Taken? && e.id == id then TakenOf(log, id) + e.bytes else TakenOf(log, id)
  {
    forall id: nat { TakenGrows(log, e, id); }
  }

  lemma LogGrows(log: seq<Event>, e: Event)
    ensures Wire(log + [e]) == if e.Taken? || e.Orphaned? then Wire(log) + e.bytes else Wire(log)
    ensures Completions(log + [e]) == if e.Completed? then Completions(log) + [e.id] else Completions(log)
    ensures Errors(log + [e]) == if e.ErrorIndicated? then Errors(log) + [e.lost] else Errors(log)
  {
    assert (log + [e])[..|log|] == log;
  }

  lemma LossGrows(log: seq<Event>, e: Event)
    ensures NoLoss(log + [e]) <==> NoLoss(log) && !e.ErrorIndicated? && (e.Orphaned? ==> e.bytes == [])
  {
    assert e in log + [e];
    assert forall x <- log :: x in log + [e];
  }

  lemma {:induction false} NotifiedIgnoresLater(accepted: seq<Message>, m: Message, fate: seq<bool>)
    requires |fate| <= |accepted|
    ensures NotifiedIds(accepted + [m], fate) == NotifiedIds(accepted, fate)
  {
    if fate != [] {
      NotifiedIgnoresLater(accepted, m, fate[..|fate|-1]);
    }
  }

  // ----- the steps keep the invariants -----

  /** Appending an event leaves the moments of earlier completions where they were. */
  lemma TimedGrows(accepted: seq<Message>, log: seq<Event>, e: Event)
    requires Timed(accepted, log)
    requires e.Completed? ==> e.id < |accepted| && TakenOf(log, e.id) == accepted[e.id].bytes
    ensures Timed(accepted, log + [e])
  {
    var log' := log + [e];
    forall k | 0 <= k < |log'| && log'[k].Completed?
      ensures log'[k].id < |accepted| && TakenOf(log'[..k], log'[k].id) == accepted[log'[k].id].bytes
    {
      assert log'[..k] == log[..k];
      assert log[..|log|] == log;
    }
  }

  /** A message joins the tail of the queue. */
  lemma TracksAfterQueueing(accepted: seq<Message>, fate: seq<bool>, log: seq<Event>, pending: seq<Message>, m: Message)
    requires Tracks(accepted, fate, log, pending)
    requires m.bytes != []
    ensures Tracks(accepted + [m], fate, log, pending + [m])
  {
    NotifiedIgnoresLater(accepted, m, fate);
    assert TakenOf(log, |accepted|) + m.bytes == m.bytes;
  }

  /** Bytes of a message still in the queue change nothing for the messages that have left it. */
  lemma SettledAfterTaking(accepted: seq<Message>, fate: seq<bool>, log: seq<Event>, bytes: seq<byte>)
    requires Settled(accepted, fate, log) && Timed(accepted, log)
    ensures Settled(accepted, fate, log + [Taken(|fate|, bytes)]) && Timed(accepted, log + [Taken(|fate|, bytes)])
  {
    hide TakenOf, Completions, Errors, NotifiedIds, LostIds, Timed;
    var e := Taken(|fate|, bytes);
    LogGrows(log, e);
    TimedGrows(accepted, log, e);
    TakenGrowsAll(log, e);
  }

  /** Bytes of the head message change nothing for the messages behind it. */
  lemma QueueAfterTaking(accepted: seq<Message>, first: nat, log: seq<Event>, pending: seq<Message>, count: nat)
    requires Queued(accepted, first, log, pending)
    requires pending != [] && count <= |pending[0].bytes|
    ensures var log' := log + [Taken(first, pending[0].bytes[..count])];
            && TakenOf(log', first) + pending[0].bytes[count..] == accepted[first].bytes
            && Behind(accepted, first, log', pending)
  {
    hide TakenOf;
    var e := Taken(first, pending[0].bytes[..count]);
    TakenGrowsAll(log, e);
    assert Waits(accepted[first + 0], first + 0, log, pending[0]);
    assert pending[0].bytes[..count] + pending[0].bytes[count..] == pending[0].bytes;
    assert (TakenOf(log, first) + pending[0].bytes[..count]) + pending[0].bytes[count..] ==
           TakenOf(log, first) + pending[0].bytes;
    forall j | 1 <= j < |pending| ensures Waits(accepted[first + j], first + j, log + [e], pending[j]) {
      assert Waits(accepted[first + j], first + j, log, pending[j]);
    }
  }

  /** The queue from its second entry on. */
  ghost predicate Behind(accepted: seq<Message>, first: nat, log: seq<Event>, pending: seq<Message>)
    requires first + |pending| == |accepted|
  {
    && (forall j {:trigger pending[j]} | 1 <= j < |pending| :: Waits(accepted[first + j], first + j, log, pending[j]))
    && (forall id: nat | first < id :: TakenOf(log, id) == [])
  }

  /** The socket takes a proper prefix of the head message. */
  lemma TracksAfterShortWrite(accepted: seq<Message>, fate: seq<bool>, log: seq<Event>, pending: seq<Message>,
                              count: nat)
    requires Tracks(accepted, fate, log, pending)
    requires pending != [] && count < |pending[0].bytes|
    ensures Tracks(accepted, fate, log + [Taken(|fate|, pending[0].bytes[..count])],
                   pending[0 := pending[0].(bytes := pending[0].bytes[count..])])
  {
    QueueAfterTaking(accepted, |fate|, log, pending, count);
    assert Waits(accepted[|fate| + 0], |fate| + 0, log, pending[0]);
    SettledAfterTaking(accepted, fate, log, pending[0].bytes[..count]);
    hide TakenOf, Settled, Timed;
  }

  /** The head message leaves the queue: what is logged about it at that moment. */
  lemma SettledAfterLeaving(accepted: seq<Message>, fate: seq<bool>, log: seq<Event>, whole: bool)
    requires |fate| < |accepted| && Settled(accepted, fate, log) && Timed(accepted, log)
    requires if whole then TakenOf(log, |fate|) == accepted[|fate|].bytes
             else TakenOf(log, |fate|) < accepted[|fate|].bytes
    ensures var log' := AfterLeaving(log, |fate|, accepted[|fate|].notify, whole);
            Settled(accepted, fate + [whole], log') && Timed(accepted, log')
  {
    hide TakenOf, Completions, Errors, NotifiedIds, LostIds, Timed;
    IdsAfterLeaving(accepted, fate, whole);
    if whole && !accepted[|fate|].notify {
    } else {
      var e := if whole then Completed(|fate|) else ErrorIndicated(|fate|);
      LogGrows(log, e);
      TimedGrows(accepted, log, e);
      TakenGrowsAll(log, e);
    }
  }

  lemma IdsAfterLeaving(accepted: seq<Message>, fate: seq<bool>, whole: bool)
    requires |fate| < |accepted|
    ensures NotifiedIds(accepted, fate + [whole]) ==
            if whole && accepted[|fate|].notify then NotifiedIds(accepted, fate) + [|fate|]
            else NotifiedIds(accepted, fate)
    ensures LostIds(fate + [whole]) == if whole then LostIds(fate) else LostIds(fate) + [|fate|]
  {
    assert (fate + [whole])[..|fate|] == fate;
  }

  ghost function AfterLeaving(log: seq<Event>, id: nat, notify: bool, whole: bool): seq<Event> {
    if !whole then log + [ErrorIndicated(id)] else if notify then log + [Completed(id)] else log
  }

  lemma QueueAfterLeaving(accepted: seq<Message>, first: nat, log: seq<Event>, pending: seq<Message>, notify: bool,
                          whole: bool)
    requires first + |pending| == |accepted| && pending != [] && Behind(accepted, first, log, pending)
    ensures Queued(accepted, first + 1, AfterLeaving(log, first, notify, whole), pending[1..])
  {
    hide TakenOf;
    TakenGrowsAll(log, Completed(first));
    TakenGrowsAll(log, ErrorIndicated(first));
    var log' := AfterLeaving(log, first, notify, whole);
    assert forall id: nat :: TakenOf(log', id) == TakenOf(log, id);
    forall j | 0 <= j < |pending[1..]| ensures Waits(accepted[first + 1 + j], first + 1 + j, log', pending[1..][j]) {
      assert pending[1..][j] == pending[j + 1];
      assert Waits(accepted[first + (j + 1)], first + (j + 1), log, pending[j + 1]);
    }
  }

  /** The socket takes the whole head message, and its callback, if any, runs. */
  lemma TracksAfterWholeWrite(accepted: seq<Message>, fate: seq<bool>, log: seq<Event>, pending: seq<Message>)
    requires Tracks(accepted, fate, log, pending)
    requires pending != []
    ensures Tracks(accepted, fate + [true], WholeWrite(log, |fate|, pending[0]), pending[1..])
  {
    hide TakenOf, Settled, Timed;
    var head := pending[0];
    var mid := log + [Taken(|fate|, head.bytes)];
    assert Waits(accepted[|fate| + 0], |fate| + 0, log, head);
    assert head.bytes[..|head.bytes|] == head.bytes && head.bytes[|head.bytes|..] == [];
    SettledAfterTaking(accepted, fate, log, head.bytes);
    QueueAfterTaking(accepted, |fate|, log, pending, |head.bytes|);
    hide Queued, Behind, Waits;
    assert TakenOf(mid, |fate|) + [] == TakenOf(mid, |fate|);
    QueueAfterLeaving(accepted, |fate|, mid, pending, head.notify, true);
    SettledAfterLeaving(accepted, fate, mid, true);
  }

  /** A hard error drops the head message. */
  lemma TracksAfterLoss(accepted: seq<Message>, fate: seq<bool>, log: seq<Event>, pending: seq<Message>)
    requires Tracks(accepted, fate, log, pending)
    requires pending != []
    ensures Tracks(accepted, fate + [false], log + [ErrorIndicated(|fate|)], pending[1..])
  {
    assert Waits(accepted[|fate| + 0], |fate| + 0, log, pending[0]);
    QueueAfterLeaving(accepted, |fate|, log, pending, false, false);
    SettledAfterLeaving(accepted, fate, log, false);
  }

  /** A prefix of a message that is then refused goes out without an owner. */
  lemma TracksAfterOrphan(accepted: seq<Message>, fate: seq<bool>, log: seq<Event>, pending: seq<Message>,
                          bytes: seq<byte>)
    requires Tracks(accepted, fate, log, pending)
    ensures Tracks(accepted, fate, log + [Orphaned(bytes)], pending)
  {
    hide TakenOf, Completions, Errors, NotifiedIds, LostIds, Timed;
    var e := Orphaned(bytes);
    LogGrows(log, e);
    TakenGrowsAll(log, e);
    TimedGrows(accepted, log, e);
    forall j | 0 <= j < |pending| ensures Waits(accepted[|fate| + j], |fate| + j, log + [e], pending[j]) {
      assert Waits(accepted[|fate| + j], |fate| + j, log, pending[j]);
    }
  }

  lemma StreamsAfterQueueing(conn: seq<Event>, sent: seq<Message>, stale: seq<byte>, pending: seq<Message>, m: Message)
    requires Streams(conn, sent, stale, pending)
    ensures Streams(conn, sent + [m], stale, pending + [m])
  {
    BytesOfSnoc(sent, m);
    BytesOfSnoc(pending, m);
    Associative(Wire(conn), BytesOf(pending), m.bytes);
    Associative(stale, BytesOf(sent), m.bytes);
  }

  lemma StreamsAfterShortWrite(conn: seq<Event>, sent: seq<Message>, stale: seq<byte>, pending: seq<Message>, id: nat,
                               count: nat)
    requires Streams(conn, sent, stale, pending)
    requires pending != [] && count <= |pending[0].bytes|
    ensures Streams(conn + [Taken(id, pending[0].bytes[..count])], sent, stale,
                    pending[0 := pending[0].(bytes := pending[0].bytes[count..])])
  {
    var taken, rest := pending[0].bytes[..count], pending[0].bytes[count..];
    LogGrows(conn, Taken(id, taken));
    LossGrows(conn, Taken(id, taken));
    var pending' := pending[0 := pending[0].(bytes := rest)];
    assert pending'[1..] == pending[1..];
    assert pending[0].bytes == taken + rest;
    Associative(Wire(conn), taken, rest + BytesOf(pending[1..]));
    Associative(taken, rest, BytesOf(pending[1..]));
  }

  lemma StreamsAfterWholeWrite(conn: seq<Event>, sent: seq<Message>, stale: seq<byte>, pending: seq<Message>, id: nat)
    requires Streams(conn, sent, stale, pending)
    requires pending != []
    ensures Streams(WholeWrite(conn, id, pending[0]), sent, stale, pending[1..])
  {
    var bytes := pending[0].bytes;
    LogGrows(conn, Taken(id, bytes));
    LossGrows(conn, Taken(id, bytes));
    LogGrows(conn + [Taken(id, bytes)], Completed(id));
    LossGrows(conn + [Taken(id, bytes)], Completed(id));
    Associative(Wire(conn), bytes, BytesOf(pending[1..]));
  }

  lemma StreamsAfterLoss(conn: seq<Event>, sent: seq<Message>, stale: seq<byte>, pending: seq<Message>,
                         pending': seq<Message>, e: Event)
    requires Streams(conn, sent, stale, pending)
    requires e.ErrorIndicated? || (e.Orphaned? && pending' == pending)
    ensures Streams(conn + [e], sent, stale, pending')
  {
    LogGrows(conn, e);
    LossGrows(conn, e);
  }

  // ----- the adapter's history -----

  /** All messages accepted so far, what became of those no longer queued, everything that happened, and
      where the current connection starts: its place in the log, the messages accepted before it, and the
      bytes it found in the queue. */
  datatype History = History(accepted: seq<Message>, fate: seq<bool>, log: seq<Event>,
                             openedAt: nat, acceptedBefore: nat, stale: seq<byte>)
  {
    ghost predicate Explains(pending: seq<Message>) {
      && Tracks(accepted, fate, log, pending)
      && openedAt <= |log| && acceptedBefore <= |accepted|
      && Streams(log[openedAt..], accepted[acceptedBefore..], stale, pending)
    }

    ghost predicate SameConnection(later: History) {
      openedAt == later.openedAt && acceptedBefore == later.acceptedBefore && stale == later.stale
    }
  }

  lemma PrefixGrows(start: seq<Event>, log: seq<Event>, longer: seq<Event>)
    requires start <= log <= longer
    ensures start <= longer
  {}

  lemma ExplainsAfterOpening(h: History, pending: seq<Message>)
    requires h.Explains(pending)
    ensures h.(openedAt := |h.log|, acceptedBefore := |h.accepted|, stale := BytesOf(pending)).Explains(pending)
  {
    hide Tracks;
    assert h.log[|h.log|..] == [] && h.accepted[|h.accepted|..] == [];
  }

  lemma LaterGrows<T>(s: seq<T>, at: nat, x: T)
    requires at <= |s|
    ensures (s + [x])[at..] == s[at..] + [x]
  {}

  lemma LaterWholeWrite(log: seq<Event>, at: nat, id: nat, m: Message)
    requires at <= |log|
    ensures WholeWrite(log, id, m)[at..] == WholeWrite(log[at..], id, m)
    ensures log <= WholeWrite(log, id, m)
  {}

  lemma ExplainsAfterQueueing(h: History, pending: seq<Message>, m: Message)
    requires h.Explains(pending) && m.bytes != []
    ensures h.(accepted := h.accepted + [m]).Explains(pending + [m])
  {
    hide Tracks, Streams;
    TracksAfterQueueing(h.accepted, h.fate, h.log, pending, m);
    StreamsAfterQueueing(h.log[h.openedAt..], h.accepted[h.acceptedBefore..], h.stale, pending, m);
    LaterGrows(h.accepted, h.acceptedBefore, m);
  }

  lemma ExplainsAfterShortWrite(h: History, pending: seq<Message>, count: nat)
    requires h.Explains(pending) && pending != [] && count < |pending[0].bytes|
    ensures h.(log := h.log + [Taken(|h.fate|, pending[0].bytes[..count])])
             .Explains(pending[0 := pending[0].(bytes := pending[0].bytes[count..])])
  {
    hide Tracks, Streams;
    TracksAfterShortWrite(h.accepted, h.fate, h.log, pending, count);
    StreamsAfterShortWrite(h.log[h.openedAt..], h.accepted[h.acceptedBefore..], h.stale, pending, |h.fate|, count);
    LaterGrows(h.log, h.openedAt, Taken(|h.fate|, pending[0].bytes[..count]));
  }

  lemma ExplainsAfterWholeWrite(h: History, pending: seq<Message>)
    requires h.Explains(pending) && pending != []
    ensures h.(fate := h.fate + [true], log := WholeWrite(h.log, |h.fate|, pending[0])).Explains(pending[1..])
    ensures h.log <= WholeWrite(h.log, |h.fate|, pending[0])
  {
    hide Tracks, Streams, WholeWrite;
    TracksAfterWholeWrite(h.accepted, h.fate, h.log, pending);
    StreamsAfterWholeWrite(h.log[h.openedAt..], h.accepted[h.acceptedBefore..], h.stale, pending, |h.fate|);
    LaterWholeWrite(h.log, h.openedAt, |h.fate|, pending[0]);
  }

  lemma ExplainsAfterLoss(h: History, pending: seq<Message>)
    requires h.Explains(pending) && pending != []
    ensures h.(fate := h.fate + [false], log := h.log + [ErrorIndicated(|h.fate|)]).Explains(pending[1..])
  {
    hide Tracks, Streams;
    var e := ErrorIndicated(|h.fate|);
    TracksAfterLoss(h.accepted, h.fate, h.log, pending);
    StreamsAfterLoss(h.log[h.openedAt..], h.accepted[h.acceptedBefore..], h.stale, pending, pending[1..], e);
    LaterGrows(h.log, h.openedAt, e);
  }

  lemma ExplainsAfterOrphan(h: History, pending: seq<Message>, bytes: seq<byte>)
    requires h.Explains(pending)
    ensures h.(log := h.log + [Orphaned(bytes)]).Explains(pending)
  {
    var e := Orphaned(bytes);
    TracksAfterOrphan(h.accepted, h.fate, h.log, pending, bytes);
    StreamsAfterLoss(h.log[h.openedAt..], h.accepted[h.acceptedBefore..], h.stale, pending, pending, e);
    hide Tracks, Streams;
    assert (h.log + [e])[h.openedAt..] == h.log[h.openedAt..] + [e];
  }

  // ----- what the invariants mean -----

  /** Completions are in strictly increasing acceptance order, hence at most one a message, and they name
      exactly the messages that left the queue whole and asked to be notified. */
  lemma {:induction false} CompletionsInOrder(accepted: seq<Message>, fate: seq<bool>)
    requires |fate| <= |accepted|
    ensures forall i, j | 0 <= i < j < |NotifiedIds(accepted, fate)| ::
              NotifiedIds(accepted, fate)[i] < NotifiedIds(accepted, fate)[j]
    ensures forall id: nat :: id in NotifiedIds(accepted, fate) <==> id < |fate| && fate[id] && accepted[id].notify
  {
    if fate != [] {
      var last := |fate| - 1;
      var shorter := fate[..last];
      CompletionsInOrder(accepted, shorter);
      assert forall i | 0 <= i < |NotifiedIds(accepted, shorter)| ::
               NotifiedIds(accepted, shorter)[i] in NotifiedIds(accepted, shorter);
    }
  }

  /** Completion callbacks fire in acceptance order, at most once a message, for exactly the messages sent whole
      whose senders asked, and only once the socket has taken the message's last byte. */
  lemma CompletionsFireInOrder(accepted: seq<Message>, fate: seq<bool>, log: seq<Event>, pending: seq<Message>)
    requires Tracks(accepted, fate, log, pending)
    ensures forall i, j | 0 <= i < j < |Completions(log)| :: Completions(log)[i] < Completions(log)[j]
    ensures forall id: nat :: id in Completions(log) <==> id < |fate| && fate[id] && accepted[id].notify
    ensures forall k | 0 <= k < |log| && log[k].Completed? ::
              log[k].id < |accepted| && TakenOf(log[..k], log[k].id) == accepted[log[k].id].bytes
  {
    CompletionsInOrder(accepted, fate);
  }

  lemma {:induction false} NothingLost(fate: seq<bool>)
    requires LostIds(fate) == []
    ensures forall i | 0 <= i < |fate| :: fate[i]
  {
    if fate != [] {
      NothingLost(fate[..|fate|-1]);
      forall i | 0 <= i < |fate| ensures fate[i] {
        if i < |fate| - 1 { assert fate[..|fate|-1][i]; }
      }
    }
  }

  lemma {:induction false} AllNotified(accepted: seq<Message>, fate: seq<bool>)
    requires |fate| <= |accepted|
    requires forall i | 0 <= i < |fate| :: fate[i] && accepted[i].notify
    ensures |NotifiedIds(accepted, fate)| == |fate|
  {
    if fate != [] {
      AllNotified(accepted, fate[..|fate|-1]);
    }
  }

  /** In a run without hard errors in which every sender asked to be notified,
      completions and queued messages together make up the accepted ones. */
  lemma CompletedPlusQueuedIsAccepted(accepted: seq<Message>, fate: seq<bool>, log: seq<Event>, pending: seq<Message>)
    requires Tracks(accepted, fate, log, pending)
    requires Errors(log) == []
    requires forall m <- accepted :: m.notify
    ensures |Completions(log)| + |pending| == |accepted|
  {
    NothingLost(fate);
    AllNotified(accepted, fate);
  }

  /** Once a loss-free connection has drained its queue, the peer has received exactly the messages accepted
      on this connection if and only if nothing was left over in the queue when it was opened. */
  lemma DrainedStream(conn: seq<Event>, sent: seq<Message>, stale: seq<byte>)
    requires Streams(conn, sent, stale, [])
    requires NoLoss(conn)
    ensures Wire(conn) == BytesOf(sent) <==> stale == []
  {
    assert Wire(conn) + BytesOf([]) == Wire(conn);
    if stale == [] {
      assert stale + BytesOf(sent) == BytesOf(sent);
    }
    assert |Wire(conn)| == |stale| + |BytesOf(sent)|;
  }

  // ----- one call of `socketio_send` -----

  /** How a message handed to `Send` fared: refused with no trace; refused for want of memory after the socket
      took `count` bytes of it; queued behind others; or offered to the socket, which took `count` bytes. */
  datatype Sending = Refused | RefusedAfter(count: nat) | Queued | Offered(count: nat)

  /** How it fares is settled by the state, the queue, the socket's answer if it was asked, and whether memory for a
      queue entry was granted. */
  ghost function Outcome(isOpen: bool, pending: seq<Message>, bytes: seq<byte>, granted: bool,
                         answer: SendResult): Sending
  {
    if bytes == [] || !isOpen then Refused
    else if pending != [] then (if granted then Sending.Queued else Refused)
    else if answer == Failed then Refused
    else
      var count := if answer.Took? then answer.count else 0;
      if count == |bytes| || granted then Offered(count) else RefusedAfter(count)
  }

  /** A prefix belongs to nobody exactly if the socket took only part of a message, or none of it for now, and then
      memory was refused. */
  lemma OrphanedExactly(isOpen: bool, pending: seq<Message>, bytes: seq<byte>, granted: bool, answer: SendResult,
                        count: nat)
    ensures Outcome(isOpen, pending, bytes, granted, answer) == RefusedAfter(count) <==>
              && bytes != [] && isOpen && pending == [] && !granted && count != |bytes|
              && (answer == Took(count) || (answer == WouldBlock && count == 0))
  {}

  ghost predicate Possible(how: Sending, pending: seq<Message>, m: Message) {
    match how
    case Refused => true
    case RefusedAfter(count) => pending == [] && count < |m.bytes|
    case Queued => pending != []
    case Offered(count) => pending == [] && count <= |m.bytes|
  }

  ghost function HistoryAfter(h: History, m: Message, how: Sending): History
    requires how.RefusedAfter? || how.Offered? ==> how.count <= |m.bytes|
  {
    match how
    case Refused => h
    case RefusedAfter(count) => h.(log := h.log + [Orphaned(m.bytes[..count])])
    case Queued => h.(accepted := h.accepted + [m])
    case Offered(count) =>
      if count == |m.bytes| then
        h.(accepted := h.accepted + [m], fate := h.fate + [true], log := WholeWrite(h.log, |h.fate|, m))
      else
        h.(accepted := h.accepted + [m], log := h.log + [Taken(|h.fate|, m.bytes[..count])])
  }

  ghost function QueueAfter(pending: seq<Message>, m: Message, how: Sending): seq<Message>
    requires how.RefusedAfter? || how.Offered? ==> how.count <= |m.bytes|
  {
    match how
    case Queued => pending + [m]
    case Offered(count) => if count == |m.bytes| then [] else [m.(bytes := m.bytes[count..])]
    case _ => pending
  }

  lemma ExplainsAfterSend(h: History, pending: seq<Message>, m: Message, how: Sending)
    requires h.Explains(pending) && m.bytes != [] && Possible(how, pending, m)
    ensures HistoryAfter(h, m, how).Explains(QueueAfter(pending, m, how))
  {
    hide Tracks, Streams, History.Explains, WholeWrite;
    match how
    case Refused =>
    case RefusedAfter(count) => ExplainsAfterOrphan(h, pending, m.bytes[..count]);
    case Queued => ExplainsAfterQueueing(h, pending, m);
    case Offered(count) =>
      ExplainsAfterQueueing(h, pending, m);
      var h' := h.(accepted := h.accepted + [m]);
      assert pending + [m] == [m];
      if count == |m.bytes| {
        ExplainsAfterWholeWrite(h', [m]);
        assert [m][1..] == [];
      } else {
        ExplainsAfterShortWrite(h', [m], count);
        assert [m][0 := m.(bytes := m.bytes[count..])] == [m.(bytes := m.bytes[count..])];
      }
  }

  lemma WireAfterSend(h: History, m: Message, how: Sending)
    requires how.RefusedAfter? || how.Offered? ==> how.count <= |m.bytes|
    ensures Wire(HistoryAfter(h, m, how).log) ==
            if how.RefusedAfter? || how.Offered? then Wire(h.log) + m.bytes[..how.count] else Wire(h.log)
  {
    match how
    case RefusedAfter(count) => LogGrows(h.log, Orphaned(m.bytes[..count]));
    case Offered(count) =>
      assert m.bytes[..|m.bytes|] == m.bytes;
      WireAfterWholeWrite(h.log, |h.fate|, m);
      LogGrows(h.log, Taken(|h.fate|, m.bytes[..count]));
    case _ =>
  }

  lemma WireAfterWholeWrite(log: seq<Event>, id: nat, m: Message)
    ensures Wire(WholeWrite(log, id, m)) == Wire(log) + m.bytes
  {
    LogGrows(log, Taken(id, m.bytes));
    LogGrows(log + [Taken(id, m.bytes)], Completed(id));
  }

  lemma {:induction false} WireSplits(before: seq<Event>, after: seq<Event>)
    ensures Wire(before + after) == Wire(before) + Wire(after)
  {
    if after == [] {
      assert before + after == before;
    } else {
      var head, e := after[..|after|-1], after[|after|-1];
      assert (before + after)[..|before + after|-1] == before + head;
      WireSplits(before, head);
      if e.Taken? || e.Orphaned? { Associative(Wire(before), Wire(head), e.bytes); }
    }
  }

  // ----- one call of `socketio_dowork` -----

  /** How a queue is worked off: each call offers the head; a message that is taken whole or meets a hard error leaves,
      and the first one that is taken in part or not at all stays with what is left of it. `left` says of each message
      that left whether it was taken whole. */
  ghost predicate WorkedOff(before: seq<Message>, calls: seq<Call>, left: seq<bool>, after: seq<Message>) {
    var n := |left|;
    && n <= |before| && n <= |calls|
    && (forall i | 0 <= i < n ::
          calls[i] == Call(before[i].bytes, if left[i] then Took(|before[i].bytes|) else Failed))
    && if n == |before| then |calls| == n && after == []
       else
         && |calls| == n + 1 && calls[n].offered == before[n].bytes
         && after == before[n := Rest(before[n], calls[n].answer)][n..]
            && (calls[n].answer == WouldBlock || (calls[n].answer.Took? && calls[n].answer.count < |before[n].bytes|))
  }

  /** What is left of a message after an answer that is no hard error. */
  /** So far every message offered has left. */
  ghost predicate WorkingOff(before: seq<Message>, calls: seq<Call>, left: seq<bool>, rest: seq<Message>) {
    && |calls| == |left| <= |before| && rest == before[|left|..]
    && forall i | 0 <= i < |left| ::
         calls[i] == Call(before[i].bytes, if left[i] then Took(|before[i].bytes|) else Failed)
  }

  lemma NothingOffered(before: seq<Message>)
    ensures WorkingOff(before, [], [], before)
  {}

  lemma OneMoreOffered(before: seq<Message>, calls: seq<Call>, left: seq<bool>, rest: seq<Message>, answer: SendResult)
    requires WorkingOff(before, calls, left, rest) && rest != []
    ensures var more := calls + [Call(rest[0].bytes, answer)];
            if answer == Failed || answer == Took(|rest[0].bytes|) then
              WorkingOff(before, more, left + [answer != Failed], rest[1..])
            else answer == WouldBlock || answer.count < |rest[0].bytes| ==>
              WorkedOff(before, more, left, rest[0 := Rest(rest[0], answer)])
  {
    assert rest[0] == before[|left|];
    assert rest[0 := Rest(rest[0], answer)] == before[|left| := Rest(rest[0], answer)][|left|..];
  }

  lemma AllOffered(before: seq<Message>, calls: seq<Call>, left: seq<bool>)
    requires WorkingOff(before, calls, left, [])
    ensures WorkedOff(before, calls, left, [])
  {
    assert |before[|left|..]| == |before| - |left|;
  }

  ghost function Rest(m: Message, answer: SendResult): Message {
    if answer.Took? && answer.count <= |m.bytes| then m.(bytes := m.bytes[answer.count..]) else m
  }

  /** Working a queue off stops early only because the socket took less than a whole message; and then nothing behind
      that message has been offered. */
  lemma StopsOnlyWhenShort(before: seq<Message>, calls: seq<Call>, left: seq<bool>, after: seq<Message>)
    requires WorkedOff(before, calls, left, after)
    ensures after != [] <==> |left| < |before|
    ensures after != [] ==>
              var last := calls[|calls|-1];
              && last.offered == before[|before| - |after|].bytes && after[1..] == before[|before| - |after| + 1..]
              && (last.answer == WouldBlock || (last.answer.Took? && last.answer.count < |last.offered|))
  {}

  /** SOCKET_IO_INSTANCE, with its history as ghost state. */
  class SocketIo {
    var ioState: IoState
    var socketValid: bool
    var pending: seq<Message>
    ghost var history: History
    // what the socket was offered and answered, on all connections
    ghost var calls: seq<Call>

    ghost predicate Valid()
      reads this
    {
      history.Explains(pending) && Wire(history.log) == TakenBy(calls) && (ioState == IoState.Open ==> socketValid)
    }

    constructor ()
      ensures Valid() && ioState == Closed && !socketValid && pending == []
      ensures history == History([], [], [], 0, 0, []) && calls == []
    {
      ioState, socketValid, pending := Closed, false, [];
      history, calls := History([], [], [], 0, 0, []), [];
    }

    /** On a connection without losses, what the socket has taken since it was opened and what is queued make up what
        was queued at that moment and the messages accepted since. */
    lemma SocketTakesTheStream()
      requires Valid() && NoLoss(history.log[history.openedAt..])
      ensures TakenBy(calls) + BytesOf(pending) ==
              Wire(history.log[..history.openedAt])
              + (history.stale + BytesOf(history.accepted[history.acceptedBefore..]))
    {
      var earlier, conn := history.log[..history.openedAt], history.log[history.openedAt..];
      assert history.log == earlier + conn;
      WireSplits(earlier, conn);
      Associative(Wire(earlier), Wire(conn), BytesOf(pending));
    }

    /** The kernel: an invalid descriptor always fails, a valid one may do anything. */
    method KernelSend(bytes: seq<byte>) returns (r: SendResult)
      modifies `calls
      ensures calls == old(calls) + [Call(bytes, r)]
      ensures !socketValid ==> r == Failed
      ensures r.Took? ==> r.count <= |bytes|
    {
      if socketValid {
        var count :| 0 <= count <= |bytes|;
        r := *;
        if r.Took? { r := Took(count); }
      } else {
        r := Failed;
      }
      calls := calls + [Call(bytes, r)];
    }

    /** `granted` says whether there is memory for the entry and for its place in the list. */
    method AddPendingIo(m: Message, granted: bool) returns (ok: bool)
      modifies `pending
      ensures ok == granted && pending == if ok then old(pending) + [m] else old(pending)
    {
      ok := granted;
      if ok { pending := pending + [m]; }
    }

    /** The connection attempt itself is a parameter here; SocketConnect describes it. */
    method Open(connected: bool) returns (ok: bool)
      requires Valid()
      modifies `ioState, `socketValid, `history
      ensures Valid()
      ensures ok <==> old(ioState) == Closed && (old(socketValid) || connected)
      ensures ioState == (if ok then IoState.Open else old(ioState))
      ensures history == if ok
              then old(history).(openedAt := |history.log|, acceptedBefore := |history.accepted|,
                                 stale := BytesOf(pending))
              else old(history)
    {
      ok := ioState == Closed && (socketValid || connected);
      if ok {
        ExplainsAfterOpening(history, pending);
        ioState, socketValid := IoState.Open, true;
        history := history.(openedAt := |history.log|, acceptedBefore := |history.accepted|, stale := BytesOf(pending));
      }
    }

    /** Closing leaves the queue as it is. */
    method Close()
      requires Valid()
      modifies `ioState, `socketValid
      ensures Valid()
      ensures if old(ioState) in {Closed, Closing}
              then ioState == old(ioState) && socketValid == old(socketValid)
              else ioState == Closed && !socketValid
    {
      if ioState != Closed && ioState != Closing {
        socketValid, ioState := false, Closed;
      }
    }

    /** A message is accepted whole or refused whole, and waits its turn when others are queued; but a refusal
        for want of memory can come after the socket already took a prefix, which then belongs to no accepted
        message. The socket is asked, once and with all the bytes, exactly if the queue is empty. */
    method Send(bytes: seq<byte>, notify: bool, granted: bool)
      returns (ok: bool, ghost how: Sending, ghost answer: SendResult)
      requires Valid()
      modifies `pending, `history, `calls
      ensures Valid()
      // whether the socket is asked, and its answer
      ensures calls == if bytes != [] && ioState == IoState.Open && old(pending) == []
                       then old(calls) + [Call(bytes, answer)] else old(calls)
      ensures answer.Took? ==> answer.count <= |bytes|
      // whether the message is accepted
      ensures ok <==>
                && bytes != [] && ioState == IoState.Open
                && if old(pending) != [] then granted
                   else answer == Took(|bytes|) || (answer != Failed && granted)
      ensures history.accepted == if ok then old(history).accepted + [Message(bytes, notify)] else old(history).accepted
      // where its bytes are
      ensures !ok ==> pending == old(pending)
      ensures ok && old(pending) != [] ==>
                pending == old(pending) + [Message(bytes, notify)] && history.log == old(history).log
      ensures ok && old(pending) == [] ==>
                pending == if answer == Took(|bytes|) then []
                           else [Message(if answer.Took? then bytes[answer.count..] else bytes, notify)]
      // whether it has been completed
      ensures ok && old(pending) == [] && answer == Took(|bytes|) ==>
                && history.fate == old(history).fate + [true]
                && history.log == old(history).log + [Taken(|old(history).fate|, bytes)]
                                  + (if notify then [Completed(|old(history).fate|)] else [])
      ensures !(ok && old(pending) == [] && answer == Took(|bytes|)) ==> history.fate == old(history).fate
      // in terms of the outcomes
      ensures how == Outcome(ioState == IoState.Open, old(pending), bytes, granted, answer)
      ensures Possible(how, old(pending), Message(bytes, notify))
      ensures history == HistoryAfter(old(history), Message(bytes, notify), how)
      ensures pending == QueueAfter(old(pending), Message(bytes, notify), how)
    {
      hide History.Explains, Wire, TakenBy;
      ok, how, answer := false, Refused, Failed;
      if bytes == [] || ioState != IoState.Open {
        return;
      }
      var m := Message(bytes, notify);
      if pending != [] {
        ok := AddPendingIo(m, granted);
        how := if ok then Sending.Queued else Refused;
      } else {
        var r := KernelSend(bytes);
        answer := r;
        OneMoreCall(old(calls), Call(bytes, r));
        if r == Failed {
          return;
        }
        var count := if r.Took? then r.count else 0;
        ok := true;
        if count != |bytes| {
          ok := AddPendingIo(m.(bytes := bytes[count..]), granted);
          assert ok ==> pending == [m.(bytes := bytes[count..])];
        }
        how := if ok then Offered(count) else RefusedAfter(count);
        assert Wire(history.log) + bytes[..0] == Wire(history.log);
      }
      WireAfterSend(history, m, how);
      ExplainsAfterSend(history, old(pending), m, how);
      history := HistoryAfter(history, m, how);
    }

    /** The head of the queue is offered to the socket. It leaves the queue if it is taken whole, and also on a hard
        error, which is reported and moves the adapter to the error state; otherwise what is left of it stays. */
    method OfferHead() returns (gone: bool, ghost answer: SendResult)
      requires Valid() && pending != []
      modifies `ioState, `pending, `history, `calls
      ensures Valid() && old(history).SameConnection(history) && history.accepted == old(history).accepted
      ensures calls == old(calls) + [Call(old(pending)[0].bytes, answer)]
      ensures !socketValid ==> answer == Failed
      ensures gone <==> answer == Failed || answer == Took(|old(pending)[0].bytes|)
      ensures !gone ==> answer == WouldBlock || (answer.Took? && answer.count < |old(pending)[0].bytes|)
      ensures gone ==> pending == old(pending)[1..]
      ensures !gone ==>
                && |pending| == |old(pending)| && pending[1..] == old(pending)[1..]
                && pending[0] == match answer
                                 case Took(count) => old(pending)[0].(bytes := old(pending)[0].bytes[count..])
                                 case _ => old(pending)[0]
      ensures !gone ==> pending == old(pending)[0 := Rest(old(pending)[0], answer)]
      ensures history.fate == if gone then old(history).fate + [answer != Failed] else old(history).fate
      ensures old(history).log <= history.log
      ensures ioState == if answer == Failed then Error else old(ioState)
    {
      hide Tracks, Streams, BytesOf, Wire, TakenBy, History.Explains, WholeWrite;
      ghost var h := history;
      var head := pending[0];
      var r := KernelSend(head.bytes);
      OneMoreCall(old(calls), Call(head.bytes, r));
      gone, answer := true, r;
      if r == Took(|head.bytes|) {
        ExplainsAfterWholeWrite(h, pending);
        WireAfterWholeWrite(h.log, |h.fate|, head);
        assert head.bytes[..|head.bytes|] == head.bytes;
        history := h.(fate := h.fate + [true], log := WholeWrite(h.log, |h.fate|, head));
        pending := pending[1..];
      } else if r == Failed {
        ExplainsAfterLoss(h, pending);
        LogGrows(h.log, ErrorIndicated(|h.fate|));
        history := h.(fate := h.fate + [false], log := h.log + [ErrorIndicated(|h.fate|)]);
        pending, ioState := pending[1..], Error;
      } else {
        gone := false;
        if r.Took? {
          ExplainsAfterShortWrite(h, pending, r.count);
          LogGrows(h.log, Taken(|h.fate|, head.bytes[..r.count]));
          history := h.(log := h.log + [Taken(|h.fate|, head.bytes[..r.count])]);
          pending := pending[0 := head.(bytes := head.bytes[r.count..])];
        }
      }
    }

    /** Works the queue from its head until it is empty or the socket takes less than a whole message.
        Every hard error on the way drops one message, reports it and moves the adapter to the error state.
        `left` says what became of each message that left the queue. */
    method DoWork() returns (ghost left: seq<bool>)
      requires Valid()
      modifies `ioState, `pending, `history, `calls
      ensures Valid() && old(history).SameConnection(history) && history.accepted == old(history).accepted
      ensures history.fate == old(history).fate + left && old(history).log <= history.log
      ensures old(calls) <= calls && WorkedOff(old(pending), calls[|old(calls)|..], left, pending)
      ensures |left| <= |old(pending)| && |calls| == |old(calls)| + |left| + (if pending == [] then 0 else 1)
      ensures forall i | 0 <= i < |left| ::
                calls[|old(calls)| + i].offered == old(pending)[i].bytes
                && calls[|old(calls)| + i].answer == if left[i] then Took(|old(pending)[i].bytes|) else Failed
      ensures pending != [] ==> pending[1..] == old(pending)[|left| + 1..]
      ensures ioState == if false in left then Error else old(ioState)
      ensures !socketValid ==> pending == [] && true !in left
    {
      hide Valid, Tracks, Streams, BytesOf, Wire, TakenBy, History.Explains, WorkingOff, WorkedOff, Rest;
      left := [];
      ghost var made: seq<Call>, before, stopped := [], pending, false;
      NothingOffered(before);
      while pending != []
        invariant Valid() && old(history).SameConnection(history) && history.accepted == old(history).accepted
        invariant history.fate == old(history).fate + left && old(history).log <= history.log
        invariant calls == old(calls) + made && WorkingOff(before, made, left, pending) && !stopped
        invariant ioState == if false in left then Error else old(ioState)
        invariant !socketValid ==> true !in left
        decreases |pending|
      {
        ghost var h, head, rest := history, pending[0], pending;
        ghost var answer;
        var gone;
        gone, answer := OfferHead();
        PrefixGrows(old(history).log, h.log, history.log);
        Associative(old(calls), made, [Call(head.bytes, answer)]);
        OneMoreOffered(before, made, left, rest, answer);
        made := made + [Call(head.bytes, answer)];
        if !gone {
          stopped := true;
          break;
        }
        Associative(old(history).fate, left, [answer != Failed]);
        left := left + [answer != Failed];
      }
      if !stopped { AllOffered(before, made, left); }
      assert calls[|old(calls)|..] == made;
    }
  }
}
