/** The OpenSSL adapter's life cycle over an underlying IO that calls back synchronously. The TLS library and the
    underlying IO are oracles: their answers are parameters. */
module OpensslAdapter {
  import opened Common

  datatype State = NotOpen | OpeningUnderlyingIo | InHandshake | HandshakeFailed | Open | Closing | Error

  datatype OpenResult = Ok | Failed | Cancelled

  /** What the user of the adapter sees: an open call that got past the state check, and the callbacks. */
  datatype Entry = OpenStarted | OpenComplete(result: OpenResult) | IoError | Received(bytes: seq<byte>) | CloseComplete

  // ----- open calls and their answers -----

  /** Whether the last open call of a log has been answered. */
  datatype Phase = NeverOpened | Unanswered | Answered(result: OpenResult)

  ghost function PhaseOf(log: seq<Entry>): Phase {
    if log == [] then NeverOpened else
      match log[|log|-1]
      case OpenStarted => Unanswered
      case OpenComplete(result) => Answered(result)
      case _ => PhaseOf(log[..|log|-1])
  }

  /** Every open-complete callback answers an open call that was not answered before. */
  ghost predicate Orderly(log: seq<Entry>) {
    log == [] ||
    (var before := log[..|log|-1];
     Orderly(before) && (log[|log|-1].OpenComplete? ==> PhaseOf(before) == Unanswered))
  }

  lemma PhaseGrows(log: seq<Entry>, e: Entry)
    ensures PhaseOf(log + [e]) ==
            match e { case OpenStarted => Unanswered case OpenComplete(r) => Answered(r) case _ => PhaseOf(log) }
    ensures Orderly(log + [e]) <==> Orderly(log) && (e.OpenComplete? ==> PhaseOf(log) == Unanswered)
  {
    assert (log + [e])[..|log|] == log;
  }

  /** In an orderly log each open call gets at most one answer: an open call lies between any two answers, and one
      before the first. */
  lemma {:induction false} AtMostOneAnswerEach(log: seq<Entry>, i: nat, j: nat)
    requires Orderly(log) && i < j < |log| && log[i].OpenComplete? && log[j].OpenComplete?
    ensures exists k | i < k < j :: log[k] == OpenStarted
    decreases |log|
  {
    var last := |log| - 1;
    if j < last {
      AtMostOneAnswerEach(log[..last], i, j);
    } else {
      UnansweredSince(log[..last], i);
    }
  }

  lemma {:induction false} UnansweredSince(log: seq<Entry>, i: nat)
    requires PhaseOf(log) == Unanswered && i < |log| && log[i].OpenComplete?
    ensures exists k | i < k < |log| :: log[k] == OpenStarted
  {
    var last := |log| - 1;
    if log[last] != OpenStarted {
      UnansweredSince(log[..last], i);
    }
  }

  lemma {:induction false} AnswersFollowOpens(log: seq<Entry>, j: nat)
    requires Orderly(log) && j < |log| && log[j].OpenComplete?
    ensures exists k | 0 <= k < j :: log[k] == OpenStarted
    decreases |log|
  {
    var last := |log| - 1;
    if j < last {
      AnswersFollowOpens(log[..last], j);
    } else {
      UnansweredStarted(log[..last]);
    }
  }

  lemma {:induction false} UnansweredStarted(log: seq<Entry>)
    requires PhaseOf(log) == Unanswered
    ensures exists k | 0 <= k < |log| :: log[k] == OpenStarted
  {
    var last := |log| - 1;
    if log[last] != OpenStarted {
      UnansweredStarted(log[..last]);
    }
  }

  // ----- open calls that are forgotten -----

  ghost predicate OpenedBetween(log: seq<Entry>, from: nat, to: nat) {
    exists k | from <= k < to && k < |log| :: log[k] == OpenStarted
  }

  /** When the log had `n` entries its last open call was unanswered, and no answer has come since: an open-complete
      callback behind that point answers a later open call. */
  ghost predicate Forgotten(log: seq<Entry>, n: nat) {
    && n <= |log|
    && PhaseOf(log[..n]) == Unanswered
    && forall j | n <= j < |log| && log[j].OpenComplete? :: OpenedBetween(log, n, j)
  }

  lemma OpenedGrows(log: seq<Entry>, e: Entry, n: nat)
    requires n <= |log|
    ensures OpenedBetween(log + [e], n, |log| + 1) <==> OpenedBetween(log, n, |log|) || e == OpenStarted
  {
    var longer := log + [e];
    assert longer[|log|] == e;
    if OpenedBetween(log, n, |log|) {
      var k :| n <= k < |log| && log[k] == OpenStarted;
      assert longer[k] == OpenStarted;
    }
  }

  lemma ForgottenGrows(log: seq<Entry>, e: Entry, n: nat)
    requires Forgotten(log, n) && (e.OpenComplete? ==> OpenedBetween(log, n, |log|))
    ensures Forgotten(log + [e], n)
  {
    hide PhaseOf;
    var longer := log + [e];
    assert longer[..n] == log[..n];
    forall j | n <= j < |longer| && longer[j].OpenComplete? ensures OpenedBetween(longer, n, j) {
      assert OpenedBetween(log, n, j);
      var k :| n <= k < j && log[k] == OpenStarted;
      assert longer[k] == OpenStarted;
    }
  }

  /** What has been forgotten, at the lengths `forgotten`, stays unanswered; `silenced` tells whether this still
      concerns the last open call. */
  ghost predicate Remembers(log: seq<Entry>, forgotten: seq<nat>, silenced: bool) {
    && (forall n <- forgotten :: Forgotten(log, n) && (silenced || OpenedBetween(log, n, |log|)))
    && (silenced ==> forgotten != [] && !OpenedBetween(log, forgotten[|forgotten|-1], |log|))
  }

  lemma RemembersGrowing(log: seq<Entry>, forgotten: seq<nat>, silenced: bool, e: Entry)
    requires Remembers(log, forgotten, silenced)
    ensures !(silenced && (e.OpenComplete? || e.OpenStarted?)) ==> Remembers(log + [e], forgotten, silenced)
    ensures e == OpenStarted ==> Remembers(log + [e], forgotten, false)
  {
    hide OpenedBetween;
    forall n <- forgotten
      ensures OpenedBetween(log + [e], n, |log| + 1) <==> OpenedBetween(log, n, |log|) || e == OpenStarted
      ensures !(silenced && e.OpenComplete?) ==> Forgotten(log + [e], n)
    {
      OpenedGrows(log, e, n);
      if !(silenced && e.OpenComplete?) {
        ForgottenGrows(log, e, n);
      }
    }
    if silenced {
      assert forgotten[|forgotten|-1] in forgotten;
    }
  }

  // ----- oracles -----

  /** SSL_do_handshake: done; in need of another round trip, with the pending bytes `sent` or not; or failed. */
  datatype Handshake = Success | WantsMore(sent: bool) | Fatal

  /** One SSL_read that yields bytes; the user may close the adapter while being given them. */
  datatype Read = Data(bytes: seq<byte>, userCloses: bool)

  /** What the underlying IO reports while it is being pumped. For bytes: whether the memory BIO took them, and what
      the library then makes of them. */
  datatype Event =
    | Bytes(stored: bool, handshake: Handshake, data: seq<Read>)
    | UnderlyingError

  /** `xio_open`: fails outright, or calls back with the outcome before it returns success. */
  datatype UnderlyingOpen = Refused | CalledBack(ok: bool)

  /** Where a handshake step leaves the adapter, and what it tells the user. */
  function AfterHandshake(h: Handshake): State {
    match h
    case Success => Open
    case WantsMore(sent) => if sent then InHandshake else HandshakeFailed
    case Fatal => HandshakeFailed
  }

  function HandshakeLog(h: Handshake): seq<Entry> {
    if h == Success then [OpenComplete(Ok)] else []
  }

  /** What the user sees while the available data is handed over: everything up to and including the data during which
      it closes the adapter. */
  ghost function DecodeLog(data: seq<Read>): seq<Entry> {
    if data == [] then []
    else if data[0].userCloses then [Received(data[0].bytes), CloseComplete]
    else [Received(data[0].bytes)] + DecodeLog(data[1..])
  }

  ghost predicate UserCloses(data: seq<Read>) {
    data != [] && (data[0].userCloses || UserCloses(data[1..]))
  }

  predicate IsOpeningState(s: State) {
    s == OpeningUnderlyingIo || s == InHandshake
  }

  /** The user is handed everything in order, up to and including the bytes during which it closes the adapter: those of
      the read number `k`, or none. */
  lemma {:induction false} DecodedUpToClose(data: seq<Read>, k: nat)
    requires k <= |data| && (forall j | 0 <= j < k :: !data[j].userCloses) && (k < |data| ==> data[k].userCloses)
    ensures UserCloses(data) <==> k < |data|
    ensures |DecodeLog(data)| == if k < |data| then k + 2 else k
    ensures forall j | 0 <= j <= k && j < |data| :: DecodeLog(data)[j] == Received(data[j].bytes)
    ensures k < |data| ==> DecodeLog(data)[k + 1] == CloseComplete
  {
    if k > 0 {
      DecodedUpToClose(data[1..], k - 1);
      assert forall j | 1 <= j < |data| :: data[1..][j - 1] == data[j];
    }
  }

  // ----- the adapter -----

  class TlsIo {
    var state: State
    var ssl: bool            // the SSL object exists
    var underlyingOpen: bool
    ghost var log: seq<Entry>
    ghost var silenced: bool // the last open call will never be answered
    ghost var forgotten: seq<nat> // the lengths the log had when an open call was silenced
    ghost var destroyed: bool

    /** No open call is answered twice; none has been answered while the adapter is opening, in the handshake, or
        about to act upon a failed one; an open adapter has told its user so; and all of these have an SSL object. */
    ghost predicate Sound()
      reads this
    {
      && !destroyed && Orderly(log)
      && (state in {OpeningUnderlyingIo, InHandshake, HandshakeFailed} ==> PhaseOf(log) == Unanswered && !silenced)
      && (state == Open ==> PhaseOf(log) == Answered(Ok))
      && (state in {OpeningUnderlyingIo, InHandshake, HandshakeFailed, Open} ==> ssl)
      && Remembers(log, forgotten, silenced)
    }

    /** Moreover `silenced` tells exactly when an unanswered open call has been forgotten. */
    ghost predicate Consistent()
      reads this
    {
      Sound() && silenced == (PhaseOf(log) == Unanswered && state in {NotOpen, Error, Closing})
    }

    /** Holds between the user's calls: the transient states are never seen. */
    ghost predicate Valid()
      reads this
    {
      Consistent() && state != OpeningUnderlyingIo && state != Closing
    }

    constructor ()
      ensures Valid() && state == NotOpen && !ssl && !underlyingOpen
      ensures log == [] && !silenced && forgotten == []
    {
      state, ssl, underlyingOpen, log, silenced, forgotten, destroyed := NotOpen, false, false, [], false, [], false;
    }

    ghost method Note(e: Entry)
      modifies `log
      ensures log == old(log) + [e]
      ensures Orderly(log) <==> Orderly(old(log)) && (e.OpenComplete? ==> PhaseOf(old(log)) == Unanswered)
      ensures PhaseOf(log) ==
              match e { case OpenStarted => Unanswered case OpenComplete(r) => Answered(r) case _ => PhaseOf(old(log)) }
      ensures Remembers(old(log), forgotten, silenced) && !(silenced && (e.OpenComplete? || e.OpenStarted?))
              ==> Remembers(log, forgotten, silenced)
    {
      PhaseGrows(log, e);
      if Remembers(log, forgotten, silenced) {
        RemembersGrowing(log, forgotten, silenced, e);
      }
      log := log + [e];
    }

    /** The last open call, which is unanswered, will never be answered. */
    ghost method Forget()
      requires PhaseOf(log) == Unanswered && Remembers(log, forgotten, silenced)
      modifies `silenced, `forgotten
      ensures silenced && forgotten == old(forgotten) + (if old(silenced) then [] else [|log|])
      ensures Remembers(log, forgotten, silenced)
    {
      if !silenced {
        assert log[..|log|] == log;
        silenced, forgotten := true, forgotten + [|log|];
      }
    }

    /** Whatever has been done since, an open call that was silenced has not been answered. */
    lemma SilencedStaysUnanswered(n: nat, j: nat)
      requires Remembers(log, forgotten, silenced) && n in forgotten && n <= j < |log| && log[j].OpenComplete?
      ensures PhaseOf(log[..n]) == Unanswered && exists k | n <= k < j :: log[k] == OpenStarted
    {
      assert Forgotten(log, n) && OpenedBetween(log, n, j);
    }

    /** `send_handshake_bytes`. A failure is only remembered; it is acted upon in `DoWork`. */
    method SendHandshakeBytes(h: Handshake)
      requires Consistent() && state == InHandshake
      modifies `state, `log
      ensures Consistent()
      ensures state == AfterHandshake(h) && log == old(log) + HandshakeLog(h)
      ensures h == Success ==> state == Open && log == old(log) + [OpenComplete(Ok)]
      ensures h == WantsMore(true) ==> state == InHandshake && log == old(log)
      ensures h in {WantsMore(false), Fatal} ==> state == HandshakeFailed && log == old(log)
    {
      assert log + [] == log;
      match h
      case Success =>
        state := Open;
        Note(OpenComplete(Ok));
      case WantsMore(sent) =>
        if !sent { state := HandshakeFailed; }
      case Fatal =>
        state := HandshakeFailed;
    }

    /** `on_underlying_io_open_complete`. Called back when the adapter does not wait for it, it keeps callbacks in order
        exactly if an open call was unanswered. */
    method OnUnderlyingOpenComplete(ok: bool, h: Handshake)
      requires Consistent()
      modifies `state, `log
      ensures old(state) == OpeningUnderlyingIo ==>
                && Consistent() && state != OpeningUnderlyingIo && state != Closing
                && (ok ==> state == AfterHandshake(h) && log == old(log) + HandshakeLog(h))
      ensures old(state) == OpeningUnderlyingIo && ok ==>
                && (h == Success ==> state == Open && log == old(log) + [OpenComplete(Ok)])
                && (h == WantsMore(true) ==> state == InHandshake && log == old(log))
                && (h in {WantsMore(false), Fatal} ==> state == HandshakeFailed && log == old(log))
      ensures !ok || old(state) != OpeningUnderlyingIo ==> state == NotOpen && log == old(log) + [OpenComplete(Failed)]
      ensures Orderly(log) <==> old(state) == OpeningUnderlyingIo || PhaseOf(old(log)) == Unanswered
    {
      if state == OpeningUnderlyingIo && ok {
        state := InHandshake;
        SendHandshakeBytes(h);
      } else {
        state := NotOpen;
        Note(OpenComplete(Failed));
      }
    }

    /** `on_underlying_io_error`. */
    method OnUnderlyingError()
      requires Consistent()
      modifies `state, `log
      ensures Consistent()
      ensures state == if old(state) in {OpeningUnderlyingIo, InHandshake} then NotOpen else old(state)
      ensures log == if old(state) in {OpeningUnderlyingIo, InHandshake} then old(log) + [OpenComplete(Failed)]
                     else if old(state) == Open then old(log) + [IoError] else old(log)
    {
      if IsOpeningState(state) {
        state := NotOpen;
        Note(OpenComplete(Failed));
      } else if state == Open {
        Note(IoError);
      }
    }

    /** `on_underlying_io_close_complete`. Called back in a state that does not wait for it, it leaves the adapter
        without its SSL object. */
    method OnUnderlyingCloseComplete()
      requires Sound()
      modifies `state, `log, `ssl
      ensures Sound() <==> old(state) !in {InHandshake, HandshakeFailed, Open}
      ensures !ssl && state == (if old(state) in {OpeningUnderlyingIo, Closing} then NotOpen else old(state))
      ensures log == match old(state)
                     case OpeningUnderlyingIo => old(log) + [OpenComplete(Failed)]
                     case Closing => old(log) + [CloseComplete]
                     case _ => old(log)
      ensures old(state) != OpeningUnderlyingIo ==> PhaseOf(log) == PhaseOf(old(log))
    {
      hide Orderly, PhaseOf, Remembers;
      if state == OpeningUnderlyingIo {
        state := NotOpen;
        Note(OpenComplete(Failed));
      } else if state == Closing {
        state := NotOpen;
        Note(CloseComplete);
      }
      ssl := false;
    }

    /** A new open call ends the silence about an earlier one. */
    ghost method StartOpening()
      requires Remembers(log, forgotten, silenced) && Orderly(log)
      modifies `log, `silenced
      ensures Remembers(log, forgotten, silenced) && !silenced && Orderly(log)
      ensures log == old(log) + [OpenStarted] && PhaseOf(log) == Unanswered
    {
      PhaseGrows(log, OpenStarted);
      RemembersGrowing(log, forgotten, silenced, OpenStarted);
      log, silenced := log + [OpenStarted], false;
    }

    /** `tlsio_openssl_open`: `instance` says whether the library's objects could be created. An accepted call is
        answered at once, or later, or, if it reports failure, never. */
    method OpenIo(instance: bool, under: UnderlyingOpen, h: Handshake) returns (ok: bool)
      requires Valid()
      modifies this
      ensures Valid()
      ensures old(state) != NotOpen ==> !ok && state == old(state) && log == old(log) && silenced == old(silenced)
      ensures forgotten == old(forgotten) + (if old(state) == NotOpen && !ok then [|log|] else [])
      ensures old(state) == NotOpen ==>
                && (ok <==> instance && under != Refused)
                && silenced == !ok
                && (ok && under == CalledBack(true) && !old(underlyingOpen)
                    ==> state == AfterHandshake(h) && log == old(log) + [OpenStarted] + HandshakeLog(h))
                && (ok && (under == CalledBack(false) || old(underlyingOpen))
                    ==> state == NotOpen && log == old(log) + [OpenStarted] + [OpenComplete(Failed)])
                && (!ok ==> state == NotOpen && log == old(log) + [OpenStarted])
      ensures old(state) == NotOpen && instance && under == CalledBack(true) && !old(underlyingOpen) ==>
                && (h == Success ==> state == Open && log == old(log) + [OpenStarted, OpenComplete(Ok)])
                && (h == WantsMore(true) ==> state == InHandshake && log == old(log) + [OpenStarted])
                && (h in {WantsMore(false), Fatal} ==> state == HandshakeFailed && log == old(log) + [OpenStarted])
      ensures underlyingOpen ==
              (old(underlyingOpen) || (old(state) == NotOpen && instance && under == CalledBack(true)))
    {
      hide Orderly, PhaseOf;
      if state != NotOpen {
        return false;
      }
      state := OpeningUnderlyingIo;
      StartOpening();
      if !instance {
        state := NotOpen;
        Forget();
        return false;
      }
      ssl := true;
      match under
      case Refused =>
        state, ssl := NotOpen, false;
        Forget();
        return false;
      case CalledBack(opens) =>
        // an underlying IO that is still open refuses to be opened again
        var opensNow := opens && !underlyingOpen;
        underlyingOpen := underlyingOpen || opens;
        OnUnderlyingOpenComplete(opensNow, h);
        return true;
    }

    /** `tlsio_openssl_close`: whatever the state, the adapter ends up closed, having first told an open call in an
        opening state that it is cancelled. A call whose handshake has failed is not told, and silenced. `closes` is
        the success of closing the underlying IO. */
    method CloseIo(closes: bool)
      requires Sound()
      modifies this
      ensures Sound() && (old(Consistent()) ==> Valid())
      ensures state == NotOpen && !ssl
      ensures log == old(log)
                     + (if old(state) in {OpeningUnderlyingIo, InHandshake} then [OpenComplete(Cancelled)] else [])
                     + (if old(state) == Open && closes then [CloseComplete] else [])
      ensures PhaseOf(log) ==
              if old(state) in {OpeningUnderlyingIo, InHandshake} then Answered(Cancelled) else PhaseOf(old(log))
      ensures underlyingOpen == (old(underlyingOpen) && !closes)
      ensures silenced == (old(silenced) || old(state) == HandshakeFailed)
      ensures forgotten == old(forgotten) + (if old(state) == HandshakeFailed then [|log|] else [])
    {
      hide Orderly, PhaseOf, Remembers;
      if IsOpeningState(state) {
        Note(OpenComplete(Cancelled));
      }
      if state == HandshakeFailed {
        Forget();
      }
      if state == Open {
        state := Closing;
        underlyingOpen := underlyingOpen && !closes;
        if closes {
          OnUnderlyingCloseComplete();
        } else {
          ssl, state := false, NotOpen;
        }
      } else {
        underlyingOpen := underlyingOpen && !closes;
        ssl, state := false, NotOpen;
      }
    }

    /** `decode_ssl_received_bytes`: hands on what the library has, and stops as soon as the user closes. */
    method Decode(data: seq<Read>) returns (ok: bool)
      requires Consistent() && state == Open
      modifies this
      ensures ok && Consistent()
      ensures state == if UserCloses(data) then NotOpen else Open
      ensures log == old(log) + DecodeLog(data)
      ensures silenced == old(silenced) && forgotten == old(forgotten)
      ensures underlyingOpen == (old(underlyingOpen) && state == Open)
    {
      hide Orderly, PhaseOf;
      ok := true;
      var more, rest := true, data;
      while more && state == Open
        invariant ok && Consistent() && state in {Open, NotOpen}
        invariant silenced == old(silenced) && forgotten == old(forgotten)
        invariant state == Open ==> UserCloses(rest) == UserCloses(data) && underlyingOpen == old(underlyingOpen)
        invariant state == Open ==> log + DecodeLog(rest) == old(log) + DecodeLog(data)
        invariant state == NotOpen ==> UserCloses(data) && !underlyingOpen && log == old(log) + DecodeLog(data)
        invariant !more && state == Open ==> rest == []
        decreases more, |rest|
      {
        if !ssl {
          return false;
        }
        if rest != [] {
          ghost var before := log;
          Note(Received(rest[0].bytes));
          var read := rest[0];
          rest := rest[1..];
          if read.userCloses {
            CloseIo(true);
            assert log == before + [Received(read.bytes), CloseComplete];
          } else {
            Associative(before, [Received(read.bytes)], DecodeLog(rest));
          }
        } else {
          more := false;
        }
      }
      assert log + [] == log;
    }

    /** `on_underlying_io_bytes_received`. */
    method OnUnderlyingBytesReceived(stored: bool, h: Handshake, data: seq<Read>)
      requires Consistent() && state != OpeningUnderlyingIo && state != Closing
      modifies this
      ensures Consistent() && state != OpeningUnderlyingIo && state != Closing
      ensures !stored ==> state == Error && log == old(log) + [IoError]
      ensures stored && old(state) == InHandshake ==> state == AfterHandshake(h) && log == old(log) + HandshakeLog(h)
      ensures stored && old(state) == InHandshake ==>
                && (h == Success ==> state == Open && log == old(log) + [OpenComplete(Ok)])
                && (h == WantsMore(true) ==> state == InHandshake && log == old(log))
                && (h in {WantsMore(false), Fatal} ==> state == HandshakeFailed && log == old(log))
      ensures stored && old(state) == Open ==>
                state == (if UserCloses(data) then NotOpen else Open) && log == old(log) + DecodeLog(data)
      ensures stored && old(state) !in {InHandshake, Open} ==> state == old(state) && log == old(log)
      ensures silenced == (old(silenced) || (!stored && old(state) in {InHandshake, HandshakeFailed}))
      ensures forgotten == old(forgotten)
                           + (if !stored && old(state) in {InHandshake, HandshakeFailed} then [|log|] else [])
      ensures underlyingOpen == (old(underlyingOpen) && !(stored && old(state) == Open && UserCloses(data)))
    {
      hide Orderly, PhaseOf;
      if !stored {
        Note(IoError);
        if state in {InHandshake, HandshakeFailed} {
          Forget();
        }
        state := Error;
      } else if state == InHandshake {
        SendHandshakeBytes(h);
      } else if state == Open {
        var ok := Decode(data);
        if !ok {
          // The source would indicate an error here; an open adapter always has its `ssl`.
          assert false;
        }
      }
    }

    /** One event that the underlying IO reports; the user has seen `seen` since the log was `before`. */
    method PumpEvent(event: Event, ghost before: seq<Entry>, ghost seen: seq<Entry>) returns (ghost seen': seq<Entry>)
      requires Valid() && log == before + seen
      modifies this
      ensures Valid() && log == before + seen' && old(forgotten) <= forgotten
      ensures View(state, underlyingOpen, seen', silenced) ==
              OnEvent(View(old(state), old(underlyingOpen), seen, old(silenced)), event)
    {
      hide Orderly, PhaseOf, Remembers, DecodeLog, UserCloses;
      seen' := OnEvent(View(state, underlyingOpen, seen, silenced), event).log;
      match event {
        case Bytes(stored, h, data) => OnUnderlyingBytesReceived(stored, h, data);
        case UnderlyingError => OnUnderlyingError();
      }
    }

    /** `tlsio_openssl_dowork`: pumps the underlying IO, which reports `events` for as long as it stays open, and then
        acts upon a failed handshake: the adapter closes and answers the open call. */
    method DoWork(events: seq<Event>, closes: bool)
      requires Valid()
      modifies this
      ensures Valid() && state != HandshakeFailed
      ensures old(state) == NotOpen ==>
                && state == NotOpen && log == old(log)
                && silenced == old(silenced) && underlyingOpen == old(underlyingOpen)
      ensures old(state) != NotOpen ==>
                var s := Pumped(View(old(state), old(underlyingOpen), [], old(silenced)), events);
                if s.state == HandshakeFailed then
                  && state == NotOpen && log == old(log) + s.log + [OpenComplete(Failed)] && !silenced
                  && underlyingOpen == (s.underlyingOpen && !closes)
                else
                  && state == s.state && log == old(log) + s.log && silenced == s.silenced
                  && underlyingOpen == s.underlyingOpen
      ensures old(forgotten) <= forgotten
    {
      hide Orderly, PhaseOf, Remembers, OnEvent;
      if state == NotOpen {
        return;
      }
      ghost var start := View(state, underlyingOpen, [], silenced);
      var rest := events;
      ghost var seen: seq<Entry> := [];
      while rest != [] && underlyingOpen
        invariant Valid() && log == old(log) + seen && old(forgotten) <= forgotten
        invariant Pumped(View(state, underlyingOpen, seen, silenced), rest) == Pumped(start, events)
        decreases |rest|
      {
        seen := PumpEvent(rest[0], old(log), seen);
        rest := rest[1..];
      }
      if state == HandshakeFailed {
        FailHandshake(closes);
      }
    }

    /** `tlsio_openssl_send`: `written` says that the library has taken the bytes, `sent` that the underlying IO has
        taken what came of them. */
    method SendBytes(written: bool, sent: bool) returns (ok: bool)
      requires Valid()
      ensures ok <==> state == Open && written && sent
    {
      if state != Open {
        return false;
      }
      if !ssl {
        // The source would fail here; an open adapter always has its `ssl`.
        assert false;
        return false;
      }
      ok := written && sent;
    }

    /** `tlsio_openssl_destroy`: nothing is called back, so that an unanswered open call is silenced. */
    method Destroy()
      requires Valid()
      modifies this
      ensures destroyed && !ssl && !underlyingOpen && log == old(log)
      ensures Remembers(log, forgotten, silenced) && silenced == (PhaseOf(log) == Unanswered)
      ensures forgotten == old(forgotten) + (if PhaseOf(log) == Unanswered && !old(silenced) then [|log|] else [])
    {
      hide Orderly, PhaseOf, Remembers;
      ssl, underlyingOpen, destroyed := false, false, true;
      if PhaseOf(log) == Unanswered {
        Forget();
      }
    }

    /** The end of `tlsio_openssl_dowork`, after a failed handshake. */
    method FailHandshake(closes: bool)
      requires Valid() && state == HandshakeFailed
      modifies this
      ensures Valid() && state == NotOpen && log == old(log) + [OpenComplete(Failed)]
      ensures !silenced && forgotten == old(forgotten) && underlyingOpen == (old(underlyingOpen) && !closes)
    {
      hide Orderly, PhaseOf, Remembers;
      state := Error;
      CloseIo(closes);
      Note(OpenComplete(Failed));
    }
  }

  /** What pumping depends on and changes: the state, whether the underlying IO is still open, what the user has
      seen so far, and whether its open call has been silenced. */
  datatype View = View(state: State, underlyingOpen: bool, log: seq<Entry>, silenced: bool)

  ghost function OnEvent(v: View, e: Event): View {
    match e
    case UnderlyingError =>
      if IsOpeningState(v.state) then v.(state := NotOpen, log := v.log + [OpenComplete(Failed)])
      else if v.state == Open then v.(log := v.log + [IoError])
      else v
    case Bytes(stored, h, data) =>
      if !stored then
        v.(state := Error, log := v.log + [IoError],
           silenced := v.silenced || v.state in {InHandshake, HandshakeFailed})
      else if v.state == InHandshake then v.(state := AfterHandshake(h), log := v.log + HandshakeLog(h))
      else if v.state == Open then
        if UserCloses(data) then v.(state := NotOpen, underlyingOpen := false, log := v.log + DecodeLog(data))
        else v.(log := v.log + DecodeLog(data))
      else v
  }

  ghost function Pumped(v: View, events: seq<Event>): View
    decreases |events|
  {
    if events == [] || !v.underlyingOpen then v else Pumped(OnEvent(v, events[0]), events[1..])
  }

  /** What each event does, state by state. */
  lemma EventMeans(v: View, h: Handshake, data: seq<Read>)
    ensures OnEvent(v, UnderlyingError) ==
            if v.state in {OpeningUnderlyingIo, InHandshake} then
              View(NotOpen, v.underlyingOpen, v.log + [OpenComplete(Failed)], v.silenced)
            else if v.state == Open then View(Open, v.underlyingOpen, v.log + [IoError], v.silenced)
            else v
    ensures OnEvent(v, Bytes(false, h, data)) ==
            View(Error, v.underlyingOpen, v.log + [IoError],
                 v.silenced || v.state == InHandshake || v.state == HandshakeFailed)
    ensures v.state !in {InHandshake, Open} ==> OnEvent(v, Bytes(true, h, data)) == v
    ensures v.state == InHandshake ==>
              && OnEvent(v, Bytes(true, Success, data)) == v.(state := Open, log := v.log + [OpenComplete(Ok)])
              && OnEvent(v, Bytes(true, WantsMore(true), data)) == v
              && OnEvent(v, Bytes(true, WantsMore(false), data)) == v.(state := HandshakeFailed)
              && OnEvent(v, Bytes(true, Fatal, data)) == v.(state := HandshakeFailed)
    ensures v.state == Open ==>
              OnEvent(v, Bytes(true, h, data)) ==
              if UserCloses(data) then View(NotOpen, false, v.log + DecodeLog(data), v.silenced)
              else View(Open, v.underlyingOpen, v.log + DecodeLog(data), v.silenced)
  {
    assert v.log + [] == v.log;
  }

  /** Events are reported one after the other, and none to an adapter whose underlying IO is closed. */
  lemma {:induction false} PumpedInTurn(v: View, first: seq<Event>, second: seq<Event>)
    ensures Pumped(v, first + second) == Pumped(Pumped(v, first), second)
    ensures !v.underlyingOpen ==> Pumped(v, first) == v
    ensures v.underlyingOpen && |first| == 1 ==> Pumped(v, first) == OnEvent(v, first[0])
    decreases |first|
  {
    hide OnEvent;
    if first == [] {
      assert first + second == second;
    } else if v.underlyingOpen {
      assert (first + second)[0] == first[0] && (first + second)[1..] == first[1..] + second;
      PumpedInTurn(OnEvent(v, first[0]), first[1..], second);
    }
  }

  /** A handshake may take any number of round trips. If all of them go well, the adapter is open in the end, and the
      open call answered, once. */
  lemma {:induction false} HandshakeCompletes(log: seq<Entry>, rounds: seq<Event>, data: seq<Read>)
    requires forall e <- rounds :: e.Bytes? && e.stored && e.handshake == WantsMore(true)
    ensures Pumped(View(InHandshake, true, log, false), rounds + [Bytes(true, Success, data)]) ==
            View(Open, true, log + [OpenComplete(Ok)], false)
  {
    var v, success := View(InHandshake, true, log, false), Bytes(true, Success, data);
    HandshakeGoesOn(log, rounds);
    PumpedInTurn(v, rounds, [success]);
    PumpedInTurn(v, [success], []);
    EventMeans(v, Success, data);
  }

  lemma {:induction false} HandshakeGoesOn(log: seq<Entry>, rounds: seq<Event>)
    requires forall e <- rounds :: e.Bytes? && e.stored && e.handshake == WantsMore(true)
    ensures Pumped(View(InHandshake, true, log, false), rounds) == View(InHandshake, true, log, false)
  {
    if rounds != [] {
      EventMeans(View(InHandshake, true, log, false), Success, rounds[0].data);
      HandshakeGoesOn(log, rounds[1..]);
    }
  }
}
