/** Opening a Berkeley socket connection: one bounded attempt per resolved address, first success wins. */
module SocketConnect {
  import opened Common
  import opened SocketState

  const CONNECT_TIMEOUT_PER_ADDRESS_MS := 10000
  const MIN_CONNECT_POLL_REMAINING_MS := 5
  const SOCKETIO_POLL_TIMEOUT_ERROR := 110
  const NS_PER_MS := 1_000_000
  const INVALID_SOCKET := -1
  const EINVAL := 22
  const EAFNOSUPPORT := 97
  const EINPROGRESS := 115
  /** Stands for the non-zero value that the failure macro expands to. */
  const FAILURE := 1

  datatype Family = Inet | Inet6 | OtherFamily(number: nat)

  /** One result of name resolution. `long` says that the address is at least as long as its family needs; `endpoint` is
      the address proper. */
  datatype Address = Address(present: bool, family: Family, long: bool, innerFamily: Family, endpoint: seq<byte>)

  ghost predicate WellFormed(a: Address) {
    a.present && !a.family.OtherFamily? && a.long && a.innerFamily == a.family
  }

  /** The error code of `validate_addrinfo`, zero for an address that can be tried. */
  function Validate(a: Address): (code: int)
    ensures code == 0 <==> a.present && a.family in {Inet, Inet6} && a.long && a.innerFamily == a.family
    ensures code == 97 <==> a.present && a.family !in {Inet, Inet6}
    ensures code in {0, 22, 97} && (code == 0 <==> WellFormed(a))
  {
    if !a.present then EINVAL
    else if a.family.OtherFamily? then EAFNOSUPPORT
    else if !a.long then EINVAL
    else if a.innerFamily != a.family then EINVAL
    else 0
  }

  /** What `poll` can answer; an interrupted call is the errno EINTR. */
  datatype Answer = Ready | TimedOut | Interrupted | Failed(errno: int)

  /** A call of `poll`: the clock reading its timeout was computed from, and that timeout. */
  datatype Poll = Poll(start: int, timeoutMs: int)

  /** How the wait for a connection in progress ended. */
  datatype Wait = Established | Expired | Broken(errno: int)

  // ----- what an attempt asks of the operating system -----

  datatype Request =
    | NewSocket | SelectInterface | SetNonBlocking | Connect(address: Address)
    | StartClock | ReadClock       // the first reading of the clock, and any later one
    | ReadSocketError | SocketError

  /** A request with its errno, zero for success, or a poll with its timeout and its answer. `SocketError` is not a call
      but the value that `ReadSocketError` has read. */
  datatype Event = Called(request: Request, errno: int) | Polled(timeoutMs: int, answer: Answer)

  /** What an attempt is to do. */
  datatype Target = Target(address: Address, macSelected: bool, timeoutMs: int)

  /** The attempt to connect is neither completed nor ruled out by the event. */
  ghost predicate GoesOn(e: Event) {
    match e
    case Called(Connect(_), errno) => errno == EINPROGRESS
    case Called(SocketError, _) => false
    case Called(_, errno) => errno == 0
    case Polled(_, answer) => answer in {Ready, Interrupted}
  }

  /** What is asked next if it goes on. */
  ghost predicate Follows(e: Event, next: Event, t: Target) {
    match e
    case Called(NewSocket, _) =>
      next.Called? && next.request == if t.macSelected then SelectInterface else SetNonBlocking
    case Called(SelectInterface, _) => next.Called? && next.request == SetNonBlocking
    case Called(SetNonBlocking, _) => next.Called? && next.request == Connect(t.address)
    case Called(Connect(_), _) => next.Called? && next.request == StartClock
    case Called(StartClock, _) => next.Polled? && next.timeoutMs == t.timeoutMs
    case Called(ReadClock, _) => next.Polled? && MIN_CONNECT_POLL_REMAINING_MS <= next.timeoutMs <= t.timeoutMs
    case Called(ReadSocketError, _) => next.Called? && next.request == SocketError
    case Called(SocketError, _) => false
    case Polled(_, answer) => next.Called? && next.request == if answer == Ready then ReadSocketError else ReadClock
  }

  /** The code with which the attempt ends if the event is its last. A good clock reading ends it when too little time
      is left. */
  ghost function CodeOf(e: Event): int {
    match e
    case Called(ReadClock, 0) => SOCKETIO_POLL_TIMEOUT_ERROR
    case Called(_, errno) => errno
    case Polled(_, TimedOut) => SOCKETIO_POLL_TIMEOUT_ERROR
    case Polled(_, Failed(errno)) => errno
    case Polled(_, _) => 0
  }

  /** The attempt can end with the event. */
  ghost predicate Final(e: Event) {
    match e
    case Called(Connect(_), errno) => errno != EINPROGRESS
    case Called(request, errno) => errno != 0 || request in {SocketError, ReadClock}
    case Polled(_, answer) => answer == TimedOut || (answer.Failed? && answer.errno != 0)
  }

  /** Everything before the last event goes on as it has to. */
  ghost predicate InOrder(events: seq<Event>, t: Target) {
    forall i | 0 <= i < |events| - 1 :: GoesOn(events[i]) && Follows(events[i], events[i+1], t)
  }

  /** A whole attempt, and the code it ends with. */
  ghost predicate Attempted(events: seq<Event>, t: Target, code: int) {
    && events != [] && events[0].Called? && events[0].request == NewSocket
    && InOrder(events, t) && Final(Last(events)) && code == CodeOf(Last(events))
  }

  /** How an attempt ends: with success exactly if `connect` has succeeded at once, or the socket shows no error behind
      a successful poll; otherwise with the errno of the call that failed, the error shown, or the timeout error. */
  lemma AttemptEnds(events: seq<Event>, t: Target, code: int)
    requires Attempted(events, t, code)
    ensures var last := events[|events|-1];
            && (code == 0 <==>
                  last.Called? && last.errno == 0 && (last.request.Connect? || last.request == SocketError))
            && (last.Called? && last.errno != 0 ==> code == last.errno)
            && (last.Called? && last.errno == 0 ==> last.request.Connect? || last.request in {SocketError, ReadClock})
            && (last == Called(ReadClock, 0) ==> code == 110)
            && (last.Polled? ==>
                  || (last.answer == TimedOut && code == 110)
                  || (last.answer.Failed? && code == last.answer.errno))
  {}

  /** How it gets there: by the steps in this order, each of them a success. */
  lemma AttemptSteps(events: seq<Event>, t: Target, code: int)
    requires Attempted(events, t, code)
    ensures var n, b := |events|, if t.macSelected then 2 else 1;
            && events[0].Called? && events[0].request == NewSocket
            && (n > 1 ==> events[0].errno == 0)
            && (n > 1 && t.macSelected ==> events[1].Called? && events[1].request == SelectInterface)
            && (n > b ==> events[b - 1].errno == 0 && events[b].Called? && events[b].request == SetNonBlocking)
            && (n > b + 1 ==>
                  events[b].errno == 0 && events[b + 1].Called? && events[b + 1].request == Connect(t.address))
            && (n > b + 2 ==>
                  events[b + 1].errno == 115 && events[b + 2].Called? && events[b + 2].request == StartClock)
            && (n > b + 3 ==>
                  events[b + 2].errno == 0 && events[b + 3].Polled? && events[b + 3].timeoutMs == t.timeoutMs)
  {
    FirstSteps(events, t, code);
  }

  lemma FirstSteps(events: seq<Event>, t: Target, code: int)
    requires Attempted(events, t, code)
    ensures |events| > 1 ==> GoesOn(events[0]) && Follows(events[0], events[1], t)
    ensures |events| > 2 ==> GoesOn(events[1]) && Follows(events[1], events[2], t)
    ensures |events| > 3 ==> GoesOn(events[2]) && Follows(events[2], events[3], t)
    ensures |events| > 4 ==> GoesOn(events[3]) && Follows(events[3], events[4], t)
    ensures |events| > 5 ==> GoesOn(events[4]) && Follows(events[4], events[5], t)
  {
    hide GoesOn, Follows;
  }

  /** And by waiting: an interrupted poll is made again, after a reading of the clock, for at least 5 ms and at most the
      whole allowance; a successful one is followed by reading the error of the socket. */
  lemma AttemptWaits(events: seq<Event>, t: Target, code: int, i: nat)
    requires Attempted(events, t, code) && i + 1 < |events|
    ensures var e, next := events[i], events[i + 1];
            && (e.Polled? ==>
                  || (e.answer == Interrupted && next.Called? && next.request == ReadClock)
                  || (e.answer == Ready && next.Called? && next.request == ReadSocketError))
            && (e.Called? && e.request == ReadClock ==>
                  e.errno == 0 && next.Polled? && 5 <= next.timeoutMs <= t.timeoutMs)
            && (e.Called? && e.request == ReadSocketError ==>
                  e.errno == 0 && next.Called? && next.request == SocketError)
            && !(e.Called? && e.request == SocketError)
  {}

  lemma FirstEvent(e: Event, t: Target)
    ensures InOrder([e], t)
  {}

  lemma OneMoreEvent(events: seq<Event>, e: Event, t: Target)
    requires events != [] && InOrder(events, t)
    requires GoesOn(Last(events)) && Follows(Last(events), e, t)
    ensures InOrder(events + [e], t) && Last(events + [e]) == e
  {
    hide GoesOn, Follows;
  }

  lemma PollAfterClock(events: seq<Event>, timeoutMs: int, answer: Answer, t: Target)
    requires events != [] && InOrder(events, t)
    requires || (Last(events) == Called(StartClock, 0) && timeoutMs == t.timeoutMs)
             || (Last(events) == Called(ReadClock, 0) && MIN_CONNECT_POLL_REMAINING_MS <= timeoutMs <= t.timeoutMs)
    ensures var e := Polled(timeoutMs, answer);
            InOrder(events + [e], t) && Last(events + [e]) == e
  {
    OneMoreEvent(events, Polled(timeoutMs, answer), t);
  }

  lemma ClockAfterPoll(events: seq<Event>, errno: int, t: Target)
    requires events != [] && InOrder(events, t) && Last(events).Polled? && Last(events).answer == Interrupted
    ensures var e := Called(ReadClock, errno);
            InOrder(events + [e], t) && Last(events + [e]) == e
  {
    OneMoreEvent(events, Called(ReadClock, errno), t);
  }

  /** What is asked next does not depend on the answer to it. */
  lemma FollowsAnyhow(e: Event, request: Request, errno: int, t: Target)
    requires Follows(e, Called(request, 0), t)
    ensures Follows(e, Called(request, errno), t)
  {}

  lemma InOrderJoined(events: seq<Event>, more: seq<Event>, t: Target)
    requires InOrder(events, t) && InOrder(more, t) && events != [] && more != []
    requires GoesOn(Last(events)) && Follows(Last(events), more[0], t)
    ensures InOrder(events + more, t) && Last(events + more) == Last(more)
  {
    hide GoesOn, Follows;
  }

  function Last(events: seq<Event>): Event
    requires events != []
  {
    events[|events|-1]
  }

  /** The wait can end with the event, and has then come to `outcome`. */
  ghost predicate Ends(e: Event, outcome: Wait) {
    match outcome
    case Established => e.Polled? && e.answer == Ready
    case Expired => (e.Polled? && e.answer == TimedOut) || e == Called(ReadClock, 0)
    case Broken(errno) =>
      || (e.Polled? && e.answer == Failed(errno))
      || (e.Called? && e.request in {StartClock, ReadClock} && e.errno == errno != 0)
  }

  lemma {:induction false} FreshDescriptor(inUse: set<int>)
    ensures exists fd: int :: fd >= 0 && fd !in inUse
  {
    var bound := Above(inUse);
    assert bound !in inUse;
  }

  lemma {:induction false} Above(inUse: set<int>) returns (bound: int)
    ensures bound >= 0 && forall fd <- inUse :: fd < bound
  {
    if exists fd :: fd in inUse {
      var fd :| fd in inUse;
      bound := Above(inUse - {fd});
      assert forall x <- inUse :: x == fd || x in inUse - {fd};
      if bound <= fd { bound := fd + 1; }
    } else {
      bound := 0;
    }
  }

  /** The operating system: a clock that strictly advances from reading to reading, the open descriptors, and what it
      has been asked and has answered. What a system call answers is its own choice; zero stands for success, anything
      else is an errno. */
  class Host {
    var now: int
    var openSockets: set<int>
    ghost var journal: seq<Event>

    constructor ()
      ensures openSockets == {} && journal == []
    {
      now, openSockets, journal := *, {}, [];
    }

    method SystemCall(ghost request: Request) returns (errno: int)
      modifies `journal
      ensures errno >= 0 && journal == old(journal) + [Called(request, errno)]
    {
      errno :| errno >= 0;
      journal := journal + [Called(request, errno)];
    }

    method ReadClock(ghost request: Request) returns (errno: int)
      modifies `now, `journal
      ensures errno >= 0 && now > old(now) && journal == old(journal) + [Called(request, errno)]
    {
      var step: int :| step > 0;
      errno :| errno >= 0;
      now := now + step;
      journal := journal + [Called(request, errno)];
    }

    method PollWritable(timeoutMs: int) returns (answer: Answer)
      modifies `now, `journal
      ensures now >= old(now) && journal == old(journal) + [Polled(timeoutMs, answer)]
      ensures answer == TimedOut ==> now >= old(now) + timeoutMs * NS_PER_MS
      ensures answer.Failed? ==> answer.errno > 0
    {
      var step: int :| step >= 0 && step >= timeoutMs * NS_PER_MS;
      var early: int :| early >= 0;
      var errno: int :| errno > 0;
      answer := *;
      if answer.Failed? { answer := Failed(errno); }
      now := now + if answer == TimedOut then step else early;
      journal := journal + [Polled(timeoutMs, answer)];
    }

    method NewSocket() returns (fd: int, errno: int)
      modifies `openSockets, `journal
      ensures fd >= 0 ==> fd !in old(openSockets) && openSockets == old(openSockets) + {fd} && errno == 0
      ensures fd < 0 ==> errno > 0 && openSockets == old(openSockets)
      ensures journal == old(journal) + [Called(Request.NewSocket, errno)]
    {
      FreshDescriptor(openSockets);
      fd :| fd >= 0 && fd !in openSockets;
      errno := 0;
      var works: bool := *;
      if works {
        openSockets := openSockets + {fd};
      } else {
        fd := -1;
        errno :| errno > 0;
      }
      journal := journal + [Called(Request.NewSocket, errno)];
    }

    method CloseSocket(fd: int)
      modifies `openSockets
      ensures openSockets == old(openSockets) - {fd}
    {
      openSockets := openSockets - {fd};
    }
  }

  /** The polls made for one deadline: the first gets the whole allowance, and each later one, computed from a
      later clock reading, waits at least 5 ms and ends at the deadline rounded up to
      a millisecond. */
  ghost predicate OnSchedule(polls: seq<Poll>, timeoutMs: int) {
    && polls != []
    && polls[0].timeoutMs == timeoutMs
    && (forall i | 1 <= i < |polls| ::
          && polls[i-1].start < polls[i].start
          && 5 <= polls[i].timeoutMs <= timeoutMs
          && (var expiry := polls[i].start + polls[i].timeoutMs * 1_000_000;
              var deadline := polls[0].start + timeoutMs * 1_000_000;
              deadline <= expiry < deadline + 1_000_000))
  }

  lemma FirstPoll(start: int, timeoutMs: int)
    ensures OnSchedule([] + [Poll(start, timeoutMs)], timeoutMs)
  {}

  lemma OneMorePoll(polls: seq<Poll>, timeoutMs: int, now: int, remainingMs: int)
    requires OnSchedule(polls, timeoutMs)
    requires polls[|polls|-1].start < now && MIN_CONNECT_POLL_REMAINING_MS <= remainingMs <= timeoutMs
    requires var expiry, deadline := now + remainingMs * NS_PER_MS, polls[0].start + timeoutMs * NS_PER_MS;
             deadline <= expiry < deadline + NS_PER_MS
    ensures OnSchedule(polls + [Poll(now, remainingMs)], timeoutMs)
  {}

  /** However it is interrupted, the loop makes fewer polls than there are nanoseconds in the allowance. */
  lemma {:induction false} PollsAreBounded(polls: seq<Poll>, timeoutMs: int)
    requires OnSchedule(polls, timeoutMs)
    ensures polls[|polls|-1].start >= polls[0].start + |polls| - 1
    ensures |polls| > 1 ==> |polls| <= (timeoutMs - 4) * 1_000_000
  {
    if |polls| > 1 {
      var shorter := polls[..|polls|-1];
      assert forall i | 0 <= i < |shorter| :: shorter[i] == polls[i];
      PollsAreBounded(shorter, timeoutMs);
    }
  }

  /** The poll loop of `connect_to_addrinfo`: it terminates however often it is interrupted, never polls past
      the deadline by a millisecond or more, and never gives up with 5 ms or more to go. The last thing that the
      operating system has answered, to `poll` or to a reading of the clock, decides how it ends. */
  method AwaitConnection(host: Host, timeoutMs: int, ghost t: Target)
    returns (outcome: Wait, ghost polls: seq<Poll>, ghost answers: seq<Answer>, ghost events: seq<Event>)
    requires timeoutMs > 0 && t.timeoutMs == timeoutMs
    modifies host`now, host`journal
    ensures polls == [] ==> outcome.Broken? && answers == []
    ensures polls != [] ==> OnSchedule(polls, timeoutMs) && |answers| == |polls|
    ensures forall i | 0 <= i < |answers| - 1 :: answers[i] == Interrupted
    ensures outcome == Established <==> answers != [] && answers[|answers|-1] == Ready
    ensures outcome == Expired ==> polls != [] && answers[|answers|-1] in {TimedOut, Interrupted}
    ensures outcome == Expired ==>
              host.now > polls[0].start + (timeoutMs - 5) * 1_000_000
    ensures outcome.Broken? ==> outcome.errno > 0
    ensures host.journal == old(host.journal) + events && events != [] && InOrder(events, t)
    ensures events[0].Called? && events[0].request == StartClock
    ensures Ends(Last(events), outcome)
    ensures outcome == Established ==> Last(events).Polled? && Last(events).answer == Ready
  {
    hide InOrder, GoesOn, Follows, CodeOf, OnSchedule;
    polls, answers := [], [];
    var errno := host.ReadClock(StartClock);
    events := [Called(StartClock, errno)];
    FirstEvent(events[0], t);
    if errno != 0 {
      outcome := Broken(errno);
      return;
    }
    var deadline := host.now + timeoutMs * NS_PER_MS;
    var remainingMs := timeoutMs;
    var again := true;
    outcome := Expired;
    ghost var start := host.now;
    FirstPoll(start, timeoutMs);
    while again
      invariant |polls| == |answers|
      invariant forall i | 0 <= i < |answers| :: again || i < |answers| - 1 ==> answers[i] == Interrupted
      invariant polls != [] ==> OnSchedule(polls, timeoutMs) && polls[0].start == start
      invariant again ==> host.now < deadline && OnSchedule(polls + [Poll(host.now, remainingMs)], timeoutMs)
      invariant again ==> (polls + [Poll(host.now, remainingMs)])[0].start == start
      invariant again ==> deadline <= host.now + remainingMs * NS_PER_MS
      invariant !again ==> polls != []
      invariant !again ==> (outcome == Established <==> answers[|answers|-1] == Ready)
      invariant !again && outcome == Expired ==> answers[|answers|-1] in {TimedOut, Interrupted}
      invariant !again && outcome == Expired ==> host.now > deadline - MIN_CONNECT_POLL_REMAINING_MS * NS_PER_MS
      invariant !again && outcome.Broken? ==> outcome.errno > 0
      invariant host.journal == old(host.journal) + events && events != [] && InOrder(events, t)
      invariant events[0].Called? && events[0].request == StartClock
      invariant again ==>
                  || (Last(events) == Called(StartClock, 0) && remainingMs == timeoutMs)
                  || (Last(events) == Called(ReadClock, 0) && MIN_CONNECT_POLL_REMAINING_MS <= remainingMs <= timeoutMs)
      invariant !again ==> Ends(Last(events), outcome)
      decreases again, deadline - host.now
    {
      polls := polls + [Poll(host.now, remainingMs)];
      var answer := host.PollWritable(remainingMs);
      answers := answers + [answer];
      PollAfterClock(events, remainingMs, answer, t);
      events := events + [Polled(remainingMs, answer)];
      again := false;
      match answer
      case Ready => outcome := Established;
      case TimedOut => outcome := Expired;
      case Failed(e) => outcome := Broken(e);
      case Interrupted =>
        errno := host.ReadClock(ReadClock);
        ClockAfterPoll(events, errno, t);
        events := events + [Called(ReadClock, errno)];
        if errno != 0 {
          outcome := Broken(errno);
        } else {
          var remainingNs := deadline - host.now;
          remainingMs := if remainingNs > 0 then (remainingNs + 999_999) / NS_PER_MS else 0;
          if remainingMs < MIN_CONNECT_POLL_REMAINING_MS {
            outcome := Expired;
          } else {
            again := true;
            OneMorePoll(polls, timeoutMs, host.now, remainingMs);
          }
        }
    }
  }

  /** How one candidate address fared: it was skipped with an error, or tried, in some steps, with a code. */
  datatype Attempt = Skipped(code: int) | Tried(events: seq<Event>, code: int)

  /** The open-complete callback's argument. */
  datatype OpenResult = OpenResult(ok: bool, code: int)

  /** What the operating system was asked in some attempts. */
  ghost function EventsOf(attempts: seq<Attempt>): seq<Event> {
    if attempts == [] then [] else
      var before, last := EventsOf(attempts[..|attempts|-1]), attempts[|attempts|-1];
      if last.Tried? then before + last.events else before
  }

  lemma NoEvents()
    ensures EventsOf([]) == []
  {}

  lemma EventsOfMore(attempts: seq<Attempt>, a: Attempt)
    ensures EventsOf(attempts + [a]) == if a.Tried? then EventsOf(attempts) + a.events else EventsOf(attempts)
  {
    assert (attempts + [a])[..|attempts|] == attempts;
  }

  /** How an address fared, for the caller: skipped exactly if it is not valid, or tried with the full allowance. */
  ghost predicate Fared(address: Address, macSelected: bool, a: Attempt) {
    match a
    case Skipped(code) => code == Validate(address) != 0
    case Tried(events, code) =>
      Validate(address) == 0 && Attempted(events, Target(address, macSelected, CONNECT_TIMEOUT_PER_ADDRESS_MS), code)
  }

  /** The record of trying `addresses` in order: malformed ones are skipped, the first success ends it, and the
      code is that of the last address looked at. */
  ghost predicate FirstSuccess(addresses: seq<Address>, macSelected: bool, attempts: seq<Attempt>, code: int) {
    && |attempts| <= |addresses|
    && (forall i | 0 <= i < |attempts| :: Fared(addresses[i], macSelected, attempts[i]))
    && (forall i | 0 <= i < |attempts| - 1 :: attempts[i].code != 0)
    && (code != 0 ==> |attempts| == |addresses|)
    && code == if attempts == [] then FAILURE else attempts[|attempts|-1].code
  }

  /** What the record says: every address before the one that connects has been skipped or tried, in this order, each
      with ten seconds; without a success all have been, and the code is that of the last. */
  lemma FirstSuccessMeans(addresses: seq<Address>, macSelected: bool, attempts: seq<Attempt>, code: int)
    requires FirstSuccess(addresses, macSelected, attempts, code)
    ensures |attempts| <= |addresses|
    ensures code == 0 <==> attempts != [] && attempts[|attempts|-1].Tried? && attempts[|attempts|-1].code == 0
    ensures code != 0 ==> |attempts| == |addresses|
    ensures code != 0 && addresses != [] ==> code == attempts[|attempts|-1].code
    ensures forall i | 0 <= i < |attempts| - 1 :: attempts[i].code != 0
    ensures forall i | 0 <= i < |attempts| && attempts[i].Skipped? ::
              attempts[i].code == Validate(addresses[i]) && attempts[i].code in {22, 97}
    ensures forall i | 0 <= i < |attempts| && attempts[i].Tried? ::
              && Validate(addresses[i]) == 0
              && Attempted(attempts[i].events, Target(addresses[i], macSelected, 10000), attempts[i].code)
  {
    hide Attempted, Validate;
  }

  class Connector {
    var ioState: IoState
    var socket: int
    var macSelected: bool
    ghost var callbacks: seq<OpenResult>

    constructor (macSelected: bool)
      ensures ioState == Closed && socket == INVALID_SOCKET && callbacks == []
    {
      ioState, socket, callbacks := Closed, INVALID_SOCKET, [];
      this.macSelected := macSelected;
    }

    /** One attempt. Whatever goes wrong, no descriptor stays open, and the caller gets the error code of the step that
        went wrong, which is the last one made. `waited` is how the wait for the connection ended, if there was one, and
        `events` are the steps. */
    method ConnectTo(host: Host, ghost address: Address, timeoutMs: int)
      returns (code: int, ghost waited: Option<Wait>, ghost events: seq<Event>)
      requires timeoutMs > 0
      modifies `socket, host
      ensures code >= 0
      ensures code == 0 ==>
                socket >= 0 && socket !in old(host.openSockets) && host.openSockets == old(host.openSockets) + {socket}
      ensures code != 0 ==> socket == INVALID_SOCKET && host.openSockets == old(host.openSockets)
      ensures waited == Some(Expired) ==> code == 110
      ensures waited.Some? && waited.value.Broken? ==> code == waited.value.errno
      ensures host.journal == old(host.journal) + events
      ensures Attempted(events, Target(address, macSelected, timeoutMs), code)
      ensures events != [] &&
              var last := events[|events|-1];
              && (code == 0 <==>
                    last.Called? && last.errno == 0 && (last.request.Connect? || last.request == SocketError))
              && (last.Called? && last.errno != 0 ==> code == last.errno)
              && (last.Polled? && last.answer.Failed? ==> code == last.answer.errno)
              && (last.Polled? && last.answer == TimedOut ==> code == 110)
              && (last == Called(ReadClock, 0) ==> code == 110)
    {
      ghost var t := Target(address, macSelected, timeoutMs);
      hide InOrder, GoesOn, Follows;
      ghost var start := host.journal;
      var fd, errno := host.NewSocket();
      events := [Called(NewSocket, errno)];
      FirstEvent(events[0], t);
      socket := fd;
      if fd < 0 {
        socket, code, waited := INVALID_SOCKET, errno, None;
        return;
      }
      code, waited, events := Prepare(host, timeoutMs, t, start, events);
      AttemptEnds(events, t, code);
      if code != 0 {
        host.CloseSocket(socket);
        socket := INVALID_SOCKET;
      }
    }

    /** One system call of an attempt. */
    method Step(host: Host, ghost request: Request, ghost t: Target, ghost start: seq<Event>, ghost before: seq<Event>)
      returns (errno: int, ghost events: seq<Event>)
      requires host.journal == start + before
      requires before != [] && InOrder(before, t) && GoesOn(Last(before))
      requires Follows(Last(before), Called(request, 0), t)
      modifies host`journal
      ensures errno >= 0 && host.journal == start + events
      ensures events != [] && events[0] == before[0] && InOrder(events, t)
      ensures Last(events) == Called(request, errno)
    {
      errno := host.SystemCall(request);
      FollowsAnyhow(Last(before), request, errno, t);
      hide InOrder, GoesOn, Follows;
      events := before + [Called(request, errno)];
      OneMoreEvent(before, Called(request, errno), t);
    }

    /** The new descriptor is prepared and connected. */
    method Prepare(host: Host, timeoutMs: int, ghost t: Target, ghost start: seq<Event>, ghost before: seq<Event>)
      returns (code: int, ghost waited: Option<Wait>, ghost events: seq<Event>)
      requires timeoutMs > 0 && t.timeoutMs == timeoutMs && t.macSelected == macSelected
      requires host.journal == start + before && before == [Called(NewSocket, 0)]
      modifies host`now, host`journal
      ensures code >= 0
      ensures waited == Some(Expired) ==> code == 110
      ensures waited.Some? && waited.value.Broken? ==> code == waited.value.errno
      ensures host.journal == start + events && Attempted(events, t, code)
    {
      hide InOrder;
      FirstEvent(before[0], t);
      waited, events := None, before;
      if macSelected {
        code, events := Step(host, SelectInterface, t, start, events);
        if code != 0 { return; }
      }
      code, events := Step(host, SetNonBlocking, t, start, events);
      if code != 0 { return; }
      code, events := Step(host, Connect(t.address), t, start, events);
      if code == EINPROGRESS {
        code, waited, events := Await(host, timeoutMs, t, start, events);
      }
    }

    /** The connection in progress is waited for, and its outcome read. */
    method Await(host: Host, timeoutMs: int, ghost t: Target, ghost start: seq<Event>, ghost before: seq<Event>)
      returns (code: int, ghost waited: Option<Wait>, ghost events: seq<Event>)
      requires timeoutMs > 0 && t.timeoutMs == timeoutMs && host.journal == start + before
      requires before != [] && before[0] == Called(NewSocket, 0) && InOrder(before, t)
      requires Last(before) == Called(Connect(t.address), EINPROGRESS)
      modifies host`now, host`journal
      ensures code >= 0
      ensures waited == Some(Expired) ==> code == 110
      ensures waited.Some? && waited.value.Broken? ==> code == waited.value.errno
      ensures host.journal == start + events && Attempted(events, t, code)
    {
      hide InOrder, OnSchedule;
      var outcome, polls, answers, more := AwaitConnection(host, timeoutMs, t);
      InOrderJoined(before, more, t);
      waited, events := Some(outcome), before + more;
      Associative(start, before, more);
      match outcome {
        case Expired => code := SOCKETIO_POLL_TIMEOUT_ERROR;
        case Broken(e) => code := e;
        case Established =>
          code, events := Step(host, ReadSocketError, t, start, events);
          if code == 0 {
            code, events := Step(host, SocketError, t, start, events);
          }
      }
    }

    /** Tries the addresses in order, skipping those that fail validation, until one connects. */
    method ConnectToFirst(host: Host, addresses: seq<Address>) returns (code: int, ghost attempts: seq<Attempt>)
      modifies `socket, host
      requires socket == INVALID_SOCKET
      ensures FirstSuccess(addresses, macSelected, attempts, code)
      ensures host.journal == old(host.journal) + EventsOf(attempts)
      ensures code == 0 ==>
                socket >= 0 && socket !in old(host.openSockets) && host.openSockets == old(host.openSockets) + {socket}
      ensures code != 0 ==> socket == INVALID_SOCKET && host.openSockets == old(host.openSockets)
    {
      hide Attempted, Validate, EventsOf;
      code, attempts := FAILURE, [];
      assert EventsOf([]) == [] by { NoEvents(); }
      for i := 0 to |addresses|
        invariant |attempts| == i && code > 0
        invariant socket == INVALID_SOCKET && host.openSockets == old(host.openSockets)
        invariant forall j | 0 <= j < i :: Fared(addresses[j], macSelected, attempts[j]) && attempts[j].code != 0
        invariant code == if i == 0 then FAILURE else attempts[i-1].code
        invariant host.journal == old(host.journal) + EventsOf(attempts)
      {
        code := Validate(addresses[i]);
        if code != 0 {
          EventsOfMore(attempts, Skipped(code));
          attempts := attempts + [Skipped(code)];
        } else {
          ghost var waited, events;
          code, waited, events := ConnectTo(host, addresses[i], CONNECT_TIMEOUT_PER_ADDRESS_MS);
          EventsOfMore(attempts, Tried(events, code));
          Associative(old(host.journal), EventsOf(attempts), events);
          attempts := attempts + [Tried(events, code)];
          if code == 0 {
            return;
          }
        }
      }
    }

    /** `socketio_open` with a callback: exactly one call back, whose verdict is the adapter's new state, and a
        descriptor is left open exactly if the open succeeded. `lookup` is the resolver's error, zero if it found
        `addresses`. */
    method OpenIo(host: Host, hostName: string, lookup: int, addresses: seq<Address>)
      returns (ghost attempts: seq<Attempt>)
      modifies this, host
      requires ioState == Closed && socket != INVALID_SOCKET ==> socket in host.openSockets
      ensures |callbacks| == |old(callbacks)| + 1 && old(callbacks) <= callbacks
      ensures var verdict := callbacks[|callbacks|-1];
              && (old(ioState) != Closed ==> !verdict.ok)
              && ioState == (if verdict.ok then Open else old(ioState))
              && (verdict.ok <==> verdict.code == 0)
              && (old(ioState) == Closed ==> (verdict.ok <==> socket != INVALID_SOCKET))
              && (verdict.ok ==> socket in host.openSockets && host.openSockets == old(host.openSockets) + {socket})
              && (!verdict.ok ==> socket == old(socket) && host.openSockets == old(host.openSockets))
      ensures old(ioState) == Closed && old(socket) != INVALID_SOCKET ==> ioState == Open && socket == old(socket)
      ensures old(ioState) == Closed && old(socket) == INVALID_SOCKET ==>
                var code := callbacks[|callbacks|-1].code;
                if hostName == "" then code == FAILURE
                else if lookup != 0 then code == lookup
                else FirstSuccess(addresses, macSelected, attempts, code)
      ensures host.journal == old(host.journal) + EventsOf(attempts)
    {
      attempts := [];
      NoEvents();
      assert host.journal + [] == host.journal;
      var code := FAILURE;
      if ioState == Closed {
        if socket != INVALID_SOCKET {
          code := 0;
        } else if hostName != "" {
          if lookup != 0 {
            code := lookup;
          } else {
            code, attempts := ConnectToFirst(host, addresses);
          }
        }
        if code == 0 {
          ioState := Open;
        }
      }
      callbacks := callbacks + [OpenResult(code == 0, code)];
    }
  }
}
