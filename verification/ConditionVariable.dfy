/** The Windows condition variable: a counter of waiting threads, an auto-reset event, and the caller's lock, which is a
    binary semaphore. Every shared access is one step, and any thread may take the next one. */
module ConditionVariable {
  import opened Common

  /** How WaitForSingleObject on the event returned. */
  datatype Outcome = Signalled | TimedOut | WaitFailed

  /** Where a thread is. A post carries its number, counting from one; a wait carries the number of posts made before it
      began. */
  datatype Pc =
    | Idle                            // outside, without the lock
    | Locked                          // outside, with the lock
    | Posting(number: nat)            // in Condition_Post with the lock, having read a non-zero counter
    | PostingLoosely(number: nat)     // the same, but called without the lock
    | Incrementing(since: nat)        // in Condition_Wait, having released the lock
    | Waiting(since: nat)             // counted, in WaitForSingleObject
    | Relocking(outcome: Outcome)     // woken, taking the lock again
    | Decrementing(outcome: Outcome)  // woken, with the lock
    | Resetting(outcome: Outcome)     // with the lock, having brought the counter to zero

  /** The shared objects and every thread's position. The rest counts what has happened to posts, signals and waits. */
  datatype State = State(
    threads: seq<Pc>,
    holder: Option<nat>,
    waiting: int,        // waiting_thread_count
    event: bool,         // the event is signalled
    failures: nat,       // waits that returned COND_ERROR, which leave the counter as it is
    posts: nat,          // calls of Condition_Post
    skipped: nat,        // of these, those that found the counter at zero
    notSet: nat,         // of these, those whose SetEvent failed
    sets: nat,           // successful SetEvent calls
    merged: nat,         // of these, those that found the event already signalled
    erased: nat,         // signals removed by ResetEvent
    oks: nat,            // waits that returned COND_OK
    latest: nat,         // the latest of the posts that the pending signal stands for
    served: nat,         // signals that woke a wait that had begun before that post was made
    stolen: nat)         // signals that woke a wait that began after it

  datatype Action =
    | Acquire | Release
    | CheckForPost | CheckForPostLoosely | SetEvent | FailToSetEvent
    | UnlockToWait | Increment | Wake | TimeOut | FailToWait | Relock | Decrement | Reset

  function Init(n: nat): State {
    State(seq(n, _ => Idle), None, 0, false, 0, 0, 0, 0, 0, 0, 0, 0, 0, 0, 0)
  }

  predicate Enabled(s: State, t: nat, a: Action) {
    t < |s.threads| &&
    var pc := s.threads[t];
    match a
    case Acquire => pc == Idle && s.holder == None
    case Release => pc == Locked
    case CheckForPost => pc == Locked
    case CheckForPostLoosely => pc == Idle
    case SetEvent => InPost(pc)
    case FailToSetEvent => InPost(pc)
    case UnlockToWait => pc == Locked
    case Increment => pc.Incrementing?
    case Wake => pc.Waiting? && s.event
    case TimeOut => pc.Waiting?
    case FailToWait => pc.Waiting?
    case Relock => pc.Relocking? && s.holder == None
    case Decrement => pc.Decrementing?
    case Reset => pc.Resetting?
  }

  function AfterPost(pc: Pc): Pc {
    if pc.Posting? then Locked else Idle
  }

  function Next(s: State, t: nat, a: Action): State
    requires Enabled(s, t, a)
  {
    var pc := s.threads[t];
    match a
    case Acquire => s.(threads := s.threads[t := Locked], holder := Some(t))
    case Release => s.(threads := s.threads[t := Idle], holder := None)
    case CheckForPost =>
      if s.waiting == 0 then s.(posts := s.posts + 1, skipped := s.skipped + 1)
      else s.(threads := s.threads[t := Posting(s.posts + 1)], posts := s.posts + 1)
    case CheckForPostLoosely =>
      if s.waiting == 0 then s.(posts := s.posts + 1, skipped := s.skipped + 1)
      else s.(threads := s.threads[t := PostingLoosely(s.posts + 1)], posts := s.posts + 1)
    case SetEvent =>
      s.(threads := s.threads[t := AfterPost(pc)], event := true, sets := s.sets + 1,
         merged := if s.event then s.merged + 1 else s.merged,
         latest := if s.event && s.latest > pc.number then s.latest else pc.number)
    case FailToSetEvent => s.(threads := s.threads[t := AfterPost(pc)], notSet := s.notSet + 1)
    case UnlockToWait => s.(threads := s.threads[t := Incrementing(s.posts)], holder := None)
    case Increment => s.(threads := s.threads[t := Waiting(pc.since)], waiting := s.waiting + 1)
    case Wake =>
      var woken := s.(threads := s.threads[t := Relocking(Signalled)], event := false);
      if pc.since < s.latest then woken.(served := s.served + 1) else woken.(stolen := s.stolen + 1)
    case TimeOut => s.(threads := s.threads[t := Relocking(TimedOut)])
    case FailToWait => s.(threads := s.threads[t := Relocking(WaitFailed)])
    case Relock =>
      if pc.outcome == WaitFailed then
        s.(threads := s.threads[t := Locked], holder := Some(t), failures := s.failures + 1)
      else s.(threads := s.threads[t := Decrementing(pc.outcome)], holder := Some(t))
    case Decrement =>
      if s.waiting - 1 == 0 then s.(threads := s.threads[t := Resetting(pc.outcome)], waiting := 0)
      else Return(s.(waiting := s.waiting - 1), t, pc.outcome)
    case Reset =>
      Return(s.(event := false, erased := if s.event then s.erased + 1 else s.erased), t, pc.outcome)
  }

  /** Condition_Wait returns, with the lock. */
  function Return(s: State, t: nat, outcome: Outcome): State
    requires t < |s.threads|
  {
    s.(threads := s.threads[t := Locked], oks := if outcome == Signalled then s.oks + 1 else s.oks)
  }

  // ----- runs -----

  datatype Move = Move(thread: nat, action: Action)

  predicate Possible(s: State, run: seq<Move>)
    decreases |run|
  {
    run == [] || (Enabled(s, run[0].thread, run[0].action) && Possible(Next(s, run[0].thread, run[0].action), run[1..]))
  }

  function After(s: State, run: seq<Move>): State
    requires Possible(s, run)
    decreases |run|
  {
    if run == [] then s else After(Next(s, run[0].thread, run[0].action), run[1..])
  }

  /** Every Condition_Post is made holding the lock. */
  predicate Disciplined(run: seq<Move>) {
    forall m <- run :: m.action != CheckForPostLoosely
  }

  // ----- counting threads -----

  function Number(threads: seq<Pc>, f: Pc -> bool): nat {
    if threads == [] then 0 else
      Number(threads[..|threads|-1], f) + (if f(threads[|threads|-1]) then 1 else 0)
  }

  lemma {:induction false} NumberAfterMove(threads: seq<Pc>, t: nat, pc: Pc, f: Pc -> bool)
    requires t < |threads|
    ensures Number(threads[t := pc], f) ==
            Number(threads, f) - (if f(threads[t]) then 1 else 0) + (if f(pc) then 1 else 0)
    ensures f(threads[t]) ==> Number(threads, f) > 0
  {
    var last := |threads| - 1;
    if t < last {
      NumberAfterMove(threads[..last], t, pc, f);
      assert threads[t := pc][..last] == threads[..last][t := pc];
    } else {
      assert threads[t := pc][..last] == threads[..last];
    }
  }

  lemma {:induction false} NumberZero(threads: seq<Pc>, f: Pc -> bool)
    ensures Number(threads, f) == 0 <==> forall t | 0 <= t < |threads| :: !f(threads[t])
  {
    if threads != [] {
      NumberZero(threads[..|threads|-1], f);
      assert forall t | 0 <= t < |threads| - 1 :: threads[..|threads|-1][t] == threads[t];
    }
  }

  /** Between the increment and the decrement. */
  predicate Counted(pc: Pc) {
    pc.Waiting? || pc.Relocking? || pc.Decrementing?
  }

  /** Woken by a signal, on the way to returning COND_OK. */
  predicate Succeeding(pc: Pc) {
    (pc.Relocking? || pc.Decrementing? || pc.Resetting?) && pc.outcome == Signalled
  }

  /** In a post that has found the counter above zero. */
  predicate InPost(pc: Pc) {
    pc.Posting? || pc.PostingLoosely?
  }

  predicate HoldsLock(pc: Pc) {
    pc == Locked || pc.Posting? || pc.Decrementing? || pc.Resetting?
  }

  // ----- invariants -----

  /** Exactly the thread in `holder` is in a part of the code that owns the lock. */
  ghost predicate MutualExclusion(s: State) {
    forall t | 0 <= t < |s.threads| :: HoldsLock(s.threads[t]) <==> s.holder == Some(t)
  }

  /** The counter counts the threads between its increment and its decrement, and the failed waits. */
  ghost predicate CounterExact(s: State) {
    s.waiting == Number(s.threads, Counted) + s.failures
  }

  /** Every signal ever set was merged into an earlier one, erased, is pending, or has woken one wait. */
  ghost predicate SignalsConserved(s: State) {
    s.sets == s.merged + s.erased + (if s.event then 1 else 0) + Number(s.threads, Succeeding) + s.oks
  }

  /** Every post has been skipped, has failed, is under way, or has set a signal. */
  ghost predicate PostsConserved(s: State) {
    s.posts == s.skipped + s.notSet + Number(s.threads, InPost) + s.sets
  }

  /** Every wait that a signal has ended is served or stolen. */
  ghost predicate WakesConserved(s: State) {
    s.served + s.stolen == s.oks + Number(s.threads, Succeeding)
  }

  /** A signal is pending only while there are counted threads, or the last of them is about to erase it. */
  ghost predicate NoStaleSignal(s: State) {
    && (forall t | 0 <= t < |s.threads| :: !s.threads[t].PostingLoosely?)
    && (forall t | 0 <= t < |s.threads| && s.threads[t].Posting? :: s.waiting > 0)
    && (s.event ==>
          || s.waiting > 0
          || (s.holder.Some? && s.holder.value < |s.threads| && s.threads[s.holder.value].Resetting?))
  }

  lemma OneThreadMoves(s: State, t: nat, a: Action)
    requires Enabled(s, t, a)
    ensures |Next(s, t, a).threads| == |s.threads|
    ensures Next(s, t, a).threads == s.threads[t := Next(s, t, a).threads[t]]
  {}

  lemma MutualExclusionKept(s: State, t: nat, a: Action)
    requires MutualExclusion(s) && Enabled(s, t, a)
    ensures MutualExclusion(Next(s, t, a))
  {}

  lemma CounterExactKept(s: State, t: nat, a: Action)
    requires CounterExact(s) && Enabled(s, t, a)
    ensures CounterExact(Next(s, t, a))
  {
    hide Number;
    OneThreadMoves(s, t, a);
    NumberAfterMove(s.threads, t, Next(s, t, a).threads[t], Counted);
  }

  lemma SignalsConservedKept(s: State, t: nat, a: Action)
    requires SignalsConserved(s) && Enabled(s, t, a)
    ensures SignalsConserved(Next(s, t, a))
  {
    hide Number;
    OneThreadMoves(s, t, a);
    NumberAfterMove(s.threads, t, Next(s, t, a).threads[t], Succeeding);
  }

  lemma WakesConservedKept(s: State, t: nat, a: Action)
    requires WakesConserved(s) && Enabled(s, t, a)
    ensures WakesConserved(Next(s, t, a))
  {
    hide Number;
    OneThreadMoves(s, t, a);
    NumberAfterMove(s.threads, t, Next(s, t, a).threads[t], Succeeding);
  }

  lemma PostsConservedKept(s: State, t: nat, a: Action)
    requires PostsConserved(s) && Enabled(s, t, a)
    ensures PostsConserved(Next(s, t, a))
  {
    hide Number;
    OneThreadMoves(s, t, a);
    NumberAfterMove(s.threads, t, Next(s, t, a).threads[t], InPost);
  }

  lemma NoStaleSignalKept(s: State, t: nat, a: Action)
    requires NoStaleSignal(s) && MutualExclusion(s) && CounterExact(s) && Enabled(s, t, a) && a != CheckForPostLoosely
    ensures NoStaleSignal(Next(s, t, a))
  {
    hide Number;
    OneThreadMoves(s, t, a);
    NumberAfterMove(s.threads, t, Next(s, t, a).threads[t], Counted);
  }

  lemma InitiallyAll(n: nat)
    ensures MutualExclusion(Init(n)) && CounterExact(Init(n)) && SignalsConserved(Init(n)) && NoStaleSignal(Init(n))
    ensures PostsConserved(Init(n)) && WakesConserved(Init(n))
  {
    NumberZero(Init(n).threads, InPost);
    NumberZero(Init(n).threads, Counted);
    NumberZero(Init(n).threads, Succeeding);
  }

  lemma {:induction false} AllKept(s: State, run: seq<Move>)
    requires Possible(s, run)
    requires MutualExclusion(s) && CounterExact(s) && SignalsConserved(s) && PostsConserved(s)
    requires WakesConserved(s)
    ensures MutualExclusion(After(s, run)) && CounterExact(After(s, run)) && SignalsConserved(After(s, run))
    ensures PostsConserved(After(s, run)) && WakesConserved(After(s, run))
    ensures NoStaleSignal(s) && Disciplined(run) ==> NoStaleSignal(After(s, run))
    decreases |run|
  {
    if run != [] {
      var t, a := run[0].thread, run[0].action;
      MutualExclusionKept(s, t, a);
      CounterExactKept(s, t, a);
      SignalsConservedKept(s, t, a);
      PostsConservedKept(s, t, a);
      WakesConservedKept(s, t, a);
      hide MutualExclusion, CounterExact, SignalsConserved, PostsConserved, WakesConserved, NoStaleSignal;
      assert run[0] in run;
      if NoStaleSignal(s) && Disciplined(run) { NoStaleSignalKept(s, t, a); }
      AllKept(Next(s, t, a), run[1..]);
    }
  }

  // ----- theorems about every run of any number of threads -----

  /** If every post is made holding the lock, no signal survives the last waiter: whenever the lock is free and the
      counter is zero, the event is not signalled; and the counter is zero exactly if no thread is counted and no wait
      has failed. */
  lemma NoSignalSurvives(n: nat, run: seq<Move>)
    requires Possible(Init(n), run) && Disciplined(run)
    ensures var s := After(Init(n), run);
            && (s.holder == None && s.waiting == 0 ==> !s.event)
            && (s.waiting == 0 <==> s.failures == 0 && forall t | 0 <= t < |s.threads| :: !Counted(s.threads[t]))
  {
    InitiallyAll(n);
    AllKept(Init(n), run);
    NumberZero(After(Init(n), run).threads, Counted);
  }

  /** Waits never succeed more often than signals were set, whether or not posts are disciplined. */
  lemma NoMoreWakeUpsThanSignals(n: nat, run: seq<Move>)
    requires Possible(Init(n), run)
    ensures var s := After(Init(n), run); s.oks <= s.sets - s.merged - s.erased
  {
    InitiallyAll(n);
    AllKept(Init(n), run);
  }

  /** A post sets the event exactly if some thread is counted or some wait has failed. */
  lemma PostSignalsExactlyWhenCounted(n: nat, run: seq<Move>, t: nat)
    requires Possible(Init(n), run) && Enabled(After(Init(n), run), t, CheckForPost)
    ensures var s := After(Init(n), run);
            Next(s, t, CheckForPost).threads[t].Posting? <==>
              s.failures > 0 || exists i | 0 <= i < |s.threads| :: Counted(s.threads[i])
  {
    InitiallyAll(n);
    AllKept(Init(n), run);
    NumberZero(After(Init(n), run).threads, Counted);
  }

  /** The posts that will never wake a wait that began before them: skipped ones, failed ones, those whose signal was
      merged with another one, those whose signal was erased, and those whose signal woke a wait that began later. */
  function Wasted(s: State): nat {
    s.skipped + s.notSet + s.merged + s.erased + s.stolen
  }

  /** The posts that may still do so: under way, or with their signal pending. */
  function Undecided(s: State): nat {
    Number(s.threads, InPost) + if s.event then 1 else 0
  }

  /** Over every run, disciplined or not, each post has woken one wait that began before it, or is wasted, or is
      undecided. So all have done so exactly if none was skipped, failed, merged, erased, stolen, or is left. */
  lemma EveryPostAccountedFor(n: nat, run: seq<Move>)
    requires Possible(Init(n), run)
    ensures var s := After(Init(n), run);
            && s.posts == s.served + Wasted(s) + Undecided(s)
            && (s.served == s.posts <==>
                  && s.skipped == 0 && s.notSet == 0 && s.merged == 0 && s.erased == 0 && s.stolen == 0
                  && !s.event && forall t | 0 <= t < |s.threads| :: !InPost(s.threads[t]))
            && s.oks <= s.served + s.stolen
  {
    InitiallyAll(n);
    AllKept(Init(n), run);
    NumberZero(After(Init(n), run).threads, InPost);
  }

  /** Exactly which steps waste a post: a post that finds no thread counted; a SetEvent that fails, or that finds the
      event still signalled; the reset by the last counted waiter while it is; and the wake-up of a wait that began when
      the post had been made already. */
  lemma WastedExactly(s: State, t: nat, a: Action)
    requires Enabled(s, t, a)
    ensures Wasted(Next(s, t, a)) == Wasted(s) +
              if || (a in {CheckForPost, CheckForPostLoosely} && s.waiting == 0)
                 || a == FailToSetEvent
                 || (a in {SetEvent, Reset} && s.event)
                 || (a == Wake && s.latest <= s.threads[t].since)
              then 1 else 0
  {}

  // ----- what the numbers of waits and posts mean -----

  predicate IsCheck(a: Action) {
    a in {CheckForPost, CheckForPostLoosely}
  }

  /** The posts made in a run. */
  ghost function Posts(run: seq<Move>): nat {
    if run == [] then 0 else Posts(run[..|run|-1]) + if IsCheck(run[|run|-1].action) then 1 else 0
  }

  /** The last wait of the thread began with move `i`. */
  ghost predicate Began(run: seq<Move>, t: nat, i: nat) {
    i < |run| && run[i] == Move(t, UnlockToWait) && forall j | i < j < |run| :: run[j] != Move(t, UnlockToWait)
  }

  /** The last post of the thread was made with move `p`. */
  ghost predicate Made(run: seq<Move>, t: nat, p: nat) {
    && p < |run| && run[p].thread == t && IsCheck(run[p].action)
    && forall j | p < j < |run| && run[j].thread == t :: !IsCheck(run[j].action)
  }

  /** The post made with move `p` set the event with move `q`, and since then the event has not been unsignalled. */
  ghost predicate Signals(run: seq<Move>, p: nat, q: nat) {
    && p < q < |run| && Made(run[..q], run[p].thread, p) && run[q] == Move(run[p].thread, SetEvent)
    && forall j | q < j < |run| :: run[j].action !in {Wake, Reset}
  }

  /** The number of a post, counting from one. */
  ghost function NumberOf(run: seq<Move>, p: nat): nat
    requires p <= |run|
  {
    Posts(run[..p]) + 1
  }

  lemma {:induction false} MoveAfter(s: State, run: seq<Move>, m: Move)
    requires Possible(s, run + [m])
    ensures Possible(s, run) && Enabled(After(s, run), m.thread, m.action)
    ensures After(s, run + [m]) == Next(After(s, run), m.thread, m.action)
    decreases |run|
  {
    hide Next, Enabled;
    if run == [] {
      assert (run + [m])[1..] == [];
    } else {
      assert (run + [m])[0] == run[0] && (run + [m])[1..] == run[1..] + [m];
      MoveAfter(Next(s, run[0].thread, run[0].action), run[1..], m);
    }
  }

  lemma PostsAfterMove(run: seq<Move>, m: Move)
    ensures Posts(run + [m]) == Posts(run) + if IsCheck(m.action) then 1 else 0
    ensures forall i | 0 <= i <= |run| :: (run + [m])[..i] == run[..i]
  {
    assert (run + [m])[..|run|] == run;
  }

  lemma {:induction false} PostsGrow(run: seq<Move>, i: nat, j: nat)
    requires i <= j <= |run|
    ensures Posts(run[..i]) <= Posts(run[..j])
    ensures i < j && IsCheck(run[i].action) ==> Posts(run[..i]) < Posts(run[..j])
    decreases j
  {
    if i < j {
      assert run[..j][..j-1] == run[..j-1] && run[..j][j-1] == run[j-1];
      PostsGrow(run, i, j - 1);
    }
  }

  /** A waiting thread carries the number of posts made before its wait began. */
  ghost predicate WaitNumbered(run: seq<Move>, t: nat, pc: Pc) {
    pc.Incrementing? || pc.Waiting? ==> exists i: nat :: Began(run, t, i) && Posts(run[..i]) == pc.since
  }

  /** A posting thread carries the number of its post. */
  ghost predicate PostNumbered(run: seq<Move>, t: nat, pc: Pc) {
    InPost(pc) ==> exists p: nat :: Made(run, t, p) && NumberOf(run, p) == pc.number
  }

  /** The event is signalled exactly while some post signals, and carries the highest number of these. */
  ghost predicate SignalNumbered(run: seq<Move>, event: bool, latest: nat) {
    && (event ==> exists p: nat, q: nat :: Signals(run, p, q) && NumberOf(run, p) == latest)
    && (forall p: nat, q: nat | Signals(run, p, q) :: event && NumberOf(run, p) <= latest)
  }

  ghost predicate Numbered(run: seq<Move>, s: State) {
    && s.posts == Posts(run)
    && (forall t | 0 <= t < |s.threads| :: WaitNumbered(run, t, s.threads[t]) && PostNumbered(run, t, s.threads[t]))
    && SignalNumbered(run, s.event, s.latest)
  }

  /** A move of another thread, or one that neither begins nor ends this one's wait, leaves its number. */
  lemma WaitNumberedKept(run: seq<Move>, t: nat, pc: Pc, m: Move)
    requires WaitNumbered(run, t, pc) && m != Move(t, UnlockToWait)
    ensures WaitNumbered(run + [m], t, pc)
  {
    hide Posts;
    if pc.Incrementing? || pc.Waiting? {
      var i: nat :| Began(run, t, i) && Posts(run[..i]) == pc.since;
      PostsAfterMove(run, m);
      assert Began(run + [m], t, i);
    }
  }

  lemma PostNumberedKept(run: seq<Move>, t: nat, pc: Pc, m: Move)
    requires PostNumbered(run, t, pc) && !(m.thread == t && IsCheck(m.action))
    ensures PostNumbered(run + [m], t, pc)
  {
    hide Posts;
    if InPost(pc) {
      var p: nat :| Made(run, t, p) && NumberOf(run, p) == pc.number;
      PostsAfterMove(run, m);
      assert Made(run + [m], t, p);
    }
  }

  lemma WaitBegins(run: seq<Move>, t: nat)
    ensures WaitNumbered(run + [Move(t, UnlockToWait)], t, Incrementing(Posts(run)))
  {
    hide Posts;
    var longer := run + [Move(t, UnlockToWait)];
    assert longer[..|run|] == run;
    assert Began(longer, t, |run|);
  }

  lemma PostMade(run: seq<Move>, m: Move, pc: Pc)
    requires IsCheck(m.action) && InPost(pc) && pc.number == Posts(run) + 1
    ensures PostNumbered(run + [m], m.thread, pc)
  {
    hide Posts;
    var longer := run + [m];
    assert longer[..|run|] == run;
    assert Made(longer, m.thread, |run|);
  }

  /** A move that neither sets nor unsets the event. */
  lemma SignalsKept(run: seq<Move>, m: Move, p: nat, q: nat)
    requires m.action !in {SetEvent, Wake, Reset}
    ensures Signals(run + [m], p, q) <==> Signals(run, p, q)
  {
    var longer := run + [m];
    if q <= |run| { assert longer[..q] == run[..q]; }
    if Signals(run, p, q) {
      assert longer[p] == run[p] && longer[q] == run[q];
    }
    if Signals(longer, p, q) {
      assert longer[q].action == SetEvent;
      assert forall j | 0 <= j < |run| :: longer[j] == run[j];
    }
  }

  /** A move that sets it. */
  lemma SignalsMore(run: seq<Move>, t: nat, p: nat, q: nat)
    ensures Signals(run + [Move(t, SetEvent)], p, q) <==> Signals(run, p, q) || (q == |run| && Made(run, t, p))
  {
    var longer := run + [Move(t, SetEvent)];
    assert forall i | 0 <= i <= |run| :: longer[..i] == run[..i];
    assert longer[..|run|] == run;
  }

  /** A move that unsets it, or finds it unset. */
  lemma SignalsNoMore(run: seq<Move>, m: Move, p: nat, q: nat)
    requires m.action in {Wake, Reset}
    ensures !Signals(run + [m], p, q)
  {
    assert (run + [m])[|run|] == m;
  }

  lemma NumberStays(run: seq<Move>, m: Move, p: nat)
    requires p <= |run|
    ensures NumberOf(run + [m], p) == NumberOf(run, p)
  {
    assert (run + [m])[..p] == run[..p];
  }

  lemma PendingSignal(run: seq<Move>, event: bool, latest: nat) returns (p: nat, q: nat)
    requires SignalNumbered(run, event, latest) && event
    ensures Signals(run, p, q) && p < q < |run| && NumberOf(run, p) == latest
  {
    p, q :| Signals(run, p, q) && NumberOf(run, p) == latest;
  }

  lemma SignalNumberedKept(run: seq<Move>, event: bool, latest: nat, m: Move)
    requires SignalNumbered(run, event, latest) && m.action !in {SetEvent, Wake, Reset}
    ensures SignalNumbered(run + [m], event, latest)
  {
    hide NumberOf, Signals;
    var longer := run + [m];
    forall p: nat, q: nat | Signals(longer, p, q) ensures event && p <= |longer| && NumberOf(longer, p) <= latest {
      SignalsKept(run, m, p, q);
      SignalsMeans(run, p, q);
      NumberStays(run, m, p);
    }
    if event {
      var p, q := PendingSignal(run, event, latest);
      SignalsKept(run, m, p, q);
      NumberStays(run, m, p);
    }
  }

  lemma SignalSet(run: seq<Move>, event: bool, latest: nat, t: nat, number: nat)
    requires SignalNumbered(run, event, latest) && PostNumbered(run, t, PostingLoosely(number))
    ensures SignalNumbered(run + [Move(t, SetEvent)], true, if event && latest > number then latest else number)
  {
    var made: nat :| Made(run, t, made) && NumberOf(run, made) == number;
    hide NumberOf, Signals;
    var m, last := Move(t, SetEvent), |run|;
    var longer, most := run + [m], if event && latest > number then latest else number;
    forall p: nat, q: nat | Signals(longer, p, q) ensures p <= |longer| && NumberOf(longer, p) <= most {
      SignalsMore(run, t, p, q);
      if Signals(run, p, q) { SignalsMeans(run, p, q); } else { assert p == made; }
      NumberStays(run, m, p);
    }
    if event && latest > number {
      var p, q := PendingSignal(run, event, latest);
      SignalsMore(run, t, p, q);
      NumberStays(run, m, p);
    } else {
      SignalsMore(run, t, made, last);
      NumberStays(run, m, made);
    }
  }

  lemma SignalUnset(run: seq<Move>, m: Move, latest: nat)
    requires m.action in {Wake, Reset}
    ensures SignalNumbered(run + [m], false, latest)
  {
    forall p: nat, q: nat ensures !Signals(run + [m], p, q) { SignalsNoMore(run, m, p, q); }
    hide Signals, NumberOf;
  }

  lemma SignalsMeans(run: seq<Move>, p: nat, q: nat)
    requires Signals(run, p, q)
    ensures p < q < |run| && IsCheck(run[p].action)
  {}

  lemma SignalNumberedNext(run: seq<Move>, s: State, t: nat, a: Action)
    requires Numbered(run, s) && Enabled(s, t, a)
    ensures SignalNumbered(run + [Move(t, a)], Next(s, t, a).event, Next(s, t, a).latest)
  {
    hide SignalNumbered, PostNumbered, WaitNumbered, Posts;
    var m := Move(t, a);
    if a == Action.SetEvent {
      var number := s.threads[t].number;
      OfEitherPost(run, t, s.threads[t]);
      SignalSet(run, s.event, s.latest, t, number);
    } else if a in {Wake, Reset} {
      SignalUnset(run, m, s.latest);
    } else {
      SignalNumberedKept(run, s.event, s.latest, m);
    }
  }

  lemma OfEitherPost(run: seq<Move>, t: nat, pc: Pc)
    requires InPost(pc) && PostNumbered(run, t, pc)
    ensures PostNumbered(run, t, PostingLoosely(pc.number))
  {}

  lemma ThreadNumberedNext(run: seq<Move>, s: State, t: nat, a: Action, u: nat)
    requires Numbered(run, s) && Enabled(s, t, a) && u < |s.threads|
    ensures WaitNumbered(run + [Move(t, a)], u, Next(s, t, a).threads[u])
    ensures PostNumbered(run + [Move(t, a)], u, Next(s, t, a).threads[u])
  {
    var m, pc := Move(t, a), Next(s, t, a).threads[u];
    assert WaitNumbered(run, u, s.threads[u]) && PostNumbered(run, u, s.threads[u]);
    hide Posts, Began, Made, NumberOf, SignalNumbered;
    if u != t {
      WaitNumberedKept(run, u, pc, m);
      PostNumberedKept(run, u, pc, m);
    } else if a == UnlockToWait {
      WaitBegins(run, t);
    } else if a == Increment {
      WaitNumberedKept(run, t, s.threads[t], m);
    } else if IsCheck(a) && InPost(pc) {
      PostMade(run, m, pc);
    }
  }

  lemma NumberedKept(run: seq<Move>, s: State, t: nat, a: Action)
    requires Numbered(run, s) && Enabled(s, t, a)
    ensures Numbered(run + [Move(t, a)], Next(s, t, a))
  {
    hide SignalNumbered, PostNumbered, WaitNumbered;
    PostsAfterMove(run, Move(t, a));
    SignalNumberedNext(run, s, t, a);
    forall u | 0 <= u < |s.threads|
      ensures WaitNumbered(run + [Move(t, a)], u, Next(s, t, a).threads[u])
      ensures PostNumbered(run + [Move(t, a)], u, Next(s, t, a).threads[u])
    {
      ThreadNumberedNext(run, s, t, a, u);
    }
    hide Posts;
  }

  lemma {:induction false} AllNumbered(n: nat, run: seq<Move>)
    requires Possible(Init(n), run)
    ensures Numbered(run, After(Init(n), run))
  {
    if run != [] {
      hide Numbered, Next, Enabled;
      var last := |run| - 1;
      assert run == run[..last] + [run[last]];
      MoveAfter(Init(n), run[..last], run[last]);
      AllNumbered(n, run[..last]);
      NumberedKept(run[..last], After(Init(n), run[..last]), run[last].thread, run[last].action);
    }
  }

  /** In terms of the run: a wake-up ends a wait that began with some move `i`, by the signal of posts the latest of
      which was made with some move `p`; and it is served if the wait began before, and stolen if not. */
  lemma ServedExactly(n: nat, run: seq<Move>, t: nat)
    requires Possible(Init(n), run) && Enabled(After(Init(n), run), t, Wake)
    ensures exists i: nat, p: nat, q: nat ::
              && Began(run, t, i) && Signals(run, p, q)
              && (forall p': nat, q': nat | Signals(run, p', q') :: p' <= p)
              && var s, s' := After(Init(n), run), Next(After(Init(n), run), t, Wake);
                 && s'.served == s.served + (if i < p then 1 else 0)
                 && s'.stolen == s.stolen + (if i < p then 0 else 1)
  {
    AllNumbered(n, run);
    var s := After(Init(n), run);
    assert WaitNumbered(run, t, s.threads[t]);
    hide Posts, Signals, Possible, After;
    var i: nat :| Began(run, t, i) && Posts(run[..i]) == s.threads[t].since;
    hide Began, NumberOf;
    var p, q := PendingSignal(run, s.event, s.latest);
    WaitBeforePost(run, t, i, p, q);
    forall p': nat, q': nat | Signals(run, p', q') ensures p' <= p {
      EarlierPost(run, p, q, p', q');
    }
  }

  lemma WaitBeforePost(run: seq<Move>, t: nat, i: nat, p: nat, q: nat)
    requires Began(run, t, i) && Signals(run, p, q)
    ensures i < p <==> Posts(run[..i]) < NumberOf(run, p)
  {
    hide Posts;
    if i < p { PostsGrow(run, i, p); } else { PostsGrow(run, p, i); }
  }

  lemma EarlierPost(run: seq<Move>, p: nat, q: nat, p': nat, q': nat)
    requires Signals(run, p, q) && Signals(run, p', q') && NumberOf(run, p') <= NumberOf(run, p)
    ensures p' <= p
  {
    hide Posts;
    if p < p' { PostsGrow(run, p, p'); }
  }

  // ----- what does not hold -----

  /** Some run leads from one state to the other. */
  ghost predicate Reaches(s: State, s': State, disciplined: bool) {
    exists run :: Possible(s, run) && After(s, run) == s' && (disciplined ==> Disciplined(run))
  }

  lemma ReachesItself(s: State, disciplined: bool)
    ensures Reaches(s, s, disciplined)
  {
    assert Possible(s, []) && After(s, []) == s && Disciplined([]);
  }

  lemma StepThenReaches(s: State, t: nat, a: Action, s': State, disciplined: bool)
    requires Enabled(s, t, a) && (disciplined ==> a != CheckForPostLoosely)
    requires Reaches(Next(s, t, a), s', disciplined)
    ensures Reaches(s, s', disciplined)
  {
    var rest :|
      Possible(Next(s, t, a), rest) && After(Next(s, t, a), rest) == s' && (disciplined ==> Disciplined(rest));
    var run := [Move(t, a)] + rest;
    assert run[1..] == rest;
    assert Possible(s, run) && After(s, run) == s';
  }

  /** A waiter is counted, and another thread is about to set the event without holding the lock. */
  const LOOSE: State := State([Waiting(0), PostingLoosely(1)], None, 1, false, 0, 1, 0, 0, 0, 0, 0, 0, 0, 0, 0)

  lemma ReachesLoose(s: State)
    requires Reaches(LOOSE, s, false)
    ensures Reaches(Init(2), s, false)
  {
    var s0 := Init(2);
    var s1 := Next(s0, 0, Acquire);
    var s2 := Next(s1, 0, UnlockToWait);
    var s3 := Next(s2, 0, Increment);
    hide Reaches;
    assert Next(s3, 1, CheckForPostLoosely) == LOOSE;
    StepThenReaches(s3, 1, CheckForPostLoosely, s, false);
    StepThenReaches(s2, 0, Increment, s, false);
    StepThenReaches(s1, 0, UnlockToWait, s, false);
    StepThenReaches(s0, 0, Acquire, s, false);
  }

  /** Without the discipline a signal can outlive all waiters: a thread that posts without the lock sees the counter at
      one, and sets the event after the only waiter has timed out and gone. */
  lemma LoosePostCanLeaveStaleSignal()
    ensures exists s :: Reaches(Init(2), s, false) && s.holder == None && s.waiting == 0 && s.event
  {
    var s1 := Next(LOOSE, 0, TimeOut);
    var s2 := Next(s1, 0, Relock);
    var s3 := Next(s2, 0, Decrement);
    var s4 := Next(s3, 0, Reset);
    var s5 := Next(s4, 0, Release);
    var s6 := Next(s5, 1, SetEvent);
    hide Reaches;
    ReachesItself(s6, false);
    StepThenReaches(s5, 1, SetEvent, s6, false);
    StepThenReaches(s4, 0, Release, s6, false);
    StepThenReaches(s3, 0, Reset, s6, false);
    StepThenReaches(s2, 0, Decrement, s6, false);
    StepThenReaches(s1, 0, Relock, s6, false);
    StepThenReaches(LOOSE, 0, TimeOut, s6, false);
    ReachesLoose(s6);
  }

  /** Even with the discipline a wake-up can be lost, because the waiter releases the lock before it is counted: a post
      that runs in between, holding the lock, signals nothing, and the waiter then waits with no signal pending. */
  lemma WakeUpCanBeLost()
    ensures exists before, posting, after ::
              && Reaches(Init(2), before, true) && before.threads == [Incrementing(0), Idle]
              && Enabled(before, 1, Acquire)
              && Enabled(Next(before, 1, Acquire), 1, CheckForPost)
              && posting == Next(Next(before, 1, Acquire), 1, CheckForPost)
              && Enabled(posting, 0, Increment) && after == Next(posting, 0, Increment)
              && after.threads == [Waiting(0), Locked] && !after.event && after.sets == 0 && after.skipped == 1
  {
    var s0 := Init(2);
    var s1 := Next(s0, 0, Acquire);
    var s2 := Next(s1, 0, UnlockToWait);
    ReachesItself(s2, true);
    StepThenReaches(s1, 0, UnlockToWait, s2, true);
    StepThenReaches(s0, 0, Acquire, s2, true);
    var posting := Next(Next(s2, 1, Acquire), 1, CheckForPost);
    var after := Next(posting, 0, Increment);
    assert after.threads == [Waiting(0), Locked];
    assert Reaches(Init(2), s2, true) && s2.threads == [Incrementing(0), Idle];
  }

  /** Two counted waiters. */
  const BOTH: State := State([Waiting(0), Waiting(0), Idle, Idle], None, 2, false, 0, 0, 0, 0, 0, 0, 0, 0, 0, 0, 0)

  /** Two counted waiters, one signal that stands for two posts. */
  const MERGED: State := State([Waiting(0), Waiting(0), Idle, Idle], None, 2, true, 0, 2, 0, 0, 2, 1, 0, 0, 2, 0, 0)

  lemma ReachesBoth(s: State)
    requires Reaches(BOTH, s, true)
    ensures Reaches(Init(4), s, true)
  {
    var s0 := Init(4);
    var s1 := Next(s0, 0, Acquire);
    var s2 := Next(s1, 0, UnlockToWait);
    var s3 := Next(s2, 0, Increment);
    var s4 := Next(s3, 1, Acquire);
    var s5 := Next(s4, 1, UnlockToWait);
    hide Reaches;
    assert Next(s5, 1, Increment) == BOTH;
    StepThenReaches(s5, 1, Increment, s, true);
    StepThenReaches(s4, 1, UnlockToWait, s, true);
    StepThenReaches(s3, 1, Acquire, s, true);
    StepThenReaches(s2, 0, Increment, s, true);
    StepThenReaches(s1, 0, UnlockToWait, s, true);
    StepThenReaches(s0, 0, Acquire, s, true);
  }

  lemma ReachesMerged(s: State)
    requires Reaches(MERGED, s, true)
    ensures Reaches(BOTH, s, true)
  {
    var s1 := Next(BOTH, 2, Acquire);
    var s2 := Next(s1, 2, CheckForPost);
    var s3 := Next(s2, 2, SetEvent);
    var s4 := Next(s3, 2, Release);
    var s5 := Next(s4, 3, Acquire);
    var s6 := Next(s5, 3, CheckForPost);
    var s7 := Next(s6, 3, SetEvent);
    hide Reaches;
    assert Next(s7, 3, Release) == MERGED;
    StepThenReaches(s7, 3, Release, s, true);
    StepThenReaches(s6, 3, SetEvent, s, true);
    StepThenReaches(s5, 3, CheckForPost, s, true);
    StepThenReaches(s4, 3, Acquire, s, true);
    StepThenReaches(s3, 2, Release, s, true);
    StepThenReaches(s2, 2, SetEvent, s, true);
    StepThenReaches(s1, 2, CheckForPost, s, true);
    StepThenReaches(BOTH, 2, Acquire, s, true);
  }

  /** The signal has woken one of them. */
  const WOKEN: State := State([Locked, Waiting(0), Idle, Idle], Some(0), 1, false, 0, 2, 0, 0, 2, 1, 0, 1, 2, 1, 0)

  lemma ReachesWoken(s: State)
    requires Reaches(WOKEN, s, true)
    ensures Reaches(MERGED, s, true)
  {
    var s1 := Next(MERGED, 0, Wake);
    var s2 := Next(s1, 0, Relock);
    hide Reaches;
    assert Next(s2, 0, Decrement) == WOKEN;
    StepThenReaches(s2, 0, Decrement, s, true);
    StepThenReaches(s1, 0, Relock, s, true);
    StepThenReaches(MERGED, 0, Wake, s, true);
  }

  /** A wake-up can also be lost to waiters that are counted: two of them, two disciplined posts, one wake-up, because
      the second SetEvent found the event still signalled. One waiter sleeps on with no signal pending. */
  lemma SecondSignalCanBeMerged()
    ensures exists s ::
              && Reaches(Init(4), s, true) && s.threads == [Locked, Waiting(0), Idle, Idle] && !s.event
              && s.posts == 2 && s.skipped == 0 && s.sets == 2 && s.merged == 1 && s.oks == 1 && s.failures == 0
  {
    ReachesItself(WOKEN, true);
    ReachesWoken(WOKEN);
    ReachesMerged(WOKEN);
    ReachesBoth(WOKEN);
  }

  /** One counted waiter. */
  const COUNTED: State := State([Waiting(0), Idle, Idle], None, 1, false, 0, 0, 0, 0, 0, 0, 0, 0, 0, 0, 0)

  /** The signal of a post that was made for it. */
  const POSTED: State := State([Waiting(0), Idle, Idle], None, 1, true, 0, 1, 0, 0, 1, 0, 0, 0, 1, 0, 0)

  lemma ReachesCounted(s: State)
    requires Reaches(COUNTED, s, true)
    ensures Reaches(Init(3), s, true)
  {
    var s0 := Init(3);
    var s1 := Next(s0, 0, Acquire);
    var s2 := Next(s1, 0, UnlockToWait);
    hide Reaches;
    assert Next(s2, 0, Increment) == COUNTED;
    StepThenReaches(s2, 0, Increment, s, true);
    StepThenReaches(s1, 0, UnlockToWait, s, true);
    StepThenReaches(s0, 0, Acquire, s, true);
  }

  lemma ReachesPosted(s: State)
    requires Reaches(POSTED, s, true)
    ensures Reaches(COUNTED, s, true)
  {
    var s1 := Next(COUNTED, 1, Acquire);
    var s2 := Next(s1, 1, CheckForPost);
    var s3 := Next(s2, 1, SetEvent);
    hide Reaches;
    assert Next(s3, 1, Release) == POSTED;
    StepThenReaches(s3, 1, Release, s, true);
    StepThenReaches(s2, 1, SetEvent, s, true);
    StepThenReaches(s1, 1, CheckForPost, s, true);
    StepThenReaches(COUNTED, 1, Acquire, s, true);
  }

  /** A third thread has begun to wait after the post, and taken the signal. */
  const STOLEN: State := State([Waiting(0), Idle, Locked], Some(2), 1, false, 0, 1, 0, 0, 1, 0, 0, 1, 1, 0, 1)

  lemma ReachesStolen(s: State)
    requires Reaches(STOLEN, s, true)
    ensures Reaches(POSTED, s, true)
  {
    var s1 := Next(POSTED, 2, Acquire);
    var s2 := Next(s1, 2, UnlockToWait);
    var s3 := Next(s2, 2, Increment);
    var s4 := Next(s3, 2, Wake);
    var s5 := Next(s4, 2, Relock);
    hide Reaches;
    assert Next(s5, 2, Decrement) == STOLEN;
    StepThenReaches(s5, 2, Decrement, s, true);
    StepThenReaches(s4, 2, Relock, s, true);
    StepThenReaches(s3, 2, Wake, s, true);
    StepThenReaches(s2, 2, Increment, s, true);
    StepThenReaches(s1, 2, UnlockToWait, s, true);
    StepThenReaches(POSTED, 2, Acquire, s, true);
  }

  /** And it can be lost to a waiter that was counted when the post was made, with nothing skipped, merged or erased: a
      thread that begins to wait later takes the signal first. The waiter sleeps on with no signal pending. */
  lemma SignalCanBeStolen()
    ensures exists s ::
              && Reaches(Init(3), s, true) && s.threads == [Waiting(0), Idle, Locked] && !s.event
              && s.posts == 1 && s.sets == 1 && s.oks == 1 && s.failures == 0
              && s.skipped == 0 && s.notSet == 0 && s.merged == 0 && s.erased == 0 && s.stolen == 1
  {
    ReachesItself(STOLEN, true);
    ReachesStolen(STOLEN);
    ReachesPosted(STOLEN);
    ReachesCounted(STOLEN);
  }

  /** A thread has released the lock to wait, another one is counted. */
  const UNCOUNTED: State := State([Incrementing(0), Waiting(0), Idle], None, 1, false, 0, 0, 0, 0, 0, 0, 0, 0, 0, 0, 0)

  lemma ReachesUncounted(s: State)
    requires Reaches(UNCOUNTED, s, true)
    ensures Reaches(Init(3), s, true)
  {
    var s0 := Init(3);
    var s1 := Next(s0, 0, Acquire);
    var s2 := Next(s1, 0, UnlockToWait);
    var s3 := Next(s2, 1, Acquire);
    var s4 := Next(s3, 1, UnlockToWait);
    hide Reaches;
    assert Next(s4, 1, Increment) == UNCOUNTED;
    StepThenReaches(s4, 1, Increment, s, true);
    StepThenReaches(s3, 1, UnlockToWait, s, true);
    StepThenReaches(s2, 1, Acquire, s, true);
    StepThenReaches(s1, 0, UnlockToWait, s, true);
    StepThenReaches(s0, 0, Acquire, s, true);
  }

  /** A post has been made. */
  const SIGNALLED: State := State([Incrementing(0), Waiting(0), Idle], None, 1, true, 0, 1, 0, 0, 1, 0, 0, 0, 1, 0, 0)

  lemma ReachesSignalled(s: State)
    requires Reaches(SIGNALLED, s, true)
    ensures Reaches(UNCOUNTED, s, true)
  {
    var s1 := Next(UNCOUNTED, 2, Acquire);
    var s2 := Next(s1, 2, CheckForPost);
    var s3 := Next(s2, 2, SetEvent);
    hide Reaches;
    assert Next(s3, 2, Release) == SIGNALLED;
    StepThenReaches(s3, 2, Release, s, true);
    StepThenReaches(s2, 2, SetEvent, s, true);
    StepThenReaches(s1, 2, CheckForPost, s, true);
    StepThenReaches(UNCOUNTED, 2, Acquire, s, true);
  }

  /** The counted one has timed out, and erased its signal. */
  const ERASED: State := State([Waiting(0), Locked, Idle], Some(1), 1, false, 0, 1, 0, 0, 1, 0, 1, 0, 1, 0, 0)

  lemma ReachesErased(s: State)
    requires Reaches(ERASED, s, true)
    ensures Reaches(SIGNALLED, s, true)
  {
    var s1 := Next(SIGNALLED, 1, TimeOut);
    var s2 := Next(s1, 1, Relock);
    var s3 := Next(s2, 1, Decrement);
    var s4 := Next(s3, 1, Reset);
    hide Reaches;
    assert Next(s4, 0, Increment) == ERASED;
    StepThenReaches(s4, 0, Increment, s, true);
    StepThenReaches(s3, 1, Reset, s, true);
    StepThenReaches(s2, 1, Decrement, s, true);
    StepThenReaches(s1, 1, Relock, s, true);
    StepThenReaches(SIGNALLED, 1, TimeOut, s, true);
  }

  /** And it can be lost to a waiter that is not yet counted although the post finds another one: that one times out,
      takes itself for the last, and erases the signal. The waiter sleeps on with no signal pending. */
  lemma SignalCanBeErased()
    ensures exists s ::
              && Reaches(Init(3), s, true) && s.threads == [Waiting(0), Locked, Idle] && !s.event
              && s.posts == 1 && s.sets == 1 && s.oks == 0 && s.failures == 0
              && s.skipped == 0 && s.notSet == 0 && s.merged == 0 && s.erased == 1 && s.stolen == 0
  {
    ReachesItself(ERASED, true);
    ReachesErased(ERASED);
    ReachesSignalled(ERASED);
    ReachesUncounted(ERASED);
  }
}
