/**
 The registration protocol of event_loop.c between the owner of an event loop (thread 0) and
 any number of other threads, one atomic action at a time.

 Every thread that registers something locks the mutex, appends an operation to the pending
 list and unlocks. Another thread then writes a wake-up byte; the owner drains the list itself.
 The owner's loop polls, reads one byte if the wake-up socket was reported, runs its callbacks,
 and drains the list.
 */
module Reactor {
  import opened Options
  import opened Registration

  const OWNER := 0

  /** Where a thread is inside event_loop_process_channel_event or event_loop_handle_pending_channel. */
  datatype PC =
    | Idle
    | Holding(op: Op)        // has the mutex, has not appended yet
    | Appended               // has the mutex
    | Waking                 // about to write the wake-up byte
    | WantDrain              // about to lock for draining
    | Draining(cursor: nat)  // has the mutex; that many operations are applied
    | Cleared                // has the mutex; the list is empty again

  /**
   Where the owner's loop is. In Dispatching, `mustRead` says that the wake-up socket was
   reported and its byte has not been read yet.
   */
  datatype Outer = Setup | Polling | Dispatching(mustRead: bool) | LoopDrain

  /** `history` lists the operations in the order of their appends, `applied` those carried out. */
  datatype State = State(
    mutex: Option<nat>,
    handlePending: bool,
    pending: seq<Op>,
    bytes: nat,
    pcs: seq<PC>,
    outer: Outer,
    loop: Outcome,
    history: seq<Op>,
    applied: seq<Op>,
    assertionFailed: bool)

  datatype Action =
    | Acquire(t: nat, op: Op)
    | Append(t: nat)
    | Release(t: nat)
    | Wake(t: nat)
    | StartLoop
    | Dispatch(woken: bool)
    | ReadByte
    | EndDispatch
    | DrainAcquire(t: nat)
    | DrainOne(t: nat)
    | DrainFinish(t: nat)
    | DrainRelease(t: nat)
  {
    /** Actions that carry on what was begun; the others start a registration or report another descriptor. */
    predicate Internal() {
      !Acquire? && this != Dispatch(false)
    }

    /** The thread that takes the action. */
    function Actor(): nat {
      if StartLoop? || Dispatch? || ReadByte? || EndDispatch? then OWNER else t
    }
  }

  function Init(threads: nat): State
    requires threads > 0
  {
    State(None, false, [], 0, seq(threads, _ => Idle), Setup, Applied(EmptyLoop(), 0), [], [], false)
  }

  predicate WellFormed(s: State) {
    |s.pcs| > 0
  }

  predicate Enabled(s: State, a: Action)
    requires WellFormed(s)
  {
    a.Actor() < |s.pcs| && Ready(s, s.pcs[a.Actor()], a)
  }

  predicate Ready(s: State, pc: PC, a: Action) {
    match a
    case Acquire(t, _) => pc.Idle? && s.mutex.None? && (t == OWNER ==> s.outer.Setup? || s.outer.Dispatching?)
    case Append(_) => pc.Holding?
    case Release(_) => pc.Appended?
    case Wake(_) => pc.Waking?
    case StartLoop => s.outer.Setup? && pc.Idle?
    case Dispatch(woken) => s.outer.Polling? && (woken ==> s.bytes > 0)
    case ReadByte => s.outer == Dispatching(true) && pc.Idle? && s.bytes > 0
    case EndDispatch => s.outer == Dispatching(false) && pc.Idle?
    case DrainAcquire(_) => pc.WantDrain? && s.mutex.None?
    case DrainOne(_) => pc.Draining? && pc.cursor < |s.pending|
    case DrainFinish(_) => pc.Draining? && pc.cursor >= |s.pending|
    case DrainRelease(_) => pc.Cleared?
  }

  function At(s: State, t: nat, pc: PC): State
    requires t < |s.pcs|
  {
    s.(pcs := s.pcs[t := pc])
  }

  function Next(s: State, a: Action): State
    requires WellFormed(s) && Enabled(s, a)
  {
    match a
    case Acquire(t, op) => At(s, t, Holding(op)).(mutex := Some(t))
    case Append(t) =>
      // assert(event_loop->is_handle_pending == 0)
      At(s, t, Appended).(pending := s.pending + [s.pcs[t].op], history := s.history + [s.pcs[t].op],
                          assertionFailed := s.assertionFailed || s.handlePending)
    case Release(t) => At(s, t, if t == OWNER then WantDrain else Waking).(mutex := None)
    case Wake(t) => At(s, t, Idle).(bytes := s.bytes + 1)
    case StartLoop => s.(outer := Polling)
    case Dispatch(woken) => s.(outer := Dispatching(woken))
    case ReadByte => s.(outer := Dispatching(false), bytes := s.bytes - 1)
    case EndDispatch => At(s, OWNER, WantDrain).(outer := LoopDrain)
    case DrainAcquire(t) => At(s, t, Draining(0)).(mutex := Some(t), handlePending := true)
    case DrainOne(t) =>
      var k := s.pcs[t].cursor;
      At(s, t, Draining(k + 1)).(loop := ApplyTo(s.loop, s.pending[k]), applied := s.applied + [s.pending[k]])
    case DrainFinish(t) => At(s, t, Cleared).(pending := [], handlePending := false)
    case DrainRelease(t) =>
      At(s, t, Idle).(mutex := None, outer := if s.outer == LoopDrain then Polling else s.outer)
  }

  /** A run from s to t in which every action is enabled where it is taken. */
  ghost predicate Run(s: State, actions: seq<Action>, t: State)
    decreases |actions|
  {
    WellFormed(s)
    && if actions == [] then s == t
       else Enabled(s, actions[0]) && Run(Next(s, actions[0]), actions[1..], t)
  }

  // ---------------------------------------------------------------------
  // Mutual exclusion and the assertion
  // ---------------------------------------------------------------------

  predicate HasMutex(pc: PC) {
    pc.Holding? || pc.Appended? || pc.Draining? || pc.Cleared?
  }

  predicate InDrain(pc: PC) {
    pc.WantDrain? || pc.Draining? || pc.Cleared?
  }

  ghost predicate Exclusive(s: State)
    requires WellFormed(s)
  {
    && (forall t :: 0 <= t < |s.pcs| ==> (HasMutex(s.pcs[t]) <==> s.mutex == Some(t)))
    && (s.mutex.Some? ==> s.mutex.value < |s.pcs|)
    // Only the owner drains, only others write wake-up bytes.
    && (forall t :: 0 <= t < |s.pcs| && InDrain(s.pcs[t]) ==> t == OWNER)
    && !s.pcs[OWNER].Waking?
    // The flag is up only inside the drain, which holds the mutex.
    && (s.handlePending <==> s.pcs[OWNER].Draining?)
    && !s.assertionFailed
  }

  ghost predicate OuterOk(s: State)
    requires WellFormed(s)
  {
    && (s.outer == Polling ==> s.pcs[OWNER].Idle?)
    && (s.outer == Dispatching(true) ==> s.bytes > 0)
    && (s.outer == LoopDrain ==> InDrain(s.pcs[OWNER]))
  }

  lemma ExclusiveKept(s: State, a: Action)
    requires WellFormed(s) && Exclusive(s) && OuterOk(s) && Enabled(s, a)
    ensures Exclusive(Next(s, a)) && OuterOk(Next(s, a))
  {
    hide Apply;
  }

  // ---------------------------------------------------------------------
  // Linearisation
  // ---------------------------------------------------------------------

  function Cursor(s: State): nat
    requires WellFormed(s)
  {
    if s.pcs[OWNER].Draining? then s.pcs[OWNER].cursor else 0
  }

  /** The operations applied, then those still pending, are all operations in the order of the lock. */
  ghost predicate Linear(s: State)
    requires WellFormed(s)
  {
    && Cursor(s) <= |s.pending|
    && s.applied + s.pending[Cursor(s)..] == s.history
    && SameLoop(s.loop, ApplyAll(EmptyLoop(), s.applied))
    && (s.pcs[OWNER].Cleared? ==> s.pending == [])
  }

  lemma AppendIsLinear(s: State, a: Action)
    requires WellFormed(s) && Exclusive(s) && Linear(s) && Enabled(s, a) && a.Append?
    ensures Linear(Next(s, a))
  {
    assert s.pcs[a.t].Holding? && !s.pcs[OWNER].Draining? && !s.pcs[OWNER].Cleared? by {
      assert HasMutex(s.pcs[a.t]) && s.mutex == Some(a.t);
      assert HasMutex(s.pcs[OWNER]) ==> a.t == OWNER;
    }
    hide Apply, ApplyAll, EmptyLoop, Exclusive;
    var op := s.pcs[a.t].op;
    assert (s.pending + [op])[0..] == s.pending[0..] + [op];
  }

  lemma DrainIsLinear(s: State, a: Action)
    requires WellFormed(s) && Exclusive(s) && Linear(s) && Enabled(s, a) && a.DrainOne?
    ensures Linear(Next(s, a))
  {
    assert a.t == OWNER;
    var n, k := Next(s, a), Cursor(s);
    var op, later := s.pending[k], s.pending[k + 1..];
    assert Cursor(n) == k + 1 && n.pending == s.pending && n.history == s.history && !n.pcs[OWNER].Cleared?;
    assert n.applied == s.applied + [op] && n.loop == ApplyTo(s.loop, op);
    hide Next, Enabled, Apply, ApplyAll, EmptyLoop, Exclusive, Cursor;
    ApplyOneMore(EmptyLoop(), s.applied, op);
    assert s.pending[k..] == [op] + later;
    assert s.applied + ([op] + later) == s.applied + [op] + later;
  }

  lemma LinearKept(s: State, a: Action)
    requires WellFormed(s) && Exclusive(s) && OuterOk(s) && Linear(s) && Enabled(s, a)
    ensures Linear(Next(s, a))
  {
    hide Apply, ApplyAll, EmptyLoop, SameLoop;
    if a.DrainOne? {
      DrainIsLinear(s, a);
    } else if a.Append? {
      AppendIsLinear(s, a);
    }
  }

  // ---------------------------------------------------------------------
  // Wake-ups
  // ---------------------------------------------------------------------

  /** A thread that has appended and will still wake the owner or drain. */
  predicate InFlight(pc: PC) {
    pc.Appended? || pc.Waking? || pc.WantDrain? || pc.Draining?
  }

  /** The owner has left its poll and drains before the next one. */
  predicate WillDrain(o: Outer) {
    o.Dispatching? || o.LoopDrain?
  }

  /** Pending work is always noticed: by a thread under way, by an unread byte, or by the loop on its way to a drain. */
  ghost predicate NoLostWakeup(s: State) {
    s.pending != [] ==>
      || s.bytes > 0
      || WillDrain(s.outer)
      || exists t :: 0 <= t < |s.pcs| && InFlight(s.pcs[t])
  }

  lemma WakeupKept(s: State, a: Action)
    requires WellFormed(s) && Exclusive(s) && OuterOk(s) && Linear(s) && NoLostWakeup(s) && Enabled(s, a)
    ensures NoLostWakeup(Next(s, a))
  {
    hide Apply, ApplyAll;
    var n := Next(s, a);
    var u := a.Actor();
    if exists t :: 0 <= t < |s.pcs| && InFlight(s.pcs[t]) {
      var t :| 0 <= t < |s.pcs| && InFlight(s.pcs[t]);
      assert t != u ==> n.pcs[t] == s.pcs[t];
    }
    assert InFlight(n.pcs[u]) || a.Acquire? || a.Wake? || a.StartLoop? || a.Dispatch? || a.ReadByte?
           || a.DrainFinish? || a.DrainRelease?;
  }

  // ---------------------------------------------------------------------
  // All runs
  // ---------------------------------------------------------------------

  ghost predicate Inv(s: State) {
    WellFormed(s) && Exclusive(s) && OuterOk(s) && Linear(s) && NoLostWakeup(s)
  }

  lemma InitInv(threads: nat)
    requires threads > 0
    ensures Inv(Init(threads))
  {
  }

  lemma StepKeepsInv(s: State, a: Action)
    requires Inv(s) && Enabled(s, a)
    ensures Inv(Next(s, a)) && |Next(s, a).pcs| == |s.pcs|
    ensures s.history <= Next(s, a).history && s.applied <= Next(s, a).applied
  {
    hide Exclusive, OuterOk, Linear, NoLostWakeup;
    ExclusiveKept(s, a);
    LinearKept(s, a);
    WakeupKept(s, a);
  }

  lemma {:induction false} RunKeepsInv(s: State, actions: seq<Action>, t: State)
    requires Inv(s) && Run(s, actions, t)
    ensures Inv(t) && |t.pcs| == |s.pcs| && s.history <= t.history && s.applied <= t.applied
    decreases |actions|
  {
    hide Inv, Next, Enabled;
    if actions != [] {
      StepKeepsInv(s, actions[0]);
      RunKeepsInv(Next(s, actions[0]), actions[1..], t);
    }
  }

  /**
   On every interleaving: at most one thread has the mutex, only the owner drains, the assertion
   on the flag holds, nothing is lost or reordered, and the owner never sleeps in its poll with
   work left that nobody is going to announce.
   */
  lemma Safety(threads: nat, actions: seq<Action>, s: State)
    requires threads > 0 && Run(Init(threads), actions, s)
    ensures WellFormed(s) && |s.pcs| == threads
    ensures forall t, u :: 0 <= t < u < |s.pcs| ==> !(HasMutex(s.pcs[t]) && HasMutex(s.pcs[u]))
    ensures forall t :: 0 <= t < |s.pcs| && InDrain(s.pcs[t]) ==> t == OWNER
    ensures !s.assertionFailed
    ensures Cursor(s) <= |s.pending| && s.applied + s.pending[Cursor(s)..] == s.history
    ensures SameLoop(s.loop, ApplyAll(EmptyLoop(), s.applied))
    ensures s.pending != [] && s.outer == Polling && s.bytes == 0
            ==> exists t :: 0 <= t < |s.pcs| && t != OWNER && (s.pcs[t].Appended? || s.pcs[t].Waking?)
  {
    hide Apply, ApplyAll, Next, Enabled, Run, EmptyLoop;
    InitInv(threads);
    RunKeepsInv(Init(threads), actions, s);
  }

  /** The assertion is evaluated at every append, and a failure is never forgotten. */
  lemma AssertionIsChecked(s: State, a: Action)
    requires WellFormed(s) && Enabled(s, a)
    ensures Next(s, a).assertionFailed <==> s.assertionFailed || (a.Append? && s.handlePending)
    ensures a.DrainAcquire? ==> Next(s, a).handlePending
    ensures !a.DrainAcquire? && !a.DrainFinish? ==> Next(s, a).handlePending == s.handlePending
  {
    hide Apply;
  }

  /** The pending list, the flag and the map change only in the hands of the thread that has the mutex. */
  lemma Guarded(s: State, a: Action)
    requires Inv(s) && Enabled(s, a)
    ensures var n := Next(s, a);
            (n.pending, n.history, n.loop, n.applied) != (s.pending, s.history, s.loop, s.applied)
            ==> s.mutex == Some(a.Actor())
    ensures Next(s, a).handlePending != s.handlePending ==> Next(s, a).mutex == Some(a.Actor())
  {
    hide Apply, ApplyAll, Linear, NoLostWakeup;
  }

  // ---------------------------------------------------------------------
  // What was asked for
  // ---------------------------------------------------------------------

  /** The operations that the threads came in with, in the order in which they got the mutex. */
  function Asked(actions: seq<Action>): seq<Op> {
    if actions == [] then []
    else (if actions[0].Acquire? then [actions[0].op] else []) + Asked(actions[1..])
  }

  /** The operation of the thread that has the mutex and has not appended it yet. */
  function InHand(s: State): seq<Op> {
    if s.mutex.Some? && s.mutex.value < |s.pcs| && s.pcs[s.mutex.value].Holding?
    then [s.pcs[s.mutex.value].op]
    else []
  }

  lemma StepRecords(s: State, a: Action)
    requires Inv(s) && Enabled(s, a)
    ensures Next(s, a).history + InHand(Next(s, a))
         == s.history + InHand(s) + (if a.Acquire? then [a.op] else [])
  {
    hide Apply, Linear, NoLostWakeup, OuterOk;
    if a.Append? {
      assert HasMutex(s.pcs[a.t]);
    } else if a.Release? || a.DrainRelease? {
      assert HasMutex(s.pcs[a.t]);
    }
  }

  /** The history lists what was asked for and nothing else, in lock order. */
  lemma {:induction false} RunRecords(s: State, actions: seq<Action>, t: State)
    requires Inv(s) && Run(s, actions, t)
    ensures t.history + InHand(t) == s.history + InHand(s) + Asked(actions)
    decreases |actions|
  {
    hide Inv, Next, Enabled, InHand;
    if actions != [] {
      var a := actions[0];
      StepKeepsInv(s, a);
      StepRecords(s, a);
      RunRecords(Next(s, a), actions[1..], t);
      var now := if a.Acquire? then [a.op] else [];
      assert s.history + InHand(s) + now + Asked(actions[1..]) == s.history + InHand(s) + (now + Asked(actions[1..]));
    } else {
      assert s.history + InHand(s) + [] == s.history + InHand(s);
    }
  }

  /** At rest, exactly the operations asked for have been applied, in the order of the lock. */
  lemma RestIsAllAsked(threads: nat, actions: seq<Action>, s: State)
    requires threads > 0 && Run(Init(threads), actions, s) && Quiescent(s)
    ensures s.applied == s.history == Asked(actions)
    ensures SameLoop(s.loop, ApplyAll(EmptyLoop(), Asked(actions)))
  {
    hide Run, Next, Enabled, Apply, ApplyAll, EmptyLoop;
    InitInv(threads);
    RunKeepsInv(Init(threads), actions, s);
    RunRecords(Init(threads), actions, s);
    RestIsDone(s);
    NothingInHand(s);
    assert [] + [] + Asked(actions) == Asked(actions);
    assert s.history + [] == s.history;
  }

  lemma NothingInHand(s: State)
    requires Quiescent(s)
    ensures InHand(s) == []
  {
  }

  // ---------------------------------------------------------------------
  // Wake-up bytes
  // ---------------------------------------------------------------------

  function Count(actions: seq<Action>, kind: Action -> bool): nat {
    if actions == [] then 0 else (if kind(actions[0]) then 1 else 0) + Count(actions[1..], kind)
  }

  /** The other threads that have appended and not woken the owner yet. */
  function Owing(pcs: seq<PC>, from: nat): nat
    requires from <= |pcs|
    decreases |pcs| - from
  {
    if from == |pcs| then 0
    else (if from != OWNER && (pcs[from].Appended? || pcs[from].Waking?) then 1 else 0) + Owing(pcs, from + 1)
  }

  lemma {:induction false} OwingUpdate(pcs: seq<PC>, from: nat, t: nat, pc: PC)
    requires from <= |pcs| && t < |pcs|
    ensures Owing(pcs[t := pc], from)
         == if t < from || t == OWNER then Owing(pcs, from)
            else Owing(pcs, from) - (if pcs[t].Appended? || pcs[t].Waking? then 1 else 0)
                 + (if pc.Appended? || pc.Waking? then 1 else 0)
    decreases |pcs| - from
  {
    if from < |pcs| {
      OwingUpdate(pcs, from + 1, t, pc);
    }
  }

  /** One byte is written for each append of another thread, and the owner reads one at a time. */
  lemma StepCounts(s: State, a: Action)
    requires Inv(s) && Enabled(s, a)
    ensures Next(s, a).bytes + Owing(Next(s, a).pcs, 0) + (if a.ReadByte? then 1 else 0)
         == s.bytes + Owing(s.pcs, 0) + (if a.Append? && a.t != OWNER then 1 else 0)
  {
    hide Apply, Linear, NoLostWakeup, Owing;
    var n, t := Next(s, a), a.Actor();
    assert n.pcs == s.pcs[t := n.pcs[t]];
    OwingUpdate(s.pcs, 0, t, n.pcs[t]);
  }

  predicate IsRead(a: Action) {
    a.ReadByte?
  }

  predicate IsOthersAppend(a: Action) {
    a.Append? && a.t != OWNER
  }

  /** Over every run no wake-up byte is lost and none comes from nowhere. */
  lemma {:induction false} BytesConserved(s: State, actions: seq<Action>, t: State)
    requires Inv(s) && Run(s, actions, t)
    ensures t.bytes + Owing(t.pcs, 0) + Count(actions, IsRead)
         == s.bytes + Owing(s.pcs, 0) + Count(actions, IsOthersAppend)
    decreases |actions|
  {
    hide Inv, Next, Enabled, Owing;
    if actions != [] {
      StepKeepsInv(s, actions[0]);
      StepCounts(s, actions[0]);
      BytesConserved(Next(s, actions[0]), actions[1..], t);
    }
  }

  predicate IsWoken(a: Action) {
    a == Dispatch(true)
  }

  function Unread(o: Outer): nat {
    if o == Dispatching(true) then 1 else 0
  }

  /** Each report of the wake-up socket is followed by one read, before the next poll. */
  lemma {:induction false} ReadsFollowReports(s: State, actions: seq<Action>, t: State)
    requires Inv(s) && Run(s, actions, t)
    ensures Count(actions, IsRead) + Unread(t.outer) == Count(actions, IsWoken) + Unread(s.outer)
    decreases |actions|
  {
    hide Inv, Apply;
    if actions != [] {
      StepKeepsInv(s, actions[0]);
      ReadsFollowReports(Next(s, actions[0]), actions[1..], t);
    }
  }

  // ---------------------------------------------------------------------
  // Progress
  // ---------------------------------------------------------------------

  /** Nobody is under way and the owner sleeps in its poll. */
  ghost predicate Quiescent(s: State) {
    s.outer == Polling && s.bytes == 0 && forall t :: 0 <= t < |s.pcs| ==> s.pcs[t].Idle?
  }

  /** What a thread has left to do, with 6 for the byte that is still to come. */
  function Rank(pc: PC): nat {
    match pc
    case Idle => 0
    case Holding(_) => 10
    case Appended => 8
    case Waking => 7
    case WantDrain => 3
    case Draining(_) => 2
    case Cleared => 1
  }

  function Ranks(pcs: seq<PC>): nat {
    if pcs == [] then 0 else Rank(pcs[0]) + Ranks(pcs[1..])
  }

  lemma {:induction false} RanksUpdate(pcs: seq<PC>, t: nat, pc: PC)
    requires t < |pcs|
    ensures Ranks(pcs[t := pc]) == Ranks(pcs) - Rank(pcs[t]) + Rank(pc)
    decreases t
  {
    hide Rank;
    if t > 0 {
      RanksUpdate(pcs[1..], t - 1, pc);
      assert pcs[t := pc][1..] == pcs[1..][t - 1 := pc];
    }
  }

  /** A byte costs the owner one more round: a poll, a read, a drain. */
  ghost function Measure(s: State): nat
    requires Inv(s)
  {
    Ranks(s.pcs) + |s.pending| - Cursor(s) + 6 * s.bytes
    + match s.outer
      case Setup => 1
      case Polling => 0
      case Dispatching(mustRead) => if mustRead then -1 else 4
      case LoopDrain => 0
  }

  /** Carrying on always makes progress. */
  lemma Progress(s: State, a: Action)
    requires Inv(s) && Enabled(s, a) && a.Internal()
    ensures Inv(Next(s, a)) && Measure(Next(s, a)) < Measure(s)
  {
    hide Apply, ApplyAll, Ranks, Linear, NoLostWakeup, SameLoop;
    StepKeepsInv(s, a);
    var n := Next(s, a);
    assert n.pcs == s.pcs[a.Actor() := n.pcs[a.Actor()]];
    RanksUpdate(s.pcs, a.Actor(), n.pcs[a.Actor()]);
    CursorInside(s);
    CursorInside(n);
  }

  lemma CursorInside(s: State)
    requires Inv(s)
    ensures Cursor(s) <= |s.pending| && (s.pcs[OWNER].Cleared? ==> s.pending == [])
  {
  }

  /** The next action of a thread that is under way. */
  function Continue(t: nat, pc: PC, pending: nat): Action
    requires !pc.Idle?
  {
    match pc
    case Holding(_) => Append(t)
    case Appended => Release(t)
    case Waking => Wake(t)
    case WantDrain => DrainAcquire(t)
    case Draining(k) => if k < pending then DrainOne(t) else DrainFinish(t)
    case Cleared => DrainRelease(t)
  }

  /** There is a way to carry on exactly until everything is at rest: the mutex never blocks all threads. */
  lemma NoDeadlock(s: State) returns (a: Action)
    requires Inv(s)
    ensures !Quiescent(s) ==> a.Internal() && Enabled(s, a)
    ensures Quiescent(s) ==> forall b: Action :: Enabled(s, b) ==> !b.Internal()
  {
    hide Linear, NoLostWakeup;
    if s.mutex.Some? {
      var u := s.mutex.value;
      a := Continue(u, s.pcs[u], |s.pending|);
    } else if t :| 0 <= t < |s.pcs| && !s.pcs[t].Idle? {
      a := Continue(t, s.pcs[t], |s.pending|);
    } else {
      a := if s.outer.Setup? then StartLoop
           else if s.outer.Polling? then Dispatch(true)
           else if s.outer == Dispatching(true) then ReadByte
           else EndDispatch;
    }
  }

  /** At rest, every operation ever appended has been applied, in order. */
  lemma RestIsDone(s: State)
    requires Inv(s) && Quiescent(s)
    ensures s.pending == [] && s.applied == s.history
    ensures SameLoop(s.loop, ApplyAll(EmptyLoop(), s.history))
  {
    hide ApplyAll, Exclusive, EmptyLoop;
    assert s.applied + [] == s.applied;
  }

  /** However the threads are scheduled, the work begun takes a bounded number of actions. */
  lemma {:induction false} EveryRunSettles(s: State, actions: seq<Action>, t: State)
    requires Inv(s) && Run(s, actions, t)
    requires forall i :: 0 <= i < |actions| ==> actions[i].Internal()
    ensures Inv(t) && |actions| + Measure(t) <= Measure(s)
    decreases |actions|
  {
    hide Inv, Next, Enabled, Measure;
    if actions != [] {
      Progress(s, actions[0]);
      EveryRunSettles(Next(s, actions[0]), actions[1..], t);
    }
  }

  /** From every reachable state the work begun can be finished, and then it has been applied. */
  lemma {:induction false} CanSettle(s: State) returns (actions: seq<Action>, t: State)
    requires Inv(s)
    ensures Run(s, actions, t) && forall i :: 0 <= i < |actions| ==> actions[i].Internal()
    ensures Inv(t) && Quiescent(t) && s.history <= t.history == t.applied
    decreases Measure(s)
  {
    hide Exclusive, OuterOk, Linear, NoLostWakeup, Next, Enabled, Measure, Quiescent;
    var a := NoDeadlock(s);
    if Quiescent(s) {
      RestIsDone(s);
      return [], s;
    }
    Progress(s, a);
    StepKeepsInv(s, a);
    var rest;
    rest, t := CanSettle(Next(s, a));
    actions := [a] + rest;
    assert actions[1..] == rest;
  }

  // ---------------------------------------------------------------------
  // What is possible
  // ---------------------------------------------------------------------

  lemma {:induction false} RunMore(s: State, first: seq<Action>, t: State, later: seq<Action>, u: State)
    requires Run(s, first, t) && Run(t, later, u)
    ensures Run(s, first + later, u) && Asked(first + later) == Asked(first) + Asked(later)
    decreases |first|
  {
    hide Next, Enabled;
    if first == [] {
      assert first + later == later;
    } else {
      assert (first + later)[1..] == first[1..] + later;
      RunMore(Next(s, first[0]), first[1..], t, later, u);
    }
  }

  lemma {:induction false} InternalAsksNothing(actions: seq<Action>)
    requires forall i :: 0 <= i < |actions| ==> actions[i].Internal()
    ensures Asked(actions) == []
  {
    if actions != [] {
      assert actions[0].Internal();
      InternalAsksNothing(actions[1..]);
    }
  }

  /**
   A thread that is idle may come in with any operation whenever the mutex is free, the owner
   while it sets up or dispatches.
   */
  lemma MayComeIn(s: State, t: nat, op: Op)
    requires Inv(s) && t < |s.pcs| && s.pcs[t].Idle? && s.mutex.None?
    requires t != OWNER || s.outer.Setup? || s.outer.Dispatching?
    ensures Enabled(s, Acquire(t, op)) && InHand(Next(s, Acquire(t, op))) == [op]
  {
  }

  /** The poll may return without a wake-up, for another descriptor or by its time running out. */
  lemma MayReturn(s: State)
    requires Inv(s) && s.outer.Polling?
    ensures Enabled(s, Dispatch(false)) && Next(s, Dispatch(false)).outer == Dispatching(false)
  {
  }

  datatype Ask = Ask(thread: nat, op: Op)

  function OpsOf(asks: seq<Ask>): seq<Op> {
    if asks == [] then [] else [asks[0].op] + OpsOf(asks[1..])
  }

  /** Whatever the other threads ask for, in any order, there is a run in which all of it is applied. */
  lemma {:induction false} AnyOrderPossible(threads: nat, asks: seq<Ask>) returns (actions: seq<Action>, s: State)
    requires threads > 0
    requires forall k :: 0 <= k < |asks| ==> OWNER < asks[k].thread < threads
    ensures Run(Init(threads), actions, s) && Quiescent(s) && |s.pcs| == threads
    ensures Asked(actions) == OpsOf(asks) == s.applied
    decreases |asks|
  {
    hide Next, Enabled, Inv, Quiescent, Run;
    InitInv(threads);
    if asks == [] {
      actions, s := CanSettle(Init(threads));
      InternalAsksNothing(actions);
      RunKeepsInv(Init(threads), actions, s);
    } else {
      var n := |asks| - 1;
      var before, t := AnyOrderPossible(threads, asks[..n]);
      var more;
      RunKeepsInv(Init(threads), before, t);
      more, s := OneAsk(t, asks[n]);
      actions := before + more;
      RunMore(Init(threads), before, t, more, s);
      LastAsk(asks);
      RunKeepsInv(t, more, s);
    }
    RestIsAllAsked(threads, actions, s);
  }

  lemma {:induction false} LastAsk(asks: seq<Ask>)
    requires asks != []
    ensures OpsOf(asks) == OpsOf(asks[..|asks| - 1]) + [asks[|asks| - 1].op]
    decreases |asks|
  {
    if |asks| > 1 {
      LastAsk(asks[1..]);
      assert asks[1..][..|asks| - 2] == asks[..|asks| - 1][1..];
    }
  }

  lemma MutexFreeAtRest(s: State)
    requires Inv(s) && Quiescent(s)
    ensures s.mutex.None?
  {
  }

  lemma OneAsk(s: State, ask: Ask) returns (actions: seq<Action>, t: State)
    requires Inv(s) && Quiescent(s) && OWNER < ask.thread < |s.pcs|
    ensures Run(s, actions, t) && Quiescent(t) && Asked(actions) == [ask.op]
  {
    hide Next, Linear, NoLostWakeup;
    var a := Acquire(ask.thread, ask.op);
    MutexFreeAtRest(s);
    MayComeIn(s, ask.thread, ask.op);
    StepKeepsInv(s, a);
    var rest;
    rest, t := CanSettle(Next(s, a));
    actions := [a] + rest;
    InternalAsksNothing(rest);
    assert actions[1..] == rest;
  }

  // ---------------------------------------------------------------------
  // The index agrees on every interleaving
  // ---------------------------------------------------------------------

  lemma {:induction false} DisciplinedPrefix(m: Interest, ops: seq<Op>, more: seq<Op>)
    requires Disciplined(m, ops + more)
    ensures Disciplined(m, ops)
    decreases |ops|
  {
    hide Fits, Register;
    if ops != [] {
      assert (ops + more)[1..] == ops[1..] + more;
      DisciplinedPrefix(Register(m, ops[0]), ops[1..], more);
    }
  }

  /**
   While the operations, in the order of the lock, stay within the table and name registered
   descriptors, the loop never faults, and at every moment its map and its slots are those of
   the operations applied so far.
   */
  lemma AgreesThroughout(threads: nat, actions: seq<Action>, s: State)
    requires threads > 0 && Run(Init(threads), actions, s) && Disciplined(map[], s.history)
    ensures s.loop.Applied? && Agree(s.loop.loop, RegisterAll(map[], s.applied))
  {
    hide Apply, ApplyAll, Run, EmptyLoop, Agree, RegisterAll, Disciplined;
    Safety(threads, actions, s);
    DisciplinedPrefix(map[], s.applied, s.pending[Cursor(s)..]);
    EmptyAgrees();
    RunAgrees(EmptyLoop(), map[], s.applied);
  }
}
