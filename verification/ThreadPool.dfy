/**
 Starting the pool of event-loop threads (thread_pool.c and the end of event_loop.c): the
 starter creates one thread after the other, and waits on that thread's own mutex and condition
 variable until it has published its event loop. Then the pool hands the loops out in turn.
 */
module ThreadPools {
  import opened Options

  /** Who has a cell's mutex. */
  datatype Holder = Nobody | Starter | Worker

  /** event_loop_thread_run. */
  datatype WorkerPC = NotCreated | WantLock | Initialising | Signalling | Unlocking | Running

  /** event_loop_thread_start for thread number `next`. */
  datatype StarterPC = Creating | WantLock | Testing | EnteringWait | Asleep | WantRelock | Unlocking | Reading

  /** event_loop_thread_struc; the loop of thread k is written as k, a null loop as None. */
  datatype Cell = Cell(pc: WorkerPC, mutex: Holder, loop: Option<nat>)

  datatype State = State(cells: seq<Cell>, next: nat, pc: StarterPC, results: seq<Option<nat>>)

  datatype Action =
    | Create | Lock | Test | Wait | Spurious | Relock | Unlock | Return
    | WorkerLock(k: nat) | WorkerInit(k: nat) | WorkerSignal(k: nat) | WorkerUnlock(k: nat)
  {
    predicate OfWorker() {
      WorkerLock? || WorkerInit? || WorkerSignal? || WorkerUnlock?
    }
  }

  function Init(threads: nat): State {
    State(seq(threads, _ => Cell(NotCreated, Nobody, None)), 0, Creating, [])
  }

  predicate Enabled(s: State, a: Action) {
    if a.OfWorker() then
      a.k < |s.cells| && WorkerReady(s.cells[a.k], a)
    else
      s.next < |s.cells| && StarterReady(s.pc, s.cells[s.next], a)
  }

  predicate WorkerReady(c: Cell, a: Action) {
    match a
    case WorkerLock(_) => c.pc.WantLock? && c.mutex.Nobody?
    case WorkerInit(_) => c.pc.Initialising?
    case WorkerSignal(_) => c.pc.Signalling?
    case _ => c.pc.Unlocking?
  }

  predicate StarterReady(pc: StarterPC, c: Cell, a: Action) {
    match a
    case Create => pc.Creating?
    case Lock => pc.WantLock? && c.mutex.Nobody?
    case Test => pc.Testing?
    case Wait => pc.EnteringWait?
    case Spurious => pc.Asleep?
    case Relock => pc.WantRelock? && c.mutex.Nobody?
    case Unlock => pc.Unlocking?
    case _ => pc.Reading?
  }

  function Put(s: State, k: nat, c: Cell): State
    requires k < |s.cells|
  {
    s.(cells := s.cells[k := c])
  }

  function Next(s: State, a: Action): State
    requires Enabled(s, a)
  {
    match a
    case Create => Put(s, s.next, s.cells[s.next].(pc := WorkerPC.WantLock)).(pc := StarterPC.WantLock)
    case Lock => Put(s, s.next, s.cells[s.next].(mutex := Starter)).(pc := Testing)
    case Test => s.(pc := if s.cells[s.next].loop.None? then EnteringWait else StarterPC.Unlocking)
    // The wait gives up the mutex and falls asleep in one step, and may wake without a signal.
    case Wait => Put(s, s.next, s.cells[s.next].(mutex := Nobody)).(pc := Asleep)
    case Spurious => s.(pc := WantRelock)
    case Relock => Put(s, s.next, s.cells[s.next].(mutex := Starter)).(pc := Testing)
    case Unlock => Put(s, s.next, s.cells[s.next].(mutex := Nobody)).(pc := Reading)
    case Return => s.(results := s.results + [s.cells[s.next].loop], next := s.next + 1, pc := Creating)
    case WorkerLock(k) => Put(s, k, s.cells[k].(pc := Initialising, mutex := Worker))
    case WorkerInit(k) => Put(s, k, s.cells[k].(pc := Signalling, loop := Some(k)))
    // A signal wakes a starter that sleeps on this condition variable, and is lost otherwise.
    case WorkerSignal(k) =>
      Put(s, k, s.cells[k].(pc := WorkerPC.Unlocking)).(pc := if k == s.next && s.pc.Asleep? then WantRelock else s.pc)
    case WorkerUnlock(k) => Put(s, k, s.cells[k].(pc := Running, mutex := Nobody))
  }

  ghost predicate Run(s: State, actions: seq<Action>, t: State)
    decreases |actions|
  {
    if actions == [] then s == t
    else Enabled(s, actions[0]) && Run(Next(s, actions[0]), actions[1..], t)
  }

  // ---------------------------------------------------------------------
  // Safety
  // ---------------------------------------------------------------------

  predicate WorkerHolds(pc: WorkerPC) {
    pc.Initialising? || pc.Signalling? || pc.Unlocking?
  }

  predicate StarterHolds(pc: StarterPC) {
    pc.Testing? || pc.EnteringWait? || pc.Unlocking?
  }

  predicate Published(pc: WorkerPC) {
    pc.Signalling? || pc.Unlocking? || pc.Running?
  }

  /** The signal of this thread is still to come. */
  predicate SignalAhead(pc: WorkerPC) {
    pc.WantLock? || pc.Initialising? || pc.Signalling?
  }

  /** `starter` says whether the starter has this cell's mutex. */
  predicate CellOk(c: Cell, k: nat, starter: bool) {
    && (c.mutex.Worker? <==> WorkerHolds(c.pc))
    && (c.mutex.Starter? <==> starter)
    && c.loop == if Published(c.pc) then Some(k) else None
  }

  ghost predicate Inv(s: State) {
    && s.next <= |s.cells|
    && (s.next == |s.cells| ==> s.pc.Creating?)
    && (forall k :: 0 <= k < |s.cells| ==> CellOk(s.cells[k], k, k == s.next && StarterHolds(s.pc)))
    && (forall k :: 0 <= k < s.next ==> Published(s.cells[k].pc))
    && (forall k :: s.next < k < |s.cells| ==> s.cells[k].pc.NotCreated?)
    && (s.next < |s.cells| ==> StarterOk(s.pc, s.cells[s.next]))
    && |s.results| == s.next
    && (forall k :: 0 <= k < s.next ==> s.results[k] == Some(k))
  }

  /** Entering the wait or asleep, the starter can still count on the signal. */
  predicate StarterOk(pc: StarterPC, c: Cell) {
    && (pc.Creating? <==> c.pc.NotCreated?)
    && (pc.EnteringWait? || pc.Asleep? ==> SignalAhead(c.pc))
    && (pc.Unlocking? || pc.Reading? ==> c.loop.Some?)
  }

  lemma WorkerKeepsInv(s: State, a: Action)
    requires Inv(s) && Enabled(s, a) && a.OfWorker()
    ensures Inv(Next(s, a)) && |Next(s, a).cells| == |s.cells|
  {
    var n := Next(s, a);
    assert CellOk(s.cells[a.k], a.k, a.k == s.next && StarterHolds(s.pc));
    assert CellOk(n.cells[a.k], a.k, a.k == n.next && StarterHolds(n.pc));
    hide CellOk;
  }

  lemma StarterKeepsInv(s: State, a: Action)
    requires Inv(s) && Enabled(s, a) && !a.OfWorker()
    ensures Inv(Next(s, a)) && |Next(s, a).cells| == |s.cells|
  {
    var n := Next(s, a);
    assert CellOk(s.cells[s.next], s.next, StarterHolds(s.pc));
    assert CellOk(n.cells[s.next], s.next, s.next == n.next && StarterHolds(n.pc));
    hide CellOk;
  }

  lemma StepKeepsInv(s: State, a: Action)
    requires Inv(s) && Enabled(s, a)
    ensures Inv(Next(s, a)) && |Next(s, a).cells| == |s.cells|
  {
    hide Inv, Next, Enabled;
    if a.OfWorker() {
      WorkerKeepsInv(s, a);
    } else {
      StarterKeepsInv(s, a);
    }
  }

  lemma {:induction false} RunKeepsInv(s: State, actions: seq<Action>, t: State)
    requires Inv(s) && Run(s, actions, t)
    ensures Inv(t) && |t.cells| == |s.cells|
    decreases |actions|
  {
    hide Inv, Next, Enabled;
    if actions != [] {
      StepKeepsInv(s, actions[0]);
      RunKeepsInv(Next(s, actions[0]), actions[1..], t);
    }
  }

  /**
   On every interleaving, spurious wake-ups included: each start returns that thread's own loop,
   never null, and the starter never sleeps, or goes to sleep, once the only signal has been sent.
   */
  lemma Handshake(threads: nat, actions: seq<Action>, s: State)
    requires Run(Init(threads), actions, s)
    ensures |s.cells| == threads && |s.results| == s.next <= threads
    ensures forall k :: 0 <= k < |s.results| ==> s.results[k] == Some(k) == s.cells[k].loop
    ensures s.next < threads && (s.pc.EnteringWait? || s.pc.Asleep?) ==> SignalAhead(s.cells[s.next].pc)
  {
    hide Next, Enabled, Run;
    RunKeepsInv(Init(threads), actions, s);
  }

  /** The wait may end at any time without a signal; the starter then wants the mutex and tests again. */
  lemma SpuriousPossible(s: State)
    requires Inv(s) && s.next < |s.cells| && s.pc.Asleep?
    ensures Enabled(s, Spurious) && Next(s, Spurious) == s.(pc := WantRelock)
  {
  }

  /** Before its loop is published a starter can wake for nothing and wait again, any number of times. */
  lemma WaitsAgain(s: State)
    requires Inv(s) && s.next < |s.cells| && s.pc.Asleep?
    requires s.cells[s.next].loop.None? && s.cells[s.next].mutex.Nobody?
    ensures Run(s, [Spurious, Relock, Test, Wait], s)
  {
    var held := Put(s, s.next, s.cells[s.next].(mutex := Starter));
    assert Next(s.(pc := WantRelock), Relock) == held.(pc := Testing);
    assert Next(held.(pc := Testing), Test) == held.(pc := EnteringWait);
    assert Next(held.(pc := EnteringWait), Wait) == s by {
      assert held.cells[s.next := s.cells[s.next]] == s.cells;
    }
    hide Run, Next, Inv, Put;
    NoAction(s);
    OneAction(held.(pc := EnteringWait), Wait, [], s);
    OneAction(held.(pc := Testing), Test, [Wait], s);
    OneAction(s.(pc := WantRelock), Relock, [Test, Wait], s);
    SpuriousIs(s);
    OneAction(s, Spurious, [Relock, Test, Wait], s);
  }

  lemma SpuriousIs(s: State)
    requires s.next < |s.cells| && s.pc.Asleep?
    ensures Next(s, Spurious) == s.(pc := WantRelock)
  {
  }

  lemma NoAction(s: State)
    ensures Run(s, [], s)
  {
  }

  /** And it does get to wait: when it has the mutex before the thread it created. */
  lemma StarterCanWait()
    ensures var t := State([Cell(WorkerPC.WantLock, Nobody, None)], 0, Asleep, []);
            Run(Init(1), [Create, Lock, Test, Wait], t)
  {
    var free, held := Cell(WorkerPC.WantLock, Nobody, None), Cell(WorkerPC.WantLock, Starter, None);
    var t := State([free], 0, Asleep, []);
    assert Init(1).cells == [Cell(NotCreated, Nobody, None)];
    var created := State([free], 0, StarterPC.WantLock, []);
    var testing, entering := State([held], 0, Testing, []), State([held], 0, EnteringWait, []);
    assert Next(Init(1), Create) == created;
    assert Next(created, Lock) == testing && Next(testing, Test) == entering && Next(entering, Wait) == t;
    hide Run, Next, Init, Put;
    NoAction(t);
    OneAction(entering, Wait, [], t);
    OneAction(testing, Test, [Wait], t);
    OneAction(created, Lock, [Test, Wait], t);
    OneAction(Init(1), Create, [Lock, Test, Wait], t);
  }

  lemma OneAction(s: State, a: Action, later: seq<Action>, t: State)
    requires Enabled(s, a) && Run(Next(s, a), later, t)
    ensures Run(s, [a] + later, t)
  {
    assert ([a] + later)[1..] == later;
  }

  /** What a start returns is what it reads from the thread's record after it has given up the mutex. */
  lemma ReturnReads(s: State)
    requires Enabled(s, Return)
    ensures Next(s, Return).results == s.results + [s.cells[s.next].loop] && Next(s, Return).cells == s.cells
  {
  }

  // ---------------------------------------------------------------------
  // Progress
  // ---------------------------------------------------------------------

  predicate Started(s: State) {
    s.next == |s.cells| && forall k :: 0 <= k < |s.cells| ==> s.cells[k].pc.Running?
  }

  /** Without relying on a spurious wake-up, something can always go on until the pool is up. */
  lemma NoDeadlock(s: State) returns (a: Action)
    requires Inv(s)
    ensures !Started(s) ==> Enabled(s, a) && !a.Spurious?
    ensures Started(s) ==> forall b: Action :: !Enabled(s, b)
  {
    a := Create;
    if k :| 0 <= k < |s.cells| && SignalAhead(s.cells[k].pc) && CanMove(s.cells[k]) {
      a := WorkerAction(k, s.cells[k].pc);
    } else if k :| 0 <= k < |s.cells| && s.cells[k].pc.Unlocking? {
      a := WorkerUnlock(k);
    } else if s.next < |s.cells| {
      var c := s.cells[s.next];
      assert CellOk(c, s.next, StarterHolds(s.pc));
      assert !(SignalAhead(c.pc) && CanMove(c)) && !c.pc.Unlocking?;
      a := StarterAction(s.pc);
    } else {
      forall k | 0 <= k < |s.cells|
        ensures s.cells[k].pc.Running?
      {
        assert CellOk(s.cells[k], k, false);
      }
    }
  }

  predicate CanMove(c: Cell) {
    c.pc.WantLock? ==> c.mutex.Nobody?
  }

  function WorkerAction(k: nat, pc: WorkerPC): Action {
    if pc.WantLock? then WorkerLock(k) else if pc.Initialising? then WorkerInit(k) else WorkerSignal(k)
  }

  function StarterAction(pc: StarterPC): Action {
    match pc
    case Creating => Create
    case WantLock => Lock
    case Testing => Test
    case EnteringWait => Wait
    case Asleep => Spurious
    case WantRelock => Relock
    case Unlocking => Unlock
    case Reading => Return
  }

  function WorkerRank(pc: WorkerPC): nat {
    match pc
    case NotCreated => 8
    case WantLock => 7
    case Initialising => 6
    case Signalling => 5
    case Unlocking => 1
    case Running => 0
  }

  function StarterRank(pc: StarterPC): nat {
    match pc
    case Creating => 9
    case WantLock => 8
    case WantRelock => 7
    case Testing => 6
    case EnteringWait => 5
    case Asleep => 4
    case Unlocking => 3
    case Reading => 2
  }

  function WorkerRanks(cells: seq<Cell>): nat {
    if cells == [] then 0 else WorkerRank(cells[0].pc) + WorkerRanks(cells[1..])
  }

  lemma {:induction false} RanksUpdate(cells: seq<Cell>, k: nat, c: Cell)
    requires k < |cells|
    ensures WorkerRanks(cells[k := c]) == WorkerRanks(cells) - WorkerRank(cells[k].pc) + WorkerRank(c.pc)
    decreases k
  {
    hide WorkerRank;
    if k > 0 {
      RanksUpdate(cells[1..], k - 1, c);
      assert cells[k := c][1..] == cells[1..][k - 1 := c];
    }
  }

  function Measure(s: State): nat
    requires s.next <= |s.cells|
  {
    10 * (|s.cells| - s.next) + StarterRank(s.pc) + WorkerRanks(s.cells)
  }

  lemma Progress(s: State, a: Action)
    requires Inv(s) && Enabled(s, a) && !a.Spurious?
    ensures Next(s, a).next <= |Next(s, a).cells| && Measure(Next(s, a)) < Measure(s)
  {
    hide WorkerRanks;
    StepKeepsInv(s, a);
    var n := Next(s, a);
    var k := if a.OfWorker() then a.k else s.next;
    if n.cells != s.cells {
      assert n.cells == s.cells[k := n.cells[k]];
      RanksUpdate(s.cells, k, n.cells[k]);
    }
  }

  /** However the threads are scheduled, the pool comes up. */
  lemma {:induction false} PoolComesUp(s: State) returns (actions: seq<Action>, t: State)
    requires Inv(s)
    ensures Run(s, actions, t) && Inv(t) && Started(t)
    ensures |t.results| == |t.cells| == |s.cells|
    decreases Measure(s)
  {
    hide Next, Enabled, Measure, StarterOk, CellOk;
    var a := NoDeadlock(s);
    if Started(s) {
      return [], s;
    }
    Progress(s, a);
    StepKeepsInv(s, a);
    var rest;
    rest, t := PoolComesUp(Next(s, a));
    actions := [a] + rest;
    assert actions[1..] == rest;
  }

  // ---------------------------------------------------------------------
  // Handing out the loops
  // ---------------------------------------------------------------------

  /** How often loop `j` is handed out by `k` calls on `n` loops, starting at `position`. */
  function Shares(n: nat, position: nat, k: nat, j: nat): nat
    requires position < n
    decreases k
  {
    if k == 0 then 0
    else (if position == j then 1 else 0) + Shares(n, Following(n, position), k - 1, j)
  }

  function Following(n: nat, position: nat): (after: nat)
    requires position < n
    ensures after < n
  {
    if position + 1 >= n then 0 else position + 1
  }

  /** The calls still needed until `j` comes up. */
  function Distance(n: nat, position: nat, j: nat): nat
    requires position < n && j < n
  {
    if j >= position then j - position else n - position + j
  }

  lemma {:induction false} ShareIs(n: nat, position: nat, k: nat, j: nat)
    requires position < n && j < n
    ensures n * Shares(n, position, k, j) <= k + n - 1 - Distance(n, position, j) < n * Shares(n, position, k, j) + n
    decreases k
  {
    if k > 0 {
      var next := Following(n, position);
      var share := Shares(n, next, k - 1, j);
      ShareIs(n, next, k - 1, j);
      assert Distance(n, next, j) == if position == j then n - 1 else Distance(n, position, j) - 1;
      assert n * (1 + share) == n + n * share;
      assert n * (0 + share) == n * share;
    }
  }

  /** Every loop gets its share of k calls, the quotient rounded down or up, wherever the turn starts. */
  lemma Fair(n: nat, position: nat, k: nat, j: nat)
    requires position < n && j < n
    ensures k - n < n * Shares(n, position, k, j) < k + n
  {
    ShareIs(n, position, k, j);
  }

  class ThreadPool<Loop> {
    const mainLoop: Loop
    const loops: seq<Loop>
    var position: nat

    predicate Valid()
      reads this
    {
      loops != [] ==> position < |loops|
    }

    constructor (mainLoop: Loop, loops: seq<Loop>)
      ensures Valid() && position == 0 && this.mainLoop == mainLoop && this.loops == loops
    {
      this.mainLoop, this.loops, position := mainLoop, loops, 0;
    }

    /** thread_pool_get_loop: without threads of its own the pool falls back on the main loop. */
    method GetLoop() returns (selected: Loop)
      requires Valid()
      modifies this`position
      ensures Valid()
      ensures selected == if loops == [] then mainLoop else loops[old(position)]
      ensures position == if loops == [] then old(position) else Following(|loops|, old(position))
    {
      selected := mainLoop;
      if |loops| > 0 {
        selected := loops[position];
        position := position + 1;
        if position >= |loops| {
          position := 0;
        }
      }
    }
  }
}
