/**
 Which descriptor a slot is handled for: the one that poll reported, or another one that a
 callback of the same sweep has put there.
 */
module DispatchSlots {
  import opened Options
  import opened Registration
  import opened Dispatch

  // ---------------------------------------------------------------------
  // What a list of operations does to one slot
  // ---------------------------------------------------------------------

  /** The operation adds a descriptor that is not in the map, and slot `j` is the first free one. */
  predicate Lands(l: Loop, op: Op, j: nat) {
    var fd := op.channel.fd;
    op.kind == 1 && fd >= 0 && (fd >= |l.channels| || l.channels[fd] == None) && Find(l.slots, -1) == j
  }

  /** The operation removes the descriptor that slot `j` holds. */
  predicate Frees(l: Loop, op: Op, j: nat) {
    var fd := op.channel.fd;
    op.kind == 2 && 0 <= fd < |l.channels|
    && l.channels[fd].Some? && l.channels[fd].value.fd >= 0 && Find(l.slots, l.channels[fd].value.fd) == j
  }

  lemma SlotStep(l: Loop, op: Op, j: nat)
    requires j < |l.slots| && Apply(l, op).Applied?
    ensures |Apply(l, op).loop.slots| == |l.slots|
    ensures Apply(l, op).loop.slots[j].fd
         == if Lands(l, op, j) then op.channel.fd else if Frees(l, op, j) then -1 else l.slots[j].fd
  {
    hide Find, Translate, Capacity;
    if op.channel.fd >= 0 {
      ExpandKeeps(l.channels, op.channel.fd);
    }
  }

  /** The same for the k-th of a list of operations, where that finds the loop. */
  predicate LandsAt(l: Loop, ops: seq<Op>, k: nat, j: nat)
    requires k < |ops|
  {
    ApplyAll(l, ops[..k]).Applied? && Lands(ApplyAll(l, ops[..k]).loop, ops[k], j)
  }

  predicate FreesAt(l: Loop, ops: seq<Op>, k: nat, j: nat)
    requires k < |ops|
  {
    ApplyAll(l, ops[..k]).Applied? && Frees(ApplyAll(l, ops[..k]).loop, ops[k], j)
  }

  /** One operation adds another descriptor in slot `j`, and none after it frees the slot again. */
  predicate Lasts(l: Loop, ops: seq<Op>, k: nat, j: nat)
    requires k < |ops| && j < |l.slots|
  {
    && LandsAt(l, ops, k, j)
    && ops[k].channel.fd != l.slots[j].fd
    && forall i :: k < i < |ops| ==> !FreesAt(l, ops, i, j)
  }

  ghost predicate TakenOver(l: Loop, ops: seq<Op>, j: nat)
    requires j < |l.slots|
  {
    exists k :: 0 <= k < |ops| && Lasts(l, ops, k, j)
  }

  lemma OneMoreLasts(l: Loop, ops: seq<Op>, op: Op, j: nat)
    requires j < |l.slots| && ApplyAll(l, ops).Applied?
    ensures var m, all := ApplyAll(l, ops).loop, ops + [op];
            TakenOver(l, all, j)
            <==> (Lands(m, op, j) && op.channel.fd != l.slots[j].fd) || (TakenOver(l, ops, j) && !Frees(m, op, j))
  {
    hide ApplyAll, Lands, Frees;
    var all, n := ops + [op], |ops|;
    assert all[..n] == ops;
    forall k | 0 <= k < n
      ensures LandsAt(l, all, k, j) == LandsAt(l, ops, k, j) && FreesAt(l, all, k, j) == FreesAt(l, ops, k, j)
    {
      assert all[..k] == ops[..k];
    }
    if TakenOver(l, ops, j) && !FreesAt(l, all, n, j) {
      var k :| 0 <= k < n && Lasts(l, ops, k, j);
      assert Lasts(l, all, k, j);
    }
    if LandsAt(l, all, n, j) && op.channel.fd != l.slots[j].fd {
      assert Lasts(l, all, n, j);
    }
    if k :| 0 <= k < |all| && Lasts(l, all, k, j) {
      if k < n {
        assert Lasts(l, ops, k, j);
        assert !FreesAt(l, all, n, j);
      }
    }
  }

  /** A slot ends up with a new descriptor exactly when one was added there and stayed. */
  lemma {:induction false} SlotHolds(l: Loop, ops: seq<Op>, j: nat)
    requires j < |l.slots| && ApplyAll(l, ops).Applied?
    ensures |ApplyAll(l, ops).loop.slots| == |l.slots|
    ensures var fd := ApplyAll(l, ops).loop.slots[j].fd;
            fd >= 0 && fd != l.slots[j].fd <==> TakenOver(l, ops, j)
    decreases |ops|
  {
    if ops != [] {
      var n := |ops| - 1;
      var before, op := ops[..n], ops[n];
      assert before + [op] == ops;
      ApplyOneMore(l, before, op);
      SlotHolds(l, before, j);
      OneMoreLasts(l, before, op, j);
      var m := ApplyAll(l, before).loop;
      SlotStep(m, op, j);
      assert Lands(m, op, j) ==> m.slots[j].fd < 0;
      assert Frees(m, op, j) ==> !Lands(m, op, j);
    }
  }

  // ---------------------------------------------------------------------
  // The operations drained before a slot's turn
  // ---------------------------------------------------------------------

  /** The operations that are drained while one slot is handled: those of the callbacks that run. */
  function Drained(l: Loop, fd: nat, r: Revents, b: Behaviour): seq<Op> {
    var o := ActivateIf(r.read, Applied(l, 0), fd, b.onRead);
    (if r.read && fd < |l.channels| then b.onRead else [])
    + (if r.write && o.Applied? && fd < |o.loop.channels| then b.onWrite else [])
  }

  lemma HandleDrains(l: Loop, fd: nat, r: Revents, b: Behaviour)
    requires HandleSlot(l, fd, r, b).Applied?
    ensures SameLoop(HandleSlot(l, fd, r, b), ApplyAll(l, Drained(l, fd, r, b)))
  {
    hide Apply;
    var o := ActivateIf(r.read, Applied(l, 0), fd, b.onRead);
    var first := if r.read && fd < |l.channels| then b.onRead else [];
    var second := if r.write && fd < |o.loop.channels| then b.onWrite else [];
    assert SameLoop(o, ApplyAll(l, first));
    ApplyMore(l, first, second);
  }

  /** The loop when the sweep comes to a slot, and what was drained on the way there. */
  datatype Turn = Turn(loop: Loop, drained: seq<Op>) | NotReached

  function TurnOf(l: Loop, revents: seq<Revents>, i: nat, script: seq<Behaviour>, j: nat): Turn
    requires Sized(l, revents, script) && i <= j < POLL_MAX_SIZE
    decreases j - i
  {
    if i == j then Turn(l, [])
    else
      var fd := l.slots[i].fd;
      if fd < 0 || !revents[i].Ready() then TurnOf(l, revents, i + 1, script, j)
      else
        HandleSlotKeepsSize(l, fd, revents[i], script[i]);
        match HandleSlot(l, fd, revents[i], script[i])
        case Fault => NotReached
        case Applied(after, _) =>
          match TurnOf(after, revents, i + 1, script, j)
          case NotReached => NotReached
          case Turn(m, ops) => Turn(m, Drained(l, fd, revents[i], script[i]) + ops)
  }

  lemma {:induction false} TurnDrains(l: Loop, revents: seq<Revents>, i: nat, script: seq<Behaviour>, j: nat)
    requires Sized(l, revents, script) && i <= j < POLL_MAX_SIZE
    ensures var t := TurnOf(l, revents, i, script, j);
            t.Turn? ==> Sized(t.loop, revents, script) && SameLoop(Applied(t.loop, 0), ApplyAll(l, t.drained))
    decreases j - i
  {
    hide HandleSlot, Drained, Apply;
    if i < j {
      var fd := l.slots[i].fd;
      if fd < 0 || !revents[i].Ready() {
        TurnDrains(l, revents, i + 1, script, j);
      } else if HandleSlot(l, fd, revents[i], script[i]).Applied? {
        HandleSlotKeepsSize(l, fd, revents[i], script[i]);
        HandleDrains(l, fd, revents[i], script[i]);
        var after := HandleSlot(l, fd, revents[i], script[i]).loop;
        TurnDrains(after, revents, i + 1, script, j);
        var t := TurnOf(after, revents, i + 1, script, j);
        if t.Turn? {
          ApplyMore(l, Drained(l, fd, revents[i], script[i]), t.drained);
        }
      }
    }
  }

  // ---------------------------------------------------------------------
  // Calls and turns
  // ---------------------------------------------------------------------

  predicate CallOf(l: Loop, revents: seq<Revents>, i: nat, script: seq<Behaviour>, c: Call)
    requires Sized(l, revents, script)
  {
    && i <= c.slot < POLL_MAX_SIZE
    && (if c.write then revents[c.slot].write else revents[c.slot].read)
    && var t := TurnOf(l, revents, i, script, c.slot);
       t.Turn? && c.slot < |t.loop.slots| && t.loop.slots[c.slot].fd == c.fd >= 0
  }

  /** Every call is made at its slot's turn, for the descriptor that the slot then holds. */
  lemma {:induction false} CallsHaveTurns(
    l: Loop, revents: seq<Revents>, i: nat, script: seq<Behaviour>, c: Call)
    requires Sized(l, revents, script) && i <= POLL_MAX_SIZE
    requires c in FullSweep(l, revents, i, script).calls
    ensures CallOf(l, revents, i, script, c)
    decreases POLL_MAX_SIZE - i
  {
    hide HandleSlot, Drained, ActivateIf;
    if i < POLL_MAX_SIZE {
      var fd := l.slots[i].fd;
      if fd < 0 || !revents[i].Ready() {
        CallsHaveTurns(l, revents, i + 1, script, c);
      } else {
        HandleSlotKeepsSize(l, fd, revents[i], script[i]);
        if c !in SlotCalls(l, i, fd, revents[i], script[i]) {
          CallsHaveTurns(HandleSlot(l, fd, revents[i], script[i]).loop, revents, i + 1, script, c);
        }
      }
    }
  }

  /** When its turn comes, a slot with a descriptor gets the calls of HandleSlot, whatever happens later. */
  lemma {:induction false} TurnsHaveCalls(
    l: Loop, revents: seq<Revents>, i: nat, script: seq<Behaviour>, j: nat, c: Call)
    requires Sized(l, revents, script) && i <= j < POLL_MAX_SIZE && revents[j].Ready()
    requires var t := TurnOf(l, revents, i, script, j);
             && t.Turn? && j < |t.loop.slots| && t.loop.slots[j].fd >= 0
             && c in SlotCalls(t.loop, j, t.loop.slots[j].fd, revents[j], script[j])
    ensures c in FullSweep(l, revents, i, script).calls
    decreases j - i
  {
    hide HandleSlot, Drained, SlotCalls;
    var fd := l.slots[i].fd;
    if fd < 0 || !revents[i].Ready() {
      TurnsHaveCalls(l, revents, i + 1, script, j, c);
    } else {
      HandleSlotKeepsSize(l, fd, revents[i], script[i]);
      if i < j {
        TurnsHaveCalls(HandleSlot(l, fd, revents[i], script[i]).loop, revents, i + 1, script, j, c);
      }
    }
  }

  lemma {:induction false} TurnKeepsDescriptor(
    l: Loop, revents: seq<Revents>, i: nat, script: seq<Behaviour>, j: nat)
    requires Sized(l, revents, script) && i <= j < POLL_MAX_SIZE && Filed(l.channels) && l.slots[j].fd >= 0
    requires forall k :: i <= k < j ==>
               Keeps(script[k].onRead, l.slots[j].fd) && Keeps(script[k].onWrite, l.slots[j].fd)
    ensures var t := TurnOf(l, revents, i, script, j);
            t.Turn? ==> |t.loop.slots| == |l.slots| && t.loop.slots[j].fd == l.slots[j].fd
    decreases j - i
  {
    hide HandleSlot, Drained, Filed, Keeps;
    if i < j {
      var fd := l.slots[i].fd;
      if fd < 0 || !revents[i].Ready() {
        TurnKeepsDescriptor(l, revents, i + 1, script, j);
      } else {
        HandleSlotKeepsSize(l, fd, revents[i], script[i]);
        var o := HandleSlot(l, fd, revents[i], script[i]);
        if o.Applied? {
          HandleLeavesSlot(l, fd, revents[i], script[i], j);
          TurnKeepsDescriptor(o.loop, revents, i + 1, script, j);
        }
      }
    }
  }

  /**
   A reported descriptor that no callback removes before its turn gets its events when the sweep
   comes to it: the read event always, the write event unless its own read half faults.
   */
  lemma NoReadySlotMissed(l: Loop, revents: seq<Revents>, script: seq<Behaviour>, j: nat)
    requires Sized(l, revents, script) && j < POLL_MAX_SIZE && Filed(l.channels) && l.slots[j].fd >= 0
    requires forall k :: 0 <= k < j ==>
               Keeps(script[k].onRead, l.slots[j].fd) && Keeps(script[k].onWrite, l.slots[j].fd)
    requires TurnOf(l, revents, 0, script, j).Turn?
    ensures revents[j].read ==> Call(j, l.slots[j].fd, false) in FullSweep(l, revents, 0, script).calls
    ensures var t, fd := TurnOf(l, revents, 0, script, j), l.slots[j].fd;
            revents[j].write && ActivateIf(revents[j].read, Applied(t.loop, 0), fd, script[j].onRead).Applied?
            ==> Call(j, fd, true) in FullSweep(l, revents, 0, script).calls
  {
    hide FullSweep, TurnOf, ActivateIf, Filed, Keeps;
    TurnKeepsDescriptor(l, revents, 0, script, j);
    var t, fd := TurnOf(l, revents, 0, script, j), l.slots[j].fd;
    var calls := SlotCalls(t.loop, j, fd, revents[j], script[j]);
    forall c | c in calls
      ensures c in FullSweep(l, revents, 0, script).calls
    {
      TurnsHaveCalls(l, revents, 0, script, j, c);
    }
    if revents[j].read {
      assert calls[0] == Call(j, fd, false);
    }
    if revents[j].write && ActivateIf(revents[j].read, Applied(t.loop, 0), fd, script[j].onRead).Applied? {
      assert calls[|calls| - 1] == Call(j, fd, true);
    }
  }

  /** A call for a descriptor that its slot did not hold when poll returned. */
  predicate Stale(l: Loop, c: Call) {
    c.slot < |l.slots| && l.slots[c.slot].fd != c.fd
  }

  /** The sweep comes to a reported slot in which an operation drained before has put another descriptor. */
  ghost predicate ReusedAhead(l: Loop, revents: seq<Revents>, script: seq<Behaviour>, j: nat)
    requires Sized(l, revents, script) && j < POLL_MAX_SIZE
  {
    && (revents[j].read || revents[j].write)
    && var t := TurnOf(l, revents, 0, script, j);
       t.Turn? && TakenOver(l, t.drained, j)
  }

  /**
   Some call is stale if and only if a callback's add finds its first free slot in a reported
   slot that is still ahead, and the slot is not freed again before its turn.
   */
  lemma StaleExactly(l: Loop, revents: seq<Revents>, script: seq<Behaviour>)
    requires Sized(l, revents, script)
    ensures (exists c :: c in FullSweep(l, revents, 0, script).calls && Stale(l, c))
       <==> (exists j :: 0 <= j < POLL_MAX_SIZE && ReusedAhead(l, revents, script, j))
  {
    hide FullSweep, TurnOf, TakenOver, ApplyAll;
    var calls := FullSweep(l, revents, 0, script).calls;
    forall c | c in calls && Stale(l, c)
      ensures exists j :: 0 <= j < POLL_MAX_SIZE && ReusedAhead(l, revents, script, j)
    {
      CallsHaveTurns(l, revents, 0, script, c);
      TurnDrains(l, revents, 0, script, c.slot);
      SlotHolds(l, TurnOf(l, revents, 0, script, c.slot).drained, c.slot);
      assert ReusedAhead(l, revents, script, c.slot);
    }
    forall j | 0 <= j < POLL_MAX_SIZE && ReusedAhead(l, revents, script, j)
      ensures exists c :: c in calls && Stale(l, c)
    {
      TurnDrains(l, revents, 0, script, j);
      var t := TurnOf(l, revents, 0, script, j);
      SlotHolds(l, t.drained, j);
      var c := Call(j, t.loop.slots[j].fd, !revents[j].read);
      assert SlotCalls(t.loop, j, c.fd, revents[j], script[j])[0] == c;
      TurnsHaveCalls(l, revents, 0, script, j, c);
      assert Stale(l, c);
    }
  }

  // ---------------------------------------------------------------------
  // Callbacks that add nothing
  // ---------------------------------------------------------------------

  predicate AddsNothing(ops: seq<Op>) {
    forall k :: 0 <= k < |ops| ==> ops[k].kind != 1
  }

  lemma {:induction false} NothingDrainedAdds(
    l: Loop, revents: seq<Revents>, i: nat, script: seq<Behaviour>, j: nat)
    requires Sized(l, revents, script) && i <= j < POLL_MAX_SIZE && TurnOf(l, revents, i, script, j).Turn?
    requires forall k :: i <= k < j ==> AddsNothing(script[k].onRead) && AddsNothing(script[k].onWrite)
    ensures AddsNothing(TurnOf(l, revents, i, script, j).drained)
    decreases j - i
  {
    hide HandleSlot, ActivateIf;
    if i < j {
      var fd := l.slots[i].fd;
      if fd < 0 || !revents[i].Ready() {
        NothingDrainedAdds(l, revents, i + 1, script, j);
      } else {
        HandleSlotKeepsSize(l, fd, revents[i], script[i]);
        assert AddsNothing(script[i].onRead) && AddsNothing(script[i].onWrite);
        NothingDrainedAdds(HandleSlot(l, fd, revents[i], script[i]).loop, revents, i + 1, script, j);
      }
    }
  }

  /** So while callbacks add no descriptor, every call is for the descriptor that poll reported. */
  lemma CallsAreForReported(l: Loop, revents: seq<Revents>, script: seq<Behaviour>, c: Call)
    requires Sized(l, revents, script) && c in FullSweep(l, revents, 0, script).calls
    requires forall k :: 0 <= k < c.slot && k < |script| ==>
               AddsNothing(script[k].onRead) && AddsNothing(script[k].onWrite)
    ensures c.slot < POLL_MAX_SIZE && l.slots[c.slot].fd == c.fd >= 0
  {
    hide FullSweep, TurnOf, ApplyAll;
    CallsHaveTurns(l, revents, 0, script, c);
    TurnDrains(l, revents, 0, script, c.slot);
    var ops := TurnOf(l, revents, 0, script, c.slot).drained;
    SlotHolds(l, ops, c.slot);
    NothingDrainedAdds(l, revents, 0, script, c.slot);
  }
}
