/**
 One sweep of poll_dispatch (event_dispatcher.c) over the slot table, with callbacks that
 register and unregister descriptors, this sweep's own ones included, while it is under way.
 */
module Dispatch {
  import opened Options
  import opened Registration

  /** What poll reports for one slot; `other` stands for the error and hang-up bits. */
  datatype Revents = Revents(read: bool, write: bool, other: bool)
  {
    predicate Ready() {
      read || write || other
    }
  }

  /** The operations that get drained while the callbacks of one slot run. */
  datatype Behaviour = Behaviour(onRead: seq<Op>, onWrite: seq<Op>)

  /** A call of channel_event_activate from the sweep. */
  datatype Call = Call(slot: nat, fd: int, write: bool)

  datatype Swept = Swept(outcome: Outcome, calls: seq<Call>)

  /** channel_event_activate with one event bit, for a descriptor that is not negative. */
  function Activate(l: Loop, fd: nat, ops: seq<Op>): Outcome {
    if fd >= |l.channels| then Applied(l, -1)
    else match l.channels[fd]
      case None => Fault
      case Some(c) => if c.fd == fd then ApplyAll(l, ops) else Fault
  }

  /**
   A descriptor behind the end of the map is passed over; the assertion that the channel is
   there and carries this descriptor holds exactly when it is registered; then the callback runs.
   */
  lemma ActivateTells(l: Loop, fd: nat, ops: seq<Op>)
    ensures fd >= |l.channels| ==> Activate(l, fd, ops) == Applied(l, -1)
    ensures fd < |l.channels| && Activate(l, fd, ops).Applied?
        ==> l.channels[fd].Some? && l.channels[fd].value.fd == fd && Activate(l, fd, ops) == ApplyAll(l, ops)
    ensures fd < |l.channels| && l.channels[fd].Some? && l.channels[fd].value.fd == fd
        ==> Activate(l, fd, ops) == ApplyAll(l, ops)
  {
    hide ApplyAll;
  }

  function ActivateIf(ready: bool, o: Outcome, fd: nat, ops: seq<Op>): Outcome {
    if ready && o.Applied? then Activate(o.loop, fd, ops) else o
  }

  /** Read before write, both for the descriptor copied out before the first callback. */
  function HandleSlot(l: Loop, fd: nat, r: Revents, b: Behaviour): Outcome {
    ActivateIf(r.write, ActivateIf(r.read, Applied(l, 0), fd, b.onRead), fd, b.onWrite)
  }

  /** The calls that HandleSlot makes: the second one is not reached when the first one faults. */
  function SlotCalls(l: Loop, i: nat, fd: nat, r: Revents, b: Behaviour): seq<Call> {
    (if r.read then [Call(i, fd, false)] else [])
    + (if r.write && ActivateIf(r.read, Applied(l, 0), fd, b.onRead).Applied? then [Call(i, fd, true)] else [])
  }

  predicate Sized(l: Loop, revents: seq<Revents>, script: seq<Behaviour>) {
    |l.slots| == |revents| == |script| == POLL_MAX_SIZE
  }

  lemma {:induction false} SlotsKeepTheirNumber(l: Loop, ops: seq<Op>)
    ensures ApplyAll(l, ops).Applied? ==> |ApplyAll(l, ops).loop.slots| == |l.slots|
    decreases |ops|
  {
    if ops != [] && Apply(l, ops[0]).Applied? {
      hide Find, Expanded, Translate;
      SlotsKeepTheirNumber(Apply(l, ops[0]).loop, ops[1..]);
    }
  }

  lemma HandleSlotKeepsSize(l: Loop, fd: nat, r: Revents, b: Behaviour)
    ensures HandleSlot(l, fd, r, b).Applied? ==> |HandleSlot(l, fd, r, b).loop.slots| == |l.slots|
  {
    hide ApplyAll;
    SlotsKeepTheirNumber(l, b.onRead);
    var o := ActivateIf(r.read, Applied(l, 0), fd, b.onRead);
    if o.Applied? {
      SlotsKeepTheirNumber(o.loop, b.onWrite);
    }
  }

  /** The loop from slot `i` on, which stops as soon as `ready` slots have been handled. */
  function Sweep(l: Loop, revents: seq<Revents>, ready: int, i: nat, script: seq<Behaviour>): Swept
    requires Sized(l, revents, script) && i <= POLL_MAX_SIZE
    decreases POLL_MAX_SIZE - i
  {
    if i == POLL_MAX_SIZE then Swept(Applied(l, 0), [])
    else
      var fd := l.slots[i].fd;
      if fd < 0 || !revents[i].Ready() then Sweep(l, revents, ready, i + 1, script)
      else
        var calls := SlotCalls(l, i, fd, revents[i], script[i]);
        HandleSlotKeepsSize(l, fd, revents[i], script[i]);
        match HandleSlot(l, fd, revents[i], script[i])
        case Fault => Swept(Fault, calls)
        case Applied(after, _) =>
          if ready - 1 <= 0 then Swept(Applied(after, 0), calls)
          else
            var rest := Sweep(after, revents, ready - 1, i + 1, script);
            Swept(rest.outcome, calls + rest.calls)
  }

  /** One turn of the loop, or its end. */
  lemma SweepStep(l: Loop, revents: seq<Revents>, ready: int, i: nat, script: seq<Behaviour>)
    requires Sized(l, revents, script) && i <= POLL_MAX_SIZE
    ensures var s := Sweep(l, revents, ready, i, script);
            if i == POLL_MAX_SIZE then s == Swept(Applied(l, 0), [])
            else if l.slots[i].fd < 0 || !revents[i].Ready() then s == Sweep(l, revents, ready, i + 1, script)
            else
              var o := HandleSlot(l, l.slots[i].fd, revents[i], script[i]);
              var calls := SlotCalls(l, i, l.slots[i].fd, revents[i], script[i]);
              && (o.Fault? ==> s == Swept(Fault, calls))
              && (o.Applied? && ready <= 1 ==> s == Swept(Applied(o.loop, 0), calls))
              && (o.Applied? && ready > 1 ==>
                    && Sized(o.loop, revents, script)
                    && var rest := Sweep(o.loop, revents, ready - 1, i + 1, script);
                       s == Swept(rest.outcome, calls + rest.calls))
  {
    hide HandleSlot, SlotCalls;
    if i < POLL_MAX_SIZE && l.slots[i].fd >= 0 {
      HandleSlotKeepsSize(l, l.slots[i].fd, revents[i], script[i]);
    }
  }

  /** The same loop without the countdown: the reference for it. */
  function FullSweep(l: Loop, revents: seq<Revents>, i: nat, script: seq<Behaviour>): Swept
    requires Sized(l, revents, script) && i <= POLL_MAX_SIZE
    decreases POLL_MAX_SIZE - i
  {
    if i == POLL_MAX_SIZE then Swept(Applied(l, 0), [])
    else
      var fd := l.slots[i].fd;
      if fd < 0 || !revents[i].Ready() then FullSweep(l, revents, i + 1, script)
      else
        var calls := SlotCalls(l, i, fd, revents[i], script[i]);
        HandleSlotKeepsSize(l, fd, revents[i], script[i]);
        match HandleSlot(l, fd, revents[i], script[i])
        case Fault => Swept(Fault, calls)
        case Applied(after, _) =>
          var rest := FullSweep(after, revents, i + 1, script);
          Swept(rest.outcome, calls + rest.calls)
  }

  /** The number of ready slots from `i` on, which poll returns for i = 0. */
  function ReadyCount(revents: seq<Revents>, i: nat): nat
    requires i <= |revents|
    decreases |revents| - i
  {
    if i == |revents| then 0 else (if revents[i].Ready() then 1 else 0) + ReadyCount(revents, i + 1)
  }

  lemma {:induction false} NoneReady(l: Loop, revents: seq<Revents>, i: nat, script: seq<Behaviour>)
    requires Sized(l, revents, script) && i <= POLL_MAX_SIZE && ReadyCount(revents, i) == 0
    ensures FullSweep(l, revents, i, script) == Swept(Applied(l, 0), [])
    decreases POLL_MAX_SIZE - i
  {
    if i < POLL_MAX_SIZE {
      NoneReady(l, revents, i + 1, script);
    }
  }

  /** Stopping early changes nothing: whatever the callbacks do, no slot that is ready comes later. */
  lemma {:induction false} CountdownIsSound(
    l: Loop, revents: seq<Revents>, ready: int, i: nat, script: seq<Behaviour>)
    requires Sized(l, revents, script) && i <= POLL_MAX_SIZE && ready >= ReadyCount(revents, i)
    ensures Sweep(l, revents, ready, i, script) == FullSweep(l, revents, i, script)
    decreases POLL_MAX_SIZE - i
  {
    hide HandleSlot, SlotCalls;
    if i < POLL_MAX_SIZE {
      var fd := l.slots[i].fd;
      if fd < 0 || !revents[i].Ready() {
        CountdownIsSound(l, revents, ready, i + 1, script);
      } else {
        HandleSlotKeepsSize(l, fd, revents[i], script[i]);
        match HandleSlot(l, fd, revents[i], script[i])
        case Fault =>
        case Applied(after, _) =>
          if ready - 1 <= 0 {
            NoneReady(after, revents, i + 1, script);
          } else {
            CountdownIsSound(after, revents, ready - 1, i + 1, script);
          }
      }
    }
  }

  /** The loop handles no more slots than it was told are ready. */
  lemma {:induction false} StopsAtCount(
    l: Loop, revents: seq<Revents>, ready: int, i: nat, script: seq<Behaviour>)
    requires Sized(l, revents, script) && i <= POLL_MAX_SIZE && ready > 0
    ensures |Sweep(l, revents, ready, i, script).calls| <= 2 * ready
    decreases POLL_MAX_SIZE - i
  {
    hide HandleSlot, ActivateIf;
    if i < POLL_MAX_SIZE {
      var fd := l.slots[i].fd;
      if fd < 0 || !revents[i].Ready() {
        StopsAtCount(l, revents, ready, i + 1, script);
      } else {
        HandleSlotKeepsSize(l, fd, revents[i], script[i]);
        var o := HandleSlot(l, fd, revents[i], script[i]);
        if o.Applied? && ready > 1 {
          StopsAtCount(o.loop, revents, ready - 1, i + 1, script);
        }
      }
    }
  }

  /** A slot with nothing but an error or a hang-up uses up one of the count, and nothing is called for it. */
  lemma ErrorOnlySlot(l: Loop, revents: seq<Revents>, ready: int, i: nat, script: seq<Behaviour>)
    requires Sized(l, revents, script) && i < POLL_MAX_SIZE && l.slots[i].fd >= 0
    requires revents[i] == Revents(false, false, true)
    ensures ReadyCount(revents, i) == 1 + ReadyCount(revents, i + 1)
    ensures ready > 1 ==> Sweep(l, revents, ready, i, script) == Sweep(l, revents, ready - 1, i + 1, script)
    ensures ready <= 1 ==> Sweep(l, revents, ready, i, script) == Swept(Applied(l, 0), [])
  {
    assert SlotCalls(l, i, l.slots[i].fd, revents[i], script[i]) == [];
    assert HandleSlot(l, l.slots[i].fd, revents[i], script[i]) == Applied(l, 0);
  }

  predicate Before(a: Call, b: Call) {
    a.slot < b.slot || (a.slot == b.slot && !a.write && b.write)
  }

  /** The calls name slots from `i` on, each slot in one iteration only, and only events reported for it. */
  ghost predicate InOrder(calls: seq<Call>, revents: seq<Revents>, i: nat) {
    && (forall a, b :: 0 <= a < b < |calls| ==> Before(calls[a], calls[b]))
    && (forall a :: 0 <= a < |calls| ==> Reported(calls[a], revents, i))
  }

  predicate Reported(c: Call, revents: seq<Revents>, i: nat) {
    i <= c.slot < |revents| && (if c.write then revents[c.slot].write else revents[c.slot].read)
  }

  lemma {:induction false} CallsInOrder(l: Loop, revents: seq<Revents>, i: nat, script: seq<Behaviour>)
    requires Sized(l, revents, script) && i <= POLL_MAX_SIZE
    ensures InOrder(FullSweep(l, revents, i, script).calls, revents, i)
    decreases POLL_MAX_SIZE - i
  {
    hide HandleSlot, ActivateIf;
    if i < POLL_MAX_SIZE {
      var fd := l.slots[i].fd;
      if fd < 0 || !revents[i].Ready() {
        CallsInOrder(l, revents, i + 1, script);
        var calls := FullSweep(l, revents, i + 1, script).calls;
        forall a | 0 <= a < |calls|
          ensures Reported(calls[a], revents, i)
        {
          assert Reported(calls[a], revents, i + 1);
        }
      } else {
        HandleSlotKeepsSize(l, fd, revents[i], script[i]);
        match HandleSlot(l, fd, revents[i], script[i])
        case Fault =>
        case Applied(after, _) =>
          CallsInOrder(after, revents, i + 1, script);
          OneSlotMore(l, revents, i, fd, script[i], FullSweep(after, revents, i + 1, script).calls);
      }
    }
  }

  lemma OneSlotMore(l: Loop, revents: seq<Revents>, i: nat, fd: nat, b: Behaviour, rest: seq<Call>)
    requires i < |revents| && InOrder(rest, revents, i + 1)
    ensures InOrder(SlotCalls(l, i, fd, revents[i], b) + rest, revents, i)
  {
    hide ActivateIf;
    var first := SlotCalls(l, i, fd, revents[i], b);
    var calls := first + rest;
    assert forall a :: 0 <= a < |rest| ==> Reported(rest[a], revents, i + 1);
    forall a | 0 <= a < |calls|
      ensures Reported(calls[a], revents, i)
    {
      if a >= |first| {
        assert calls[a] == rest[a - |first|];
      }
    }
  }

  // ---------------------------------------------------------------------
  // Callbacks that leave a descriptor alone
  // ---------------------------------------------------------------------

  /** Nothing in `ops` removes `fd`. */
  predicate Keeps(ops: seq<Op>, fd: int) {
    forall k :: 0 <= k < |ops| && ops[k].kind == 2 ==> ops[k].channel.fd != fd
  }

  /** Every channel in the map is filed under its own descriptor. */
  ghost predicate Filed(channels: seq<Option<Channel>>) {
    forall fd :: 0 <= fd < |channels| && channels[fd].Some? ==> channels[fd].value.fd == fd
  }

  lemma ApplyLeavesSlot(l: Loop, op: Op, j: nat)
    requires Filed(l.channels) && j < |l.slots| && l.slots[j].fd >= 0
    requires Apply(l, op).Applied?
    ensures Filed(Apply(l, op).loop.channels) && |Apply(l, op).loop.slots| == |l.slots|
    ensures (op.kind == 2 ==> op.channel.fd != l.slots[j].fd) ==> Apply(l, op).loop.slots[j].fd == l.slots[j].fd
    ensures op.channel.fd >= 0 && op.kind == 1 ==> op.channel.fd < |Apply(l, op).loop.channels|
  {
    hide Translate, Expanded, Capacity;
    if op.kind == 1 && op.channel.fd >= 0 {
      ExpandKeeps(l.channels, op.channel.fd);
    }
  }

  lemma {:induction false} ApplyAllLeavesSlot(l: Loop, ops: seq<Op>, j: nat)
    requires Filed(l.channels) && j < |l.slots| && l.slots[j].fd >= 0 && Keeps(ops, l.slots[j].fd)
    requires ApplyAll(l, ops).Applied?
    ensures var after := ApplyAll(l, ops).loop;
            Filed(after.channels) && |after.slots| == |l.slots| && after.slots[j].fd == l.slots[j].fd
    decreases |ops|
  {
    hide Apply;
    if ops != [] {
      ApplyLeavesSlot(l, ops[0], j);
      assert Keeps(ops[1..], l.slots[j].fd);
      ApplyAllLeavesSlot(Apply(l, ops[0]).loop, ops[1..], j);
    }
  }

  lemma HandleLeavesSlot(l: Loop, fd: nat, r: Revents, b: Behaviour, j: nat)
    requires Filed(l.channels) && j < |l.slots| && l.slots[j].fd >= 0
    requires Keeps(b.onRead, l.slots[j].fd) && Keeps(b.onWrite, l.slots[j].fd)
    requires HandleSlot(l, fd, r, b).Applied?
    ensures var after := HandleSlot(l, fd, r, b).loop;
            Filed(after.channels) && |after.slots| == |l.slots| && after.slots[j].fd == l.slots[j].fd
  {
    hide ApplyAll, Filed, Keeps;
    var o := ActivateIf(r.read, Applied(l, 0), fd, b.onRead);
    if r.read && fd < |l.channels| {
      ApplyAllLeavesSlot(l, b.onRead, j);
    }
    if r.write && fd < |o.loop.channels| {
      ApplyAllLeavesSlot(o.loop, b.onWrite, j);
    }
  }

  // ---------------------------------------------------------------------
  // The channel that is gone
  // ---------------------------------------------------------------------

  lemma {:induction false} MapNeverShrinks(l: Loop, ops: seq<Op>)
    requires ApplyAll(l, ops).Applied?
    ensures |ApplyAll(l, ops).loop.channels| >= |l.channels|
    decreases |ops|
  {
    if ops != [] {
      var op := ops[0];
      assert |Apply(l, op).loop.channels| >= |l.channels| by {
        hide Translate, Expanded, Find;
        if op.channel.fd >= 0 {
          ExpandKeeps(l.channels, op.channel.fd);
        }
      }
      hide Apply;
      MapNeverShrinks(Apply(l, op).loop, ops[1..]);
    }
  }

  function AfterRead(m: Interest, r: Revents, b: Behaviour): Interest {
    if r.read then RegisterAll(m, b.onRead) else m
  }

  function AfterSlot(m: Interest, r: Revents, b: Behaviour): Interest {
    if r.write then RegisterAll(AfterRead(m, r, b), b.onWrite) else AfterRead(m, r, b)
  }

  /** The operations of those callbacks of a slot that run keep to the rules of registration. */
  predicate WellBehaved(m: Interest, fd: int, r: Revents, b: Behaviour) {
    && (r.read && fd in m ==> Disciplined(m, b.onRead))
    && (r.write && fd in AfterRead(m, r, b) ==> Disciplined(AfterRead(m, r, b), b.onWrite))
  }

  lemma ActivateAgrees(l: Loop, m: Interest, fd: nat, ops: seq<Op>)
    requires Agree(l, m) && fd < |l.channels| && (fd in m ==> Disciplined(m, ops))
    ensures Activate(l, fd, ops).Fault? <==> fd !in m
    ensures fd in m ==>
      var after := Activate(l, fd, ops).loop;
      Agree(after, RegisterAll(m, ops)) && |after.channels| >= |l.channels|
  {
    hide ApplyAll, RegisterAll, Disciplined, TableIs;
    if fd in m {
      RunAgrees(l, m, ops);
      MapNeverShrinks(l, ops);
    }
  }

  /**
   A slot faults exactly when both events were reported for its descriptor and the read callback
   left the descriptor unregistered; otherwise map, slots and interest still agree afterwards.
   */
  lemma SlotFaultsExactly(l: Loop, m: Interest, i: nat, r: Revents, b: Behaviour)
    requires Agree(l, m) && i < |l.slots| && l.slots[i].fd >= 0 && WellBehaved(m, l.slots[i].fd, r, b)
    ensures HandleSlot(l, l.slots[i].fd, r, b).Fault?
       <==> r.read && r.write && l.slots[i].fd !in RegisterAll(m, b.onRead)
    ensures HandleSlot(l, l.slots[i].fd, r, b).Applied?
        ==> Agree(HandleSlot(l, l.slots[i].fd, r, b).loop, AfterSlot(m, r, b))
  {
    hide Activate, RegisterAll, Disciplined, Find, Translate;
    var fd := l.slots[i].fd;
    assert fd in m && fd < |l.channels|;
    hide Agree;
    if r.read {
      ActivateAgrees(l, m, fd, b.onRead);
    }
    var o := ActivateIf(r.read, Applied(l, 0), fd, b.onRead);
    if r.write && o.Applied? {
      ActivateAgrees(o.loop, AfterRead(m, r, b), fd, b.onWrite);
    }
  }

  /** The rules hold at every slot that the sweep comes to. */
  ghost predicate WellBehavedFrom(
    l: Loop, m: Interest, revents: seq<Revents>, i: nat, script: seq<Behaviour>)
    requires Sized(l, revents, script) && i <= POLL_MAX_SIZE
    decreases POLL_MAX_SIZE - i
  {
    if i == POLL_MAX_SIZE then true
    else if l.slots[i].fd < 0 || !revents[i].Ready() then WellBehavedFrom(l, m, revents, i + 1, script)
    else
      var r, b := revents[i], script[i];
      HandleSlotKeepsSize(l, l.slots[i].fd, r, b);
      var o := HandleSlot(l, l.slots[i].fd, r, b);
      WellBehaved(m, l.slots[i].fd, r, b)
      && (o.Applied? ==> WellBehavedFrom(o.loop, AfterSlot(m, r, b), revents, i + 1, script))
  }

  /** A read callback takes its own descriptor away although it was reported writable too. */
  predicate TakesItself(l: Loop, m: Interest, i: nat, r: Revents, b: Behaviour)
    requires i < |l.slots|
  {
    r.read && r.write && l.slots[i].fd !in RegisterAll(m, b.onRead)
  }

  /** Some slot that the sweep comes to takes itself away. */
  ghost predicate SomeTakesItself(
    l: Loop, m: Interest, revents: seq<Revents>, i: nat, script: seq<Behaviour>)
    requires Sized(l, revents, script) && i <= POLL_MAX_SIZE
    decreases POLL_MAX_SIZE - i
  {
    if i == POLL_MAX_SIZE then false
    else if l.slots[i].fd < 0 || !revents[i].Ready() then SomeTakesItself(l, m, revents, i + 1, script)
    else
      var r, b := revents[i], script[i];
      HandleSlotKeepsSize(l, l.slots[i].fd, r, b);
      var o := HandleSlot(l, l.slots[i].fd, r, b);
      TakesItself(l, m, i, r, b)
      || (o.Applied? && SomeTakesItself(o.loop, AfterSlot(m, r, b), revents, i + 1, script))
  }

  /** Over a whole sweep nothing but that can reach for a channel that is not there. */
  lemma {:induction false} SweepFaultsExactly(
    l: Loop, m: Interest, revents: seq<Revents>, i: nat, script: seq<Behaviour>)
    requires Sized(l, revents, script) && i <= POLL_MAX_SIZE
    requires Agree(l, m) && WellBehavedFrom(l, m, revents, i, script)
    ensures FullSweep(l, revents, i, script).outcome.Fault? <==> SomeTakesItself(l, m, revents, i, script)
    decreases POLL_MAX_SIZE - i
  {
    hide HandleSlot, SlotCalls, Agree, RegisterAll, WellBehaved, AfterSlot;
    if i < POLL_MAX_SIZE {
      if l.slots[i].fd < 0 || !revents[i].Ready() {
        SweepFaultsExactly(l, m, revents, i + 1, script);
      } else {
        var r, b := revents[i], script[i];
        HandleSlotKeepsSize(l, l.slots[i].fd, r, b);
        SlotFaultsExactly(l, m, i, r, b);
        match HandleSlot(l, l.slots[i].fd, r, b)
        case Fault =>
        case Applied(after, _) => SweepFaultsExactly(after, AfterSlot(m, r, b), revents, i + 1, script);
      }
    }
  }
}
