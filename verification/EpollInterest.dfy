/**
 The interest that the kernel keeps for epoll, beside the channel map: an add reaches the
 kernel only while the map has no channel for the descriptor, an update only while it has one,
 and closing a descriptor, as epoll_dispatch does on an error event, takes it out of the
 kernel's interest and leaves its channel in the map.
 */
module EpollInterest {
  import opened Options
  import opened Registration
  import opened Dispatch
  import opened DispatchSlots
  import opened Epoll

  /** What happens to the loop and the kernel, one after the other. */
  datatype Happening = Drain(op: Op) | Close(fd: nat)

  function HasChannel(l: Loop, fd: int): bool {
    0 <= fd < |l.channels| && l.channels[fd].Some?
  }

  /**
   epoll_ctl for one drained operation, or close. The kernel refuses to add twice and to change
   what it does not have.
   */
  function KernelStep(l: Loop, k: Interest, h: Happening): Interest {
    match h
    case Close(fd) => k - {fd}
    case Drain(op) =>
      var fd, mask := op.channel.fd, Translate(op.channel.events);
      if fd < 0 then k
      else if op.kind == 1 then (if HasChannel(l, fd) || fd in k then k else k[fd := mask])
      else if op.kind == 2 then (if HasChannel(l, fd) then k - {l.channels[fd].value.fd} else k)
      else if op.kind == 3 then (if HasChannel(l, fd) && fd in k then k[fd := mask] else k)
      else k
  }

  function LoopStep(l: Loop, h: Happening): Outcome {
    match h
    case Close(_) => Applied(l, 0)
    case Drain(op) => Apply(l, op)
  }

  function MapStepOf(m: Interest, h: Happening): Interest {
    match h
    case Close(_) => m
    case Drain(op) => Register(m, op)
  }

  function LoopRun(l: Loop, trace: seq<Happening>): Outcome
    decreases |trace|
  {
    if trace == [] then Applied(l, 0)
    else match LoopStep(l, trace[0])
      case Fault => Fault
      case Applied(n, _) => LoopRun(n, trace[1..])
  }

  function KernelRun(l: Loop, k: Interest, trace: seq<Happening>): Interest
    decreases |trace|
  {
    if trace == [] then k
    else match LoopStep(l, trace[0])
      case Fault => k
      case Applied(n, _) => KernelRun(n, KernelStep(l, k, trace[0]), trace[1..])
  }

  /** What the operations alone amount to. */
  function MapRun(m: Interest, trace: seq<Happening>): Interest
    decreases |trace|
  {
    if trace == [] then m else MapRun(MapStepOf(m, trace[0]), trace[1..])
  }

  // ---------------------------------------------------------------------
  // Descriptors that the map has and the kernel has forgotten
  // ---------------------------------------------------------------------

  predicate Removes(h: Happening, fd: int) {
    h.Drain? && h.op.kind == 2 && h.op.channel.fd == fd
  }

  /** Whether `fd` is one of them after one more happening. */
  function OrphanStep(m: Interest, orphan: bool, h: Happening, fd: int): bool {
    (orphan && !Removes(h, fd)) || (h.Close? && h.fd == fd && fd in m)
  }

  function OrphanRun(m: Interest, orphan: bool, trace: seq<Happening>, fd: int): bool
    decreases |trace|
  {
    if trace == [] then orphan
    else OrphanRun(MapStepOf(m, trace[0]), OrphanStep(m, orphan, trace[0], fd), trace[1..], fd)
  }

  /** The kernel has the descriptor as it is registered, unless it is an orphan. */
  ghost predicate InStep(l: Loop, m: Interest, k: Interest, orphan: bool, fd: int) {
    && MapIs(l.channels, m)
    && (orphan ==> fd in m)
    && (fd in k <==> fd in m && !orphan)
    && (fd in k ==> k[fd] == m[fd])
  }

  lemma StepInStep(l: Loop, m: Interest, k: Interest, orphan: bool, h: Happening, fd: int)
    requires InStep(l, m, k, orphan, fd) && LoopStep(l, h).Applied?
    ensures InStep(LoopStep(l, h).loop, MapStepOf(m, h), KernelStep(l, k, h), OrphanStep(m, orphan, h, fd), fd)
  {
    hide Translate, Apply, MapIs;
    if h.Drain? {
      MapStep(l, m, h.op);
      HasChannelIs(l, m, h.op.channel.fd);
    }
  }

  lemma HasChannelIs(l: Loop, m: Interest, fd: int)
    requires MapIs(l.channels, m)
    ensures HasChannel(l, fd) <==> fd in m
    ensures HasChannel(l, fd) ==> l.channels[fd].value.fd == fd
    ensures fd in m ==> fd >= 0
  {
  }

  lemma {:induction false} RunInStep(
    l: Loop, m: Interest, k: Interest, orphan: bool, trace: seq<Happening>, fd: int)
    requires InStep(l, m, k, orphan, fd) && LoopRun(l, trace).Applied?
    ensures InStep(LoopRun(l, trace).loop, MapRun(m, trace), KernelRun(l, k, trace),
                   OrphanRun(m, orphan, trace, fd), fd)
    decreases |trace|
  {
    hide InStep, LoopStep, MapStepOf, KernelStep, OrphanStep;
    if trace != [] {
      var h := trace[0];
      StepInStep(l, m, k, orphan, h, fd);
      RunInStep(LoopStep(l, h).loop, MapStepOf(m, h), KernelStep(l, k, h), OrphanStep(m, orphan, h, fd),
                trace[1..], fd);
    }
  }

  predicate RemovedIn(trace: seq<Happening>, fd: int) {
    trace != [] && (Removes(trace[0], fd) || RemovedIn(trace[1..], fd))
  }

  /** The descriptor is registered when it is closed, and no removal of it is drained afterwards. */
  predicate Orphaned(m: Interest, trace: seq<Happening>, i: nat, fd: nat)
    requires i < |trace|
  {
    trace[i] == Close(fd) && fd in MapRun(m, trace[..i]) && !RemovedIn(trace[i + 1..], fd)
  }

  lemma OrphanedLater(m: Interest, trace: seq<Happening>, i: nat, fd: nat)
    requires i + 1 < |trace|
    ensures Orphaned(m, trace, i + 1, fd) <==> Orphaned(MapStepOf(m, trace[0]), trace[1..], i, fd)
  {
    hide MapStepOf, RemovedIn;
    assert trace[..i + 1][1..] == trace[1..][..i] && trace[1..][i + 1..] == trace[i + 2..];
  }

  lemma OrphanedFirst(m: Interest, trace: seq<Happening>, fd: nat)
    requires trace != []
    ensures Orphaned(m, trace, 0, fd) <==> trace[0] == Close(fd) && fd in m && !RemovedIn(trace[1..], fd)
  {
    assert trace[..0] == [];
  }

  ghost predicate SomeOrphan(m: Interest, trace: seq<Happening>, fd: nat) {
    exists i :: 0 <= i < |trace| && Orphaned(m, trace, i, fd)
  }

  lemma SomeOrphanStep(m: Interest, trace: seq<Happening>, fd: nat)
    requires trace != []
    ensures SomeOrphan(m, trace, fd)
       <==> (trace[0] == Close(fd) && fd in m && !RemovedIn(trace[1..], fd))
            || SomeOrphan(MapStepOf(m, trace[0]), trace[1..], fd)
  {
    hide Orphaned, MapStepOf, RemovedIn;
    OrphanedFirst(m, trace, fd);
    var n, later := MapStepOf(m, trace[0]), trace[1..];
    forall i | 0 <= i < |later|
      ensures Orphaned(m, trace, i + 1, fd) == Orphaned(n, later, i, fd)
    {
      OrphanedLater(m, trace, i, fd);
    }
    if i :| 0 <= i < |trace| && Orphaned(m, trace, i, fd) {
      assert i > 0 ==> Orphaned(n, later, i - 1, fd);
    }
  }

  lemma {:induction false} OrphanIs(m: Interest, orphan: bool, trace: seq<Happening>, fd: nat)
    ensures OrphanRun(m, orphan, trace, fd) <==> (orphan && !RemovedIn(trace, fd)) || SomeOrphan(m, trace, fd)
    decreases |trace|
  {
    hide MapStepOf, Orphaned;
    if trace != [] {
      SomeOrphanStep(m, trace, fd);
      hide SomeOrphan;
      OrphanIs(MapStepOf(m, trace[0]), OrphanStep(m, orphan, trace[0], fd), trace[1..], fd);
    }
  }

  /** Every close of a descriptor that is registered then is followed by a drained removal of it. */
  ghost predicate ClosesAreFollowed(m: Interest, trace: seq<Happening>) {
    forall i :: 0 <= i < |trace| ==> Followed(m, trace, i)
  }

  predicate Followed(m: Interest, trace: seq<Happening>, i: nat)
    requires i < |trace|
  {
    trace[i].Close? && trace[i].fd in MapRun(m, trace[..i]) ==> RemovedIn(trace[i + 1..], trace[i].fd)
  }

  lemma NoOrphans(m: Interest, trace: seq<Happening>)
    ensures ClosesAreFollowed(m, trace) <==> forall fd: nat :: !SomeOrphan(m, trace, fd)
  {
    hide MapRun, RemovedIn;
    forall i | 0 <= i < |trace| && !Followed(m, trace, i)
      ensures Orphaned(m, trace, i, trace[i].fd) && SomeOrphan(m, trace, trace[i].fd)
    {
    }
    forall i, fd: nat | 0 <= i < |trace| && Orphaned(m, trace, i, fd)
      ensures !Followed(m, trace, i)
    {
    }
  }

  /** The same descriptors with the same masks. */
  ghost predicate SameInterest(k: Interest, m: Interest) {
    forall fd: int :: SameAt(k, m, fd)
  }

  /**
   Over every run without a fault, sweeps and drains in any order: the map agrees with the
   kernel's interest, and that interest is the one asked for, masks included, if and only if
   every close of a registered descriptor is followed by a removal of it.
   */
  lemma KernelAgreesExactly(l: Loop, m: Interest, trace: seq<Happening>)
    requires MapIs(l.channels, m) && LoopRun(l, trace).Applied?
    ensures var channels, k := LoopRun(l, trace).loop.channels, KernelRun(l, m, trace);
            && MapIs(channels, MapRun(m, trace))
            && (MapIs(channels, k) <==> ClosesAreFollowed(m, trace))
            && (SameInterest(k, MapRun(m, trace)) <==> ClosesAreFollowed(m, trace))
  {
    hide LoopRun, MapRun, KernelRun, OrphanRun, ClosesAreFollowed, SomeOrphan;
    var after, n, k := LoopRun(l, trace).loop, MapRun(m, trace), KernelRun(l, m, trace);
    forall fd: int
      ensures InStep(after, n, k, OrphanRun(m, false, trace, fd), fd)
      ensures fd in n ==> fd >= 0
    {
      RunInStep(l, m, m, false, trace, fd);
      HasChannelIs(after, n, fd);
    }
    forall fd: nat
      ensures OrphanRun(m, false, trace, fd) <==> SomeOrphan(m, trace, fd)
    {
      OrphanIs(m, false, trace, fd);
    }
    NoOrphans(m, trace);
    if fd: nat :| SomeOrphan(m, trace, fd) {
      assert OrphanRun(m, false, trace, fd);
      assert fd in n && fd !in k && !SameAt(k, n, fd);
    } else {
      forall fd: int
        ensures SameAt(k, n, fd)
      {
        assert InStep(after, n, k, OrphanRun(m, false, trace, fd), fd);
        if fd >= 0 {
          assert !SomeOrphan(m, trace, fd);
        }
      }
    }
  }

  // ---------------------------------------------------------------------
  // The happenings of one sweep
  // ---------------------------------------------------------------------

  function Drains(ops: seq<Op>): (hs: seq<Happening>)
    ensures |hs| == |ops|
  {
    if ops == [] then [] else [Drain(ops[0])] + Drains(ops[1..])
  }

  /** One event: the close on an error, or what its callbacks get drained. */
  function EventTrace(l: Loop, e: EpollEvent, b: Behaviour): seq<Happening> {
    (if e.error then [Close(e.fd)] else []) + Drains(Drained(l, e.fd, e.Report(), b))
  }

  function SweepTrace(l: Loop, events: seq<EpollEvent>, script: seq<Behaviour>): seq<Happening>
    requires |events| == |script|
    decreases |events|
  {
    if events == [] then []
    else match HandleSlot(l, events[0].fd, events[0].Report(), script[0])
      case Fault => EventTrace(l, events[0], script[0])
      case Applied(after, _) => EventTrace(l, events[0], script[0]) + SweepTrace(after, events[1..], script[1..])
  }

  function LoopRunFrom(o: Outcome, trace: seq<Happening>): Outcome {
    if o.Fault? then Fault else LoopRun(o.loop, trace)
  }

  lemma {:induction false} LoopRunMore(l: Loop, trace: seq<Happening>, more: seq<Happening>)
    ensures SameLoop(LoopRun(l, trace + more), LoopRunFrom(LoopRun(l, trace), more))
    decreases |trace|
  {
    hide LoopStep;
    if trace == [] {
      assert trace + more == more;
    } else {
      assert (trace + more)[1..] == trace[1..] + more;
      if LoopStep(l, trace[0]).Applied? {
        LoopRunMore(LoopStep(l, trace[0]).loop, trace[1..], more);
      }
    }
  }

  lemma {:induction false} DrainsRun(l: Loop, ops: seq<Op>)
    ensures SameLoop(LoopRun(l, Drains(ops)), ApplyAll(l, ops))
    decreases |ops|
  {
    hide Apply;
    if ops != [] && Apply(l, ops[0]).Applied? {
      assert Drains(ops)[1..] == Drains(ops[1..]);
      DrainsRun(Apply(l, ops[0]).loop, ops[1..]);
    }
  }

  lemma EventRuns(l: Loop, e: EpollEvent, b: Behaviour)
    requires HandleSlot(l, e.fd, e.Report(), b).Applied?
    ensures SameLoop(LoopRun(l, EventTrace(l, e, b)), HandleSlot(l, e.fd, e.Report(), b))
  {
    hide HandleSlot, Drained, ApplyAll;
    var ops := Drained(l, e.fd, e.Report(), b);
    HandleDrains(l, e.fd, e.Report(), b);
    DrainsRun(l, ops);
    if e.error {
      assert EventTrace(l, e, b)[1..] == Drains(ops);
    } else {
      assert [] + Drains(ops) == Drains(ops);
    }
  }

  lemma {:induction false} SweepRuns(l: Loop, events: seq<EpollEvent>, script: seq<Behaviour>)
    requires |events| == |script| && EpollSweep(l, events, script).outcome.Applied?
    ensures SameLoop(LoopRun(l, SweepTrace(l, events, script)), EpollSweep(l, events, script).outcome)
    decreases |events|
  {
    hide HandleSlot, EventTrace;
    if events != [] {
      var o := HandleSlot(l, events[0].fd, events[0].Report(), script[0]);
      EventRuns(l, events[0], script[0]);
      SweepRuns(o.loop, events[1..], script[1..]);
      LoopRunMore(l, EventTrace(l, events[0], script[0]), SweepTrace(o.loop, events[1..], script[1..]));
    }
  }

  /**
   After a sweep of epoll_dispatch without a fault the map agrees with the kernel if and only if
   every error event on a descriptor that is registered at its turn is followed, within the
   sweep, by a drained removal of that descriptor.
   */
  lemma SweepAgreesExactly(l: Loop, m: Interest, events: seq<EpollEvent>, script: seq<Behaviour>)
    requires |events| == |script| && MapIs(l.channels, m) && EpollSweep(l, events, script).outcome.Applied?
    ensures var trace, after := SweepTrace(l, events, script), EpollSweep(l, events, script).outcome.loop;
            && MapIs(after.channels, MapRun(m, trace))
            && (MapIs(after.channels, KernelRun(l, m, trace)) <==> ClosesAreFollowed(m, trace))
            && (SameInterest(KernelRun(l, m, trace), MapRun(m, trace)) <==> ClosesAreFollowed(m, trace))
  {
    hide EpollSweep, SweepTrace, MapRun, KernelRun, ClosesAreFollowed, LoopRun, MapIs;
    SweepRuns(l, events, script);
    KernelAgreesExactly(l, m, SweepTrace(l, events, script));
  }

  // ---------------------------------------------------------------------
  // What comes of an orphan
  // ---------------------------------------------------------------------

  /**
   The channel of a closed descriptor stays in the map, and until it is removed no operation,
   not even an add for a later connection that is given the same number, makes the kernel
   watch that number again.
   */
  lemma {:induction false} ClosedIsOrphaned(l: Loop, m: Interest, fd: nat, k: Interest, trace: seq<Happening>)
    requires MapIs(l.channels, m) && fd in m && fd !in k
    requires LoopRun(l, trace).Applied? && !RemovedIn(trace, fd)
    requires forall g :: g in k ==> g in m
    ensures HasChannel(LoopRun(l, trace).loop, fd) && fd !in KernelRun(l, k, trace)
    decreases |trace|
  {
    hide LoopStep, MapIs;
    HasChannelIs(l, m, fd);
    if trace != [] {
      var h := trace[0];
      OrphanStays(l, m, fd, k, h);
      ClosedIsOrphaned(LoopStep(l, h).loop, MapStepOf(m, h), fd, KernelStep(l, k, h), trace[1..]);
    }
  }

  lemma OrphanStays(l: Loop, m: Interest, fd: nat, k: Interest, h: Happening)
    requires MapIs(l.channels, m) && fd in m && fd !in k && !Removes(h, fd) && LoopStep(l, h).Applied?
    requires forall g :: g in k ==> g in m
    ensures MapIs(LoopStep(l, h).loop.channels, MapStepOf(m, h))
    ensures fd in MapStepOf(m, h) && fd !in KernelStep(l, k, h)
    ensures forall g :: g in KernelStep(l, k, h) ==> g in MapStepOf(m, h)
  {
    hide Translate, Apply, MapIs;
    if h.Drain? {
      MapStep(l, m, h.op);
      HasChannelIs(l, m, h.op.channel.fd);
    }
  }
}
