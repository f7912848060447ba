/**
 The sweep of epoll_dispatch (event_dispatcher.c) over the events that epoll_wait reported.
 */
module Epoll {
  import opened Options
  import opened Registration
  import opened Dispatch

  /** One event that epoll_wait reports; with `error` the descriptor is closed and its callbacks are passed over. */
  datatype EpollEvent = EpollEvent(fd: nat, read: bool, write: bool, error: bool)
  {
    function Report(): Revents {
      Revents(read && !error, write && !error, error)
    }
  }

  /** How the sweep ends, and the descriptors it has closed. */
  datatype EpollSwept = EpollSwept(outcome: Outcome, closed: seq<nat>)

  function ClosedBy(e: EpollEvent): seq<nat> {
    if e.error then [e.fd] else []
  }

  /** The events in turn. Nothing is looked up in a table: a descriptor is handled because it was reported. */
  function EpollSweep(l: Loop, events: seq<EpollEvent>, script: seq<Behaviour>): EpollSwept
    requires |events| == |script|
    decreases |events|
  {
    if events == [] then EpollSwept(Applied(l, 0), [])
    else match HandleSlot(l, events[0].fd, events[0].Report(), script[0])
      case Fault => EpollSwept(Fault, ClosedBy(events[0]))
      case Applied(after, _) =>
        var rest := EpollSweep(after, events[1..], script[1..]);
        EpollSwept(rest.outcome, ClosedBy(events[0]) + rest.closed)
  }

  /** One turn of the loop, `i` events having been handled. */
  lemma EpollStep(l: Loop, events: seq<EpollEvent>, script: seq<Behaviour>, i: nat)
    requires |events| == |script| && i < |events|
    ensures var e, s := events[i], EpollSweep(l, events[i..], script[i..]);
            match HandleSlot(l, e.fd, e.Report(), script[i])
            case Fault => s == EpollSwept(Fault, ClosedBy(e))
            case Applied(after, _) =>
              var rest := EpollSweep(after, events[i + 1..], script[i + 1..]);
              s == EpollSwept(rest.outcome, ClosedBy(e) + rest.closed)
  {
    hide HandleSlot;
    assert events[i..][1..] == events[i + 1..] && script[i..][1..] == script[i + 1..];
  }

  lemma EpollEnd(l: Loop, events: seq<EpollEvent>, script: seq<Behaviour>)
    requires |events| == |script|
    ensures EpollSweep(l, events[|events|..], script[|events|..]) == EpollSwept(Applied(l, 0), [])
  {
  }

  /** The events that are not errors, and the scripts that go with them. */
  function Sound(events: seq<EpollEvent>): seq<EpollEvent> {
    if events == [] then [] else (if events[0].error then [] else [events[0]]) + Sound(events[1..])
  }

  function SoundScript(events: seq<EpollEvent>, script: seq<Behaviour>): (b: seq<Behaviour>)
    requires |events| == |script|
    ensures |b| == |Sound(events)|
  {
    if events == [] then []
    else (if events[0].error then [] else [script[0]]) + SoundScript(events[1..], script[1..])
  }

  /** An error event runs no callback: the sweep ends as if it had not been reported, but for the close. */
  lemma {:induction false} ErrorsDrainNothing(l: Loop, events: seq<EpollEvent>, script: seq<Behaviour>)
    requires |events| == |script|
    ensures SameLoop(EpollSweep(l, events, script).outcome,
                     EpollSweep(l, Sound(events), SoundScript(events, script)).outcome)
    decreases |events|
  {
    if events != [] {
      var e, b, later, others := events[0], script[0], Sound(events[1..]), SoundScript(events[1..], script[1..]);
      if e.error {
        assert HandleSlot(l, e.fd, e.Report(), b) == Applied(l, 0);
        assert Sound(events) == later && SoundScript(events, script) == others;
        ErrorsDrainNothing(l, events[1..], script[1..]);
      } else {
        hide HandleSlot;
        assert Sound(events)[1..] == later && SoundScript(events, script)[1..] == others;
        var o := HandleSlot(l, e.fd, e.Report(), b);
        if o.Applied? {
          ErrorsDrainNothing(o.loop, events[1..], script[1..]);
        }
      }
    }
  }

  /** An error closes, input runs the read callback, room the write callback, both in that order. */
  lemma OneEvent(l: Loop, e: EpollEvent, b: Behaviour)
    ensures var s := EpollSweep(l, [e], [b]);
            && (e.error ==> s == EpollSwept(Applied(l, 0), [e.fd]))
            && (!e.error ==> s.closed == [])
            && (!e.error && e.read && !e.write ==> SameLoop(s.outcome, Activate(l, e.fd, b.onRead)))
            && (!e.error && !e.read && e.write ==> SameLoop(s.outcome, Activate(l, e.fd, b.onWrite)))
            && (!e.error && e.read && e.write ==>
                  var o := Activate(l, e.fd, b.onRead);
                  SameLoop(s.outcome, if o.Fault? then Fault else Activate(o.loop, e.fd, b.onWrite)))
            && (!e.error && !e.read && !e.write ==> s.outcome == Applied(l, 0))
  {
    hide Activate;
    assert [e][1..] == [] && [b][1..] == [];
  }

  /** The descriptor's channel is not there when the event, or its second half, gets its turn. */
  predicate Gone(m: Interest, e: EpollEvent, b: Behaviour) {
    var r := e.Report();
    (r.read && e.fd !in m) || (r.write && e.fd !in AfterRead(m, r, b))
  }

  /** The callbacks that run remove and update registered descriptors only. */
  predicate Proper(m: Interest, fd: int, r: Revents, b: Behaviour) {
    && (r.read && fd in m ==> Named(m, b.onRead))
    && (r.write && fd in AfterRead(m, r, b) ==> Named(AfterRead(m, r, b), b.onWrite))
  }

  predicate AllProper(m: Interest, events: seq<EpollEvent>, script: seq<Behaviour>)
    requires |events| == |script|
    decreases |events|
  {
    events != [] ==>
      && Proper(m, events[0].fd, events[0].Report(), script[0])
      && (Gone(m, events[0], script[0])
          || AllProper(AfterSlot(m, events[0].Report(), script[0]), events[1..], script[1..]))
  }

  predicate SomeGone(m: Interest, events: seq<EpollEvent>, script: seq<Behaviour>)
    requires |events| == |script|
    decreases |events|
  {
    events != []
    && (Gone(m, events[0], script[0])
        || SomeGone(AfterSlot(m, events[0].Report(), script[0]), events[1..], script[1..]))
  }

  predicate InMap(l: Loop, events: seq<EpollEvent>) {
    forall k :: 0 <= k < |events| ==> events[k].fd < |l.channels|
  }

  lemma ActivateNamed(l: Loop, m: Interest, fd: nat, ops: seq<Op>)
    requires MapIs(l.channels, m) && fd < |l.channels| && (fd in m ==> Named(m, ops))
    ensures Activate(l, fd, ops).Fault? <==> fd !in m
    ensures fd in m ==>
      var after := Activate(l, fd, ops).loop;
      MapIs(after.channels, RegisterAll(m, ops)) && |after.channels| >= |l.channels|
  {
    hide ApplyAll, RegisterAll, Named;
    if fd in m {
      MapRunAgrees(l, m, ops);
    }
  }

  lemma EventFaultsExactly(l: Loop, m: Interest, e: EpollEvent, b: Behaviour)
    requires MapIs(l.channels, m) && e.fd < |l.channels| && Proper(m, e.fd, e.Report(), b)
    ensures var o := HandleSlot(l, e.fd, e.Report(), b);
            && (o.Fault? <==> Gone(m, e, b))
            && (o.Applied? ==>
                  MapIs(o.loop.channels, AfterSlot(m, e.Report(), b)) && |o.loop.channels| >= |l.channels|)
  {
    hide Activate, RegisterAll, Named, MapIs;
    var r := e.Report();
    if r.read {
      ActivateNamed(l, m, e.fd, b.onRead);
    }
    var o := ActivateIf(r.read, Applied(l, 0), e.fd, b.onRead);
    if r.write && o.Applied? {
      ActivateNamed(o.loop, AfterRead(m, r, b), e.fd, b.onWrite);
    }
  }

  /** The sweep reaches for a missing channel exactly when an earlier callback took away a descriptor still to come. */
  lemma {:induction false} EpollFaultsExactly(l: Loop, m: Interest, events: seq<EpollEvent>, script: seq<Behaviour>)
    requires |events| == |script| && MapIs(l.channels, m) && InMap(l, events) && AllProper(m, events, script)
    ensures EpollSweep(l, events, script).outcome.Fault? <==> SomeGone(m, events, script)
    decreases |events|
  {
    hide HandleSlot, MapIs, Proper, AfterSlot, Gone, EpollEvent.Report;
    if events != [] {
      EventFaultsExactly(l, m, events[0], script[0]);
      var o := HandleSlot(l, events[0].fd, events[0].Report(), script[0]);
      if o.Applied? {
        EpollFaultsExactly(o.loop, AfterSlot(m, events[0].Report(), script[0]), events[1..], script[1..]);
      }
    }
  }

  lemma {:induction false} KeptStays(m: Interest, ops: seq<Op>, fd: int)
    requires fd in m && Keeps(ops, fd)
    ensures fd in RegisterAll(m, ops)
    decreases |ops|
  {
    hide Translate;
    if ops != [] {
      assert fd in Register(m, ops[0]);
      assert Keeps(ops[1..], fd);
      KeptStays(Register(m, ops[0]), ops[1..], fd);
    }
  }

  /** Callbacks that unregister no descriptor but their own, and that one not before its second event. */
  predicate OnlyOwn(events: seq<EpollEvent>, script: seq<Behaviour>)
    requires |events| == |script|
  {
    && (forall j, k :: 0 <= j < |events| && 0 <= k < |events| && j != k ==>
          && events[j].fd != events[k].fd
          && Keeps(script[j].onRead, events[k].fd) && Keeps(script[j].onWrite, events[k].fd))
    && (forall k :: 0 <= k < |events| && events[k].write ==> Keeps(script[k].onRead, events[k].fd))
  }

  lemma StaysThroughEvent(m: Interest, r: Revents, b: Behaviour, fd: int)
    requires fd in m && Keeps(b.onRead, fd) && Keeps(b.onWrite, fd)
    ensures fd in AfterSlot(m, r, b)
  {
    hide RegisterAll, Keeps;
    KeptStays(m, b.onRead, fd);
    KeptStays(AfterRead(m, r, b), b.onWrite, fd);
  }

  /** That discipline is enough: no channel is missing. */
  lemma {:induction false} OwnRemovalsAreSafe(m: Interest, events: seq<EpollEvent>, script: seq<Behaviour>)
    requires |events| == |script| && OnlyOwn(events, script)
    requires forall k :: 0 <= k < |events| ==> events[k].fd in m
    ensures !SomeGone(m, events, script)
    decreases |events|
  {
    hide Keeps, RegisterAll, AfterSlot;
    if events != [] {
      var after := AfterSlot(m, events[0].Report(), script[0]);
      if events[0].write {
        KeptStays(m, script[0].onRead, events[0].fd);
      }
      forall k | 0 <= k < |events[1..]|
        ensures events[1..][k].fd in after
      {
        StaysThroughEvent(m, events[0].Report(), script[0], events[k + 1].fd);
      }
      OwnRemovalsAreSafe(after, events[1..], script[1..]);
    }
  }

  // ---------------------------------------------------------------------
  // Closing on an error event
  // ---------------------------------------------------------------------

  /**
   The descriptors closed are those of the error events that the sweep came to, in order: each
   is the one of the next error event, and without a fault none is left out.
   */
  lemma {:induction false} ClosedAreErrors(l: Loop, events: seq<EpollEvent>, script: seq<Behaviour>)
    requires |events| == |script|
    ensures var swept := EpollSweep(l, events, script);
            && swept.closed <= ErrorsOf(events)
            && (swept.outcome.Applied? ==> swept.closed == ErrorsOf(events))
    decreases |events|
  {
    hide HandleSlot;
    if events != [] {
      var o := HandleSlot(l, events[0].fd, events[0].Report(), script[0]);
      if o.Applied? {
        ClosedAreErrors(o.loop, events[1..], script[1..]);
      }
    }
  }

  function ErrorsOf(events: seq<EpollEvent>): seq<nat> {
    if events == [] then [] else ClosedBy(events[0]) + ErrorsOf(events[1..])
  }

  predicate ClosesAt(events: seq<EpollEvent>, k: nat, fd: nat)
    requires k < |events|
  {
    events[k].error && events[k].fd == fd
  }

  lemma {:induction false} ErrorsAre(events: seq<EpollEvent>, fd: nat)
    ensures fd in ErrorsOf(events) <==> exists k :: 0 <= k < |events| && ClosesAt(events, k, fd)
    decreases |events|
  {
    if events != [] {
      ErrorsAre(events[1..], fd);
      assert fd in ClosedBy(events[0]) <==> ClosesAt(events, 0, fd);
      forall k | 0 <= k < |events[1..]|
        ensures ClosesAt(events[1..], k, fd) == ClosesAt(events, k + 1, fd)
      {
      }
      if k :| 0 <= k < |events| && ClosesAt(events, k, fd) {
        assert k > 0 ==> ClosesAt(events[1..], k - 1, fd);
      }
    }
  }
}
