/**
 Inputs on which a sweep does what it should not, each an instance of a condition proved exact
 in Dispatch, DispatchSlots or Epoll.
 */
module DispatchInputs {
  import opened Options
  import opened Registration
  import opened Dispatch
  import opened Epoll
  import opened EpollInterest

  function Reading(fd: int): Channel {
    Channel(fd, EVENT_READ)
  }

  /** Descriptors 5 and 6 are registered for reading, in the first two slots. */
  function TwoReaders(): Loop {
    Loop(seq(32, k => if k == 5 || k == 6 then Some(Reading(k)) else None),
         seq(POLL_MAX_SIZE, k => if k == 0 then Slot(5, Mask(true, false))
                               else if k == 1 then Slot(6, Mask(true, false))
                               else Slot(-1, Mask(false, false))))
  }

  /**
   Both descriptors are reported; the callback of 5 unregisters 6 and
   registers 7, which takes over the slot of 6 and is then handled although poll never
   reported it.
   */
  lemma StaleReadiness(revents: seq<Revents>, script: seq<Behaviour>)
    requires Sized(TwoReaders(), revents, script)
    requires forall k :: 0 <= k < POLL_MAX_SIZE ==> revents[k] == Revents(k < 2, false, false)
    requires script[0].onRead == [Op(2, Reading(6)), Op(1, Reading(7))]
    ensures Call(1, 7, false) in Sweep(TwoReaders(), revents, 2, 0, script).calls
  {
    hide Find, Capacity, Translate;
    var l := TwoReaders();
    var remove, add := Op(2, Reading(6)), Op(1, Reading(7));
    var m := HandleRemove(l, Reading(6)).loop;
    assert Find(l.slots, 6) == 1 by {
      assert !Hits(l.slots[0], 6) && Hits(l.slots[1], 6);
    }
    assert m.slots == l.slots[1 := Slot(-1, Mask(true, false))];
    assert Expanded(m.channels, 7) == m.channels by {
      ExpandKeeps(m.channels, 7);
    }
    assert Find(m.slots, -1) == 1 by {
      assert !Hits(m.slots[0], -1) && Hits(m.slots[1], -1);
    }
    var n := HandleAdd(m, Reading(7)).loop;
    assert n.slots[1].fd == 7;
    assert [remove, add][1..] == [add] && [add][1..] == [];
    assert ApplyAll(l, script[0].onRead) == Applied(n, 0) by {
      assert ApplyAll(n, []) == Applied(n, 0);
      assert ApplyAll(m, [add]) == Applied(n, 0);
    }
    assert HandleSlot(l, 5, revents[0], script[0]) == Applied(n, 0);
    var rest := Sweep(n, revents, 1, 1, script);
    assert SlotCalls(n, 1, 7, revents[1], script[1]) == [Call(1, 7, false)];
    assert rest.calls[0] == Call(1, 7, false);
  }

  /**
   Descriptor 5 is reported readable and writable, and its read callback unregisters it: the
   write half finds no channel.
   */
  lemma ReaderTakesItself(revents: seq<Revents>, script: seq<Behaviour>)
    requires Sized(TwoReaders(), revents, script)
    requires revents[0] == Revents(true, true, false) && script[0].onRead == [Op(2, Reading(5))]
    ensures FullSweep(TwoReaders(), revents, 0, script).outcome.Fault?
  {
    hide Find, Translate;
    var l := TwoReaders();
    var n := HandleRemove(l, Reading(5)).loop;
    assert n.channels[5] == None;
    assert ApplyAll(l, script[0].onRead) == Applied(n, 0) by {
      assert script[0].onRead[1..] == [];
    }
    assert HandleSlot(l, 5, revents[0], script[0]).Fault?;
  }

  lemma {:induction false} QuietFrom(revents: seq<Revents>, i: nat)
    requires i <= |revents| && forall k :: i <= k < |revents| ==> !revents[k].Ready()
    ensures ReadyCount(revents, i) == 0
    decreases |revents| - i
  {
    if i < |revents| {
      QuietFrom(revents, i + 1);
    }
  }

  /**
   Without it the two dispatchers differ. Both descriptors are reported and the callback of 5
   unregisters 6: poll finds the slot free and passes it over, epoll reaches for its channel.
   */
  lemma OnlyPollSurvives(revents: seq<Revents>, script: seq<Behaviour>)
    requires Sized(TwoReaders(), revents, script)
    requires forall k :: 0 <= k < POLL_MAX_SIZE ==> revents[k] == Revents(k < 2, false, false)
    requires script[0].onRead == [Op(2, Reading(6))]
    ensures Sweep(TwoReaders(), revents, 2, 0, script).outcome.Applied?
    ensures EpollSweep(TwoReaders(), [EpollEvent(5, true, false, false), EpollEvent(6, true, false, false)],
                       script[..2]).outcome.Fault?
  {
    hide Find, Translate;
    var l := TwoReaders();
    var n := HandleRemove(l, Reading(6)).loop;
    assert Find(l.slots, 6) == 1 by {
      assert !Hits(l.slots[0], 6) && Hits(l.slots[1], 6);
    }
    assert n.slots[1].fd == -1 && n.channels[6] == None;
    assert ApplyAll(l, script[0].onRead) == Applied(n, 0) by {
      assert script[0].onRead[1..] == [];
    }
    assert HandleSlot(l, 5, revents[0], script[0]) == Applied(n, 0);
    QuietFrom(revents, 2);
    CountdownIsSound(n, revents, 1, 2, script);
    NoneReady(n, revents, 2, script);
    assert Sweep(n, revents, 1, 1, script) == Sweep(n, revents, 1, 2, script);
    EpollSecondFaults(l, n, script[..2]);
  }

  lemma EpollSecondFaults(l: Loop, n: Loop, script: seq<Behaviour>)
    requires |script| == 2
    requires HandleSlot(l, 5, Revents(true, false, false), script[0]) == Applied(n, 0)
    requires 6 < |n.channels| && n.channels[6] == None
    ensures EpollSweep(l, [EpollEvent(5, true, false, false), EpollEvent(6, true, false, false)], script).outcome.Fault?
  {
    hide ApplyAll;
    var events := [EpollEvent(5, true, false, false), EpollEvent(6, true, false, false)];
    assert events[1..] == [events[1]];
    assert EpollSweep(n, events[1..], script[1..]).outcome.Fault?;
  }

  /** What TwoReaders has registered. */
  function BothWatched(): Interest {
    map[5 := Mask(true, false), 6 := Mask(true, false)]
  }

  /**
   An error event for 5: it is closed, its channel stays, and the map no longer agrees with the
   kernel; adding 5 again, for a new connection, changes nothing about that.
   */
  lemma ErrorLeavesChannel(b: Behaviour)
    ensures var l, m, events := TwoReaders(), BothWatched(), [EpollEvent(5, false, false, true)];
            var k := KernelRun(l, m, SweepTrace(l, events, [b]));
            && MapIs(l.channels, m) && EpollSweep(l, events, [b]) == EpollSwept(Applied(l, 0), [5])
            && 5 !in k && 6 in k && !MapIs(l.channels, k)
            && LoopRun(l, [Drain(Op(1, Reading(5)))]) == Applied(l, 0)
            && KernelRun(l, k, [Drain(Op(1, Reading(5)))]) == k
  {
    hide Find, Translate, Capacity;
    var l, m, e := TwoReaders(), BothWatched(), EpollEvent(5, false, false, true);
    assert l.channels[5] == Some(Reading(5));
    assert [e][1..] == [] && [b][1..] == [];
    assert SweepTrace(l, [e], [b]) == [Close(5)] by {
      assert EventTrace(l, e, b) == [Close(5)];
    }
    assert KernelRun(l, m, [Close(5)]) == m - {5} by {
      assert [Close(5)][1..] == [];
    }
    var add := Drain(Op(1, Reading(5)));
    ExpandKeeps(l.channels, 5);
    assert [add][1..] == [];
    assert HandleAdd(l, Reading(5)) == Applied(l, 0);
  }
}
