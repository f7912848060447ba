/**
 The event loop object of event_loop.c: the linked list of pending operations, the channel
 map and the poll table, updated in place. Each method is tied to a function of Registration.
 */
module EventLoops {
  import opened Options
  import opened Registration
  import Dispatch
  import Epoll

  /** channel_struc: the descriptor is fixed, the events change between an operation's enqueue and its drain. */
  class ChannelObject {
    const fd: int
    var events: bv32

    constructor (fd: int, events: bv32)
      ensures this.fd == fd && this.events == events
    {
      this.fd, this.events := fd, events;
    }

    function Now(): Channel
      reads this
    {
      Channel(fd, events)
    }
  }

  /** channel_elem_struc. */
  class ChannelElem {
    const kind: int
    const channel: ChannelObject
    var next: ChannelElem?

    constructor (kind: int, channel: ChannelObject)
      ensures this.kind == kind && this.channel == channel && next == null
    {
      this.kind, this.channel, next := kind, channel, null;
    }
  }

  class EventLoop {
    var channels: array<Option<Channel>>
    const eventSet: array<Slot>
    var isHandlePending: bool
    var pendingHead: ChannelElem?
    var pendingTail: ChannelElem?
    /** The pending list from head to tail. */
    ghost var elems: seq<ChannelElem>

    ghost predicate Valid()
      reads this, elems
    {
      eventSet.Length == POLL_MAX_SIZE && Linked(elems, pendingHead, pendingTail)
    }

    ghost function Model(): Loop
      reads this, channels, eventSet
    {
      Loop(channels[..], eventSet[..])
    }

    /** The pending operations as they would be drained now. */
    ghost function Pending(): seq<Op>
      reads this, set e | e in elems :: e.channel
    {
      OpsOf(elems)
    }

    constructor ()
      ensures Valid() && fresh(channels) && fresh(eventSet)
      ensures Model() == EmptyLoop() && elems == [] && !isHandlePending
    {
      channels := new Option<Channel>[0];
      eventSet := new Slot[POLL_MAX_SIZE](_ => Slot(-1, Mask(false, false)));
      isHandlePending, pendingHead, pendingTail, elems := false, null, null, [];
      new;
      assert eventSet[..] == EmptyLoop().slots;
      assert channels[..] == [];
    }

    /** event_loop_channel_buffer_noblock: one more operation at the end of the list. */
    method BufferNoblock(channel: ChannelObject, kind: int)
      requires Valid()
      modifies this`pendingHead, this`pendingTail, this`elems, pendingTail
      ensures Valid()
      ensures |elems| == |old(elems)| + 1 && elems[..|old(elems)|] == old(elems) && fresh(elems[|old(elems)|])
      ensures elems[|old(elems)|].kind == kind && elems[|old(elems)|].channel == channel
      ensures Pending() == old(Pending()) + [Op(kind, channel.Now())]
    {
      hide OpsOf;
      ghost var before := elems;
      var elem := new ChannelElem(kind, channel);
      if pendingHead == null {
        pendingHead, pendingTail := elem, elem;
      } else {
        pendingTail.next := elem;
        pendingTail := elem;
      }
      elems := elems + [elem];
      OpsOfAppend(before, elem);
    }

    /** map_expand_space. */
    method MapExpandSpace(fd: nat)
      modifies this`channels
      ensures channels[..] == Expanded(old(channels[..]), fd)
      ensures channels == old(channels) || fresh(channels)
    {
      if channels.Length <= fd {
        var entries := if channels.Length == 0 then 32 else channels.Length;
        while entries <= fd
          invariant entries > 0 && Doubled(entries, fd) == Capacity(channels.Length, fd)
          decreases fd - entries
        {
          entries := 2 * entries;
        }
        ExpandKeeps(channels[..], fd);
        var longer := new Option<Channel>[entries](_ => None);
        for i := 0 to channels.Length
          modifies longer
          invariant forall k :: 0 <= k < i ==> longer[k] == channels[k]
          invariant forall k :: i <= k < entries ==> longer[k] == None
        {
          longer[i] := channels[i];
        }
        assert longer[..] == Expanded(channels[..], fd);
        channels := longer;
      }
    }

    /** The search loop that the three table operations share. */
    method FindSlot(fd: int) returns (i: nat)
      ensures i == Find(eventSet[..], fd)
    {
      i := 0;
      while i < eventSet.Length && !Hits(eventSet[i], fd)
        invariant i <= eventSet.Length
        invariant forall j :: 0 <= j < i ==> !Hits(eventSet[..][j], fd)
      {
        i := i + 1;
      }
      var k := Find(eventSet[..], fd);
      assert i < eventSet.Length ==> Hits(eventSet[..][i], fd);
    }

    method PollAdd(c: Channel)
      modifies eventSet
      ensures eventSet[..] == Registration.PollAdd(old(eventSet[..]), c)
    {
      var i := FindSlot(-1);
      if i < eventSet.Length {
        eventSet[i] := Slot(c.fd, Translate(c.events));
      }
    }

    method PollDelete(c: Channel)
      requires c.fd >= 0
      modifies eventSet
      ensures eventSet[..] == Registration.PollDelete(old(eventSet[..]), c)
    {
      var i := FindSlot(c.fd);
      if i < eventSet.Length {
        eventSet[i] := eventSet[i].(fd := -1);
      }
    }

    method PollUpdate(c: Channel)
      requires c.fd >= 0
      modifies eventSet
      ensures eventSet[..] == Registration.PollUpdate(old(eventSet[..]), c)
    {
      var i := FindSlot(c.fd);
      if i < eventSet.Length {
        eventSet[i] := eventSet[i].(mask := Translate(c.events));
      }
    }

    method HandlePendingAdd(c: Channel) returns (result: int)
      modifies this`channels, channels, eventSet
      ensures channels == old(channels) || fresh(channels)
      ensures HandleAdd(old(Model()), c) == Applied(Model(), result)
    {
      hide Find, Expanded;
      if c.fd < 0 {
        return 0;
      }
      ExpandKeeps(channels[..], c.fd);
      if c.fd >= channels.Length {
        MapExpandSpace(c.fd);
      }
      if channels[c.fd] == None {
        channels[c.fd] := Some(c);
        PollAdd(c);
        return 1;
      }
      return 0;
    }

    /** `ok` is false where the program would read through a null channel. */
    method HandlePendingRemove(c: Channel) returns (ok: bool, result: int)
      modifies channels, eventSet
      ensures HandleRemove(old(Model()), c) == if ok then Applied(Model(), result) else Fault
    {
      hide Find;
      if c.fd < 0 {
        return true, 0;
      }
      if c.fd >= channels.Length {
        return true, -1;
      }
      var d := channels[c.fd];
      if d.None? || d.value.fd < 0 {
        return false, 0;
      }
      PollDelete(d.value);
      channels[c.fd] := None;
      return true, 1;
    }

    /** `ok` is false where the program would read behind the end of the map. */
    method HandlePendingUpdate(c: Channel) returns (ok: bool, result: int)
      modifies eventSet
      ensures HandleUpdate(old(Model()), c) == if ok then Applied(Model(), result) else Fault
    {
      hide Find;
      if c.fd < 0 {
        return true, 0;
      }
      if c.fd >= channels.Length {
        return false, 0;
      }
      if channels[c.fd] == None {
        return true, -1;
      }
      PollUpdate(c);
      return true, 0;
    }

    method HandleOne(kind: int, c: Channel) returns (ok: bool)
      modifies this`channels, channels, eventSet
      ensures channels == old(channels) || fresh(channels)
      ensures match Apply(old(Model()), Op(kind, c))
              case Applied(l, _) => ok && Model() == l
              case Fault => !ok
    {
      hide HandleAdd, HandleRemove, HandleUpdate;
      ok := true;
      var result;
      if kind == 1 {
        result := HandlePendingAdd(c);
      } else if kind == 2 {
        ok, result := HandlePendingRemove(c);
      } else if kind == 3 {
        ok, result := HandlePendingUpdate(c);
      }
    }

    /** event_loop_handle_pending_channel: the list is walked from its head and then emptied. */
    method HandlePendingChannel() returns (ok: bool)
      requires Valid() && !isHandlePending
      modifies this`isHandlePending, this`pendingHead, this`pendingTail, this`elems, this`channels, channels, eventSet
      ensures match ApplyAll(old(Model()), old(Pending()))
              case Applied(l, _) => ok && Valid() && Model() == l && elems == [] && !isHandlePending
              case Fault => !ok
    {
      hide Apply, Linked, OpsOf;
      isHandlePending := true;
      ghost var i: nat := 0;
      ghost var ops, initial := Pending(), Model();
      var elem := pendingHead;
      FirstElem(elems, pendingHead, pendingTail);
      OpsOfLength(elems);
      while elem != null
        invariant i <= |elems| == |ops| && elems == old(elems) && Linked(elems, pendingHead, pendingTail)
        invariant elem == if i < |elems| then elems[i] else null
        invariant channels == old(channels) || fresh(channels)
        invariant OpsOf(elems) == ops
        invariant ApplyAll(initial, ops) == ApplyAll(Model(), ops[i..])
        decreases |elems| - i
      {
        OpsOfAt(elems, i);
        NextElem(elems, pendingHead, pendingTail, i);
        ApplyAllStep(Model(), ops, i);
        ok := HandleOne(elem.kind, elem.channel.Now());
        if !ok {
          return;
        }
        elem, i := elem.next, i + 1;
      }
      assert ops[i..] == [];
      pendingHead, pendingTail, elems := null, null, [];
      isHandlePending := false;
      EmptyLinked();
      ok := true;
    }

    /** What a callback does to the loop: the operations that are drained while it runs. */
    method RunCallback(ops: seq<Op>) returns (ok: bool)
      modifies this`channels, channels, eventSet
      ensures channels == old(channels) || fresh(channels)
      ensures match ApplyAll(old(Model()), ops)
              case Applied(l, _) => ok && Model() == l
              case Fault => !ok
    {
      hide Apply;
      ghost var initial := Model();
      for i := 0 to |ops|
        invariant channels == old(channels) || fresh(channels)
        invariant ApplyAll(initial, ops) == ApplyAll(Model(), ops[i..])
      {
        ApplyAllStep(Model(), ops, i);
        ok := HandleOne(ops[i].kind, ops[i].channel);
        if !ok {
          return;
        }
      }
      assert ops[|ops|..] == [];
      ok := true;
    }

    /** channel_event_activate for one event; `ok` is false where no channel of that descriptor is in the map. */
    method ChannelEventActivate(fd: nat, ops: seq<Op>) returns (ok: bool)
      modifies this`channels, channels, eventSet
      ensures channels == old(channels) || fresh(channels)
      ensures match Dispatch.Activate(old(Model()), fd, ops)
              case Applied(l, _) => ok && Model() == l
              case Fault => !ok
    {
      hide ApplyAll;
      if fd >= channels.Length {
        return true;
      }
      var channel := channels[fd];
      if channel.None? || channel.value.fd != fd {
        return false;
      }
      ok := RunCallback(ops);
    }

    /** The body of the sweep for one ready slot, whose descriptor was copied out beforehand. */
    method HandleSlot(i: nat, fd: nat, r: Dispatch.Revents, b: Dispatch.Behaviour)
      returns (ok: bool, calls: seq<Dispatch.Call>)
      modifies this`channels, channels, eventSet
      ensures channels == old(channels) || fresh(channels)
      ensures calls == Dispatch.SlotCalls(old(Model()), i, fd, r, b)
      ensures match Dispatch.HandleSlot(old(Model()), fd, r, b)
              case Applied(l, _) => ok && Model() == l
              case Fault => !ok
    {
      hide Dispatch.Activate;
      ok, calls := true, [];
      if r.read {
        calls := calls + [Dispatch.Call(i, fd, false)];
        ok := ChannelEventActivate(fd, b.onRead);
      }
      if ok && r.write {
        calls := calls + [Dispatch.Call(i, fd, true)];
        ok := ChannelEventActivate(fd, b.onWrite);
      }
    }

    /** epoll_dispatch, given the events that epoll_wait reported; `closed` are the descriptors it closes. */
    method EpollDispatch(events: seq<Epoll.EpollEvent>, script: seq<Dispatch.Behaviour>)
      returns (ok: bool, closed: seq<nat>)
      requires |events| == |script|
      modifies this`channels, channels, eventSet
      ensures channels == old(channels) || fresh(channels)
      ensures var swept := Epoll.EpollSweep(old(Model()), events, script);
              && closed == swept.closed
              && match swept.outcome
                 case Applied(l, _) => ok && Model() == l
                 case Fault => !ok
    {
      hide Dispatch.HandleSlot, Dispatch.SlotCalls, Epoll.EpollSweep;
      ghost var all := Epoll.EpollSweep(Model(), events, script);
      ok, closed := true, [];
      for i := 0 to |events|
        invariant ok && (channels == old(channels) || fresh(channels))
        invariant var rest := Epoll.EpollSweep(Model(), events[i..], script[i..]);
                  all == Epoll.EpollSwept(rest.outcome, closed + rest.closed)
      {
        Epoll.EpollStep(Model(), events, script, i);
        if events[i].error {
          closed := closed + [events[i].fd];
        }
        var calls;
        ok, calls := HandleSlot(i, events[i].fd, events[i].Report(), script[i]);
        if !ok {
          return;
        }
      }
      Epoll.EpollEnd(Model(), events, script);
    }

    /** poll_dispatch, given what poll reported: `readyNumber` slots in `revents`. */
    method PollDispatch(revents: array<Dispatch.Revents>, readyNumber: int, script: seq<Dispatch.Behaviour>)
      returns (ok: bool, calls: seq<Dispatch.Call>)
      requires Dispatch.Sized(Model(), revents[..], script)
      modifies this`channels, channels, eventSet
      ensures channels == old(channels) || fresh(channels)
      ensures readyNumber <= 0 ==> ok && calls == [] && Model() == old(Model())
      ensures readyNumber > 0 ==>
                var swept := Dispatch.Sweep(old(Model()), old(revents[..]), readyNumber, 0, script);
                && calls == swept.calls
                && match swept.outcome
                   case Applied(l, _) => ok && Model() == l
                   case Fault => !ok
    {
      hide Dispatch.HandleSlot, Dispatch.SlotCalls, Dispatch.Sweep;
      ok, calls := true, [];
      if readyNumber <= 0 {
        return;
      }
      var ready := readyNumber;
      ghost var reported := revents[..];
      ghost var all := Dispatch.Sweep(Model(), reported, readyNumber, 0, script);
      for i := 0 to eventSet.Length
        invariant channels == old(channels) || fresh(channels)
        invariant eventSet.Length == POLL_MAX_SIZE && Dispatch.Sized(Model(), reported, script)
        invariant ready > 0 && ok && revents[..] == reported
        invariant var rest := Dispatch.Sweep(Model(), reported, ready, i, script);
                  all == Dispatch.Swept(rest.outcome, calls + rest.calls)
      {
        Dispatch.SweepStep(Model(), reported, ready, i, script);
        var fd := eventSet[i].fd;
        if fd < 0 || !revents[i].Ready() {
          continue;
        }
        var more;
        ok, more := HandleSlot(i, fd, revents[i], script[i]);
        calls := calls + more;
        if !ok {
          return;
        }
        ready := ready - 1;
        if ready <= 0 {
          return;
        }
      }
      Dispatch.SweepStep(Model(), reported, ready, eventSet.Length, script);
      assert calls + [] == calls;
    }
  }

  lemma FirstElem(elems: seq<ChannelElem>, head: ChannelElem?, tail: ChannelElem?)
    requires Linked(elems, head, tail)
    ensures head == if elems == [] then null else elems[0]
  {
  }

  lemma NextElem(elems: seq<ChannelElem>, head: ChannelElem?, tail: ChannelElem?, i: nat)
    requires Linked(elems, head, tail) && i < |elems|
    ensures elems[i].next == if i + 1 < |elems| then elems[i + 1] else null
  {
  }

  lemma EmptyLinked()
    ensures Linked([], null, null)
  {
  }

  lemma ApplyAllStep(l: Loop, ops: seq<Op>, i: nat)
    requires i < |ops|
    ensures ApplyAll(l, ops[i..])
         == match Apply(l, ops[i])
            case Fault => Fault
            case Applied(m, _) => ApplyAll(m, ops[i + 1..])
  {
    assert ops[i..][1..] == ops[i + 1..];
  }

  /** The elements from head to tail, each pointing at the one after it. */
  ghost predicate Linked(elems: seq<ChannelElem>, head: ChannelElem?, tail: ChannelElem?)
    reads elems
  {
    && (head == null <==> elems == [])
    && (elems != [] ==> head == elems[0] && tail == elems[|elems| - 1] && elems[|elems| - 1].next == null)
    && (forall i, j :: 0 <= i < j < |elems| && j == i + 1 ==> elems[i].next == elems[j])
    && (forall i, j :: 0 <= i < j < |elems| ==> elems[i] != elems[j])
  }

  ghost function OpsOf(elems: seq<ChannelElem>): seq<Op>
    reads set e | e in elems :: e.channel
  {
    if elems == [] then [] else [Op(elems[0].kind, elems[0].channel.Now())] + OpsOf(elems[1..])
  }

  lemma {:induction false} OpsOfLength(elems: seq<ChannelElem>)
    ensures |OpsOf(elems)| == |elems|
  {
    if elems != [] {
      OpsOfLength(elems[1..]);
    }
  }

  lemma {:induction false} OpsOfAt(elems: seq<ChannelElem>, i: nat)
    requires i < |elems|
    ensures |OpsOf(elems)| == |elems| && OpsOf(elems)[i] == Op(elems[i].kind, elems[i].channel.Now())
  {
    OpsOfLength(elems);
    if i > 0 {
      OpsOfAt(elems[1..], i - 1);
    }
  }

  lemma {:induction false} OpsOfAppend(elems: seq<ChannelElem>, elem: ChannelElem)
    ensures OpsOf(elems + [elem]) == OpsOf(elems) + [Op(elem.kind, elem.channel.Now())]
  {
    if elems == [] {
      assert [elem][1..] == [] && elems + [elem] == [elem];
    } else {
      assert (elems + [elem])[1..] == elems[1..] + [elem];
      OpsOfAppend(elems[1..], elem);
    }
  }
}
