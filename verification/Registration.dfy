/**
 What the owner of an event loop does with one pending operation: the channel map of
 channel.c, the slot table of the poll dispatcher and the interest map that epoll keeps
 (event_dispatcher.c and the three handlers of event_loop.c).
 */
module Registration {
  import opened Options

  const EVENT_READ: bv32 := 2
  const EVENT_WRITE: bv32 := 4
  const POLL_MAX_SIZE := 1024

  /** A channel as it stands when its operation is drained. */
  datatype Channel = Channel(fd: int, events: bv32)

  /** POLLRDNORM or EPOLLIN, and POLLWRNORM or EPOLLOUT. */
  datatype Mask = Mask(read: bool, write: bool)

  function Translate(events: bv32): Mask {
    Mask(events & EVENT_READ != 0, events & EVENT_WRITE != 0)
  }

  datatype Slot = Slot(fd: int, mask: Mask)

  /** `kind` is 1 to add, 2 to remove, 3 to update; anything else is ignored. */
  datatype Op = Op(kind: int, channel: Channel)

  datatype Loop = Loop(channels: seq<Option<Channel>>, slots: seq<Slot>)

  // ---------------------------------------------------------------------
  // The channel map grows by doubling
  // ---------------------------------------------------------------------

  function Doubled(n: nat, fd: nat): (m: nat)
    requires n > 0
    ensures fd < m && n <= m && (m == n || (2 * n <= m <= 2 * fd))
    decreases fd + 1 - n
  {
    if n <= fd then Doubled(2 * n, fd) else n
  }

  /** map_expand_space: the new size when `n` entries must make room for index `fd`. */
  function Capacity(n: nat, fd: nat): nat {
    if n <= fd then Doubled(if n == 0 then 32 else n, fd) else n
  }

  function Expanded(channels: seq<Option<Channel>>, fd: nat): seq<Option<Channel>> {
    var n := Capacity(|channels|, fd);
    channels + seq(if n >= |channels| then n - |channels| else 0, _ => None)
  }

  /** Old entries stay, new ones are null, and growth ends within twice the index. */
  lemma ExpandKeeps(channels: seq<Option<Channel>>, fd: nat)
    ensures var after := Expanded(channels, fd);
            && channels <= after && fd < |after|
            && (forall i :: |channels| <= i < |after| ==> after[i] == None)
            && (|channels| <= fd ==> |after| <= if 2 * fd > 32 then 2 * fd else 32)
            && (|channels| > fd ==> after == channels)
  {
  }

  function Times2(n: nat, k: nat): nat {
    if k == 0 then n else 2 * Times2(n, k - 1)
  }

  /** Growth doubles as often as it must, and not once more. */
  lemma {:induction false} DoublesJustEnough(n: nat, fd: nat) returns (k: nat)
    requires n > 0
    ensures Doubled(n, fd) == Times2(n, k) && fd < Times2(n, k) && (k > 0 ==> Times2(n, k - 1) <= fd)
    decreases fd + 1 - n
  {
    if n <= fd {
      var j := DoublesJustEnough(2 * n, fd);
      Times2Again(n, j);
      if j > 0 {
        Times2Again(n, j - 1);
      }
      k := j + 1;
    } else {
      k := 0;
    }
  }

  lemma {:induction false} Times2Again(n: nat, k: nat)
    ensures Times2(2 * n, k) == Times2(n, k + 1)
    decreases k
  {
    if k > 0 {
      Times2Again(n, k - 1);
    }
  }

  /** The first growth starts from 32 entries. */
  lemma FirstGrowth(fd: nat) returns (k: nat)
    ensures |Expanded([], fd)| == Times2(32, k) && fd < Times2(32, k) && (k > 0 ==> Times2(32, k - 1) <= fd)
  {
    k := DoublesJustEnough(32, fd);
  }

  /** The entries copied by all growths of a run, starting from `n` entries. */
  function Copied(n: nat, fds: seq<nat>): nat
    decreases |fds|
  {
    if fds == [] then 0
    else (if n <= fds[0] then n else 0) + Copied(Capacity(n, fds[0]), fds[1..])
  }

  function FinalCapacity(n: nat, fds: seq<nat>): nat
    decreases |fds|
  {
    if fds == [] then n else FinalCapacity(Capacity(n, fds[0]), fds[1..])
  }

  /** Doubling makes copying linear: all growths together copy fewer entries than there are at the end. */
  lemma {:induction false} CopyingIsLinear(n: nat, fds: seq<nat>)
    ensures Copied(n, fds) + n <= FinalCapacity(n, fds)
    decreases |fds|
  {
    if fds != [] {
      CopyingIsLinear(Capacity(n, fds[0]), fds[1..]);
    }
  }

  lemma EmptyMapCopies(fds: seq<nat>)
    requires fds != []
    ensures Copied(0, fds) < FinalCapacity(0, fds)
  {
    CopyingIsLinear(Capacity(0, fds[0]), fds[1..]);
  }

  // ---------------------------------------------------------------------
  // The poll table
  // ---------------------------------------------------------------------

  /** The first slot for which the table loop stops: the one holding `fd`, or a free one when fd is negative. */
  function Find(slots: seq<Slot>, fd: int): (i: nat)
    ensures i <= |slots|
    ensures i < |slots| ==> Hits(slots[i], fd)
    ensures forall j :: 0 <= j < i ==> !Hits(slots[j], fd)
  {
    if slots == [] || Hits(slots[0], fd) then 0 else Find(slots[1..], fd) + 1
  }

  predicate Hits(s: Slot, fd: int) {
    if fd < 0 then s.fd < 0 else s.fd == fd
  }

  /** A full table drops the registration. */
  function PollAdd(slots: seq<Slot>, c: Channel): seq<Slot> {
    var i := Find(slots, -1);
    if i < |slots| then slots[i := Slot(c.fd, Translate(c.events))] else slots
  }

  function PollDelete(slots: seq<Slot>, c: Channel): seq<Slot>
    requires c.fd >= 0
  {
    var i := Find(slots, c.fd);
    if i < |slots| then slots[i := slots[i].(fd := -1)] else slots
  }

  function PollUpdate(slots: seq<Slot>, c: Channel): seq<Slot>
    requires c.fd >= 0
  {
    var i := Find(slots, c.fd);
    if i < |slots| then slots[i := slots[i].(mask := Translate(c.events))] else slots
  }

  // ---------------------------------------------------------------------
  // One operation
  // ---------------------------------------------------------------------

  /** Fault: a null channel is dereferenced, or the map is read behind its end. */
  datatype Outcome = Applied(loop: Loop, result: int) | Fault

  function HandleAdd(l: Loop, c: Channel): Outcome {
    if c.fd < 0 then Applied(l, 0)
    else
      ExpandKeeps(l.channels, c.fd);
      var channels := Expanded(l.channels, c.fd);
      if channels[c.fd] == None then Applied(Loop(channels[c.fd := Some(c)], PollAdd(l.slots, c)), 1)
      else Applied(l.(channels := channels), 0)
  }

  function HandleRemove(l: Loop, c: Channel): Outcome {
    if c.fd < 0 then Applied(l, 0)
    else if c.fd >= |l.channels| then Applied(l, -1)
    else match l.channels[c.fd]
      case None => Fault
      case Some(d) =>
        if d.fd < 0 then Fault
        else Applied(Loop(l.channels[c.fd := None], PollDelete(l.slots, d)), 1)
  }

  function HandleUpdate(l: Loop, c: Channel): Outcome {
    if c.fd < 0 then Applied(l, 0)
    else if c.fd >= |l.channels| then Fault
    else if l.channels[c.fd] == None then Applied(l, -1)
    else Applied(l.(slots := PollUpdate(l.slots, c)), 0)
  }

  function Apply(l: Loop, op: Op): Outcome {
    if op.kind == 1 then HandleAdd(l, op.channel)
    else if op.kind == 2 then HandleRemove(l, op.channel)
    else if op.kind == 3 then HandleUpdate(l, op.channel)
    else Applied(l, 0)
  }

  function ApplyAll(l: Loop, ops: seq<Op>): Outcome
    decreases |ops|
  {
    if ops == [] then Applied(l, 0)
    else match Apply(l, ops[0])
      case Fault => Fault
      case Applied(m, _) => ApplyAll(m, ops[1..])
  }

  /** Equal up to the return value of the last operation. */
  predicate SameLoop(o: Outcome, p: Outcome) {
    (o.Fault? <==> p.Fault?) && (o.Applied? && p.Applied? ==> o.loop == p.loop)
  }

  function ApplyTo(o: Outcome, op: Op): Outcome {
    if o.Fault? then Fault else Apply(o.loop, op)
  }

  function ApplyAllTo(o: Outcome, ops: seq<Op>): Outcome {
    if o.Fault? then Fault else ApplyAll(o.loop, ops)
  }

  lemma {:induction false} ApplyMore(l: Loop, ops: seq<Op>, more: seq<Op>)
    ensures SameLoop(ApplyAll(l, ops + more), ApplyAllTo(ApplyAll(l, ops), more))
    decreases |ops|
  {
    hide Apply;
    if ops == [] {
      assert ops + more == more;
    } else {
      assert (ops + more)[1..] == ops[1..] + more;
      if Apply(l, ops[0]).Applied? {
        ApplyMore(Apply(l, ops[0]).loop, ops[1..], more);
      }
    }
  }

  lemma ApplyOneMore(l: Loop, ops: seq<Op>, op: Op)
    ensures SameLoop(ApplyAll(l, ops + [op]), ApplyTo(ApplyAll(l, ops), op))
  {
    hide Apply;
    ApplyMore(l, ops, [op]);
    if ApplyAll(l, ops).Applied? {
      ApplyOne(ApplyAll(l, ops).loop, op);
    }
  }

  lemma ApplyOne(l: Loop, op: Op)
    ensures SameLoop(ApplyAll(l, [op]), Apply(l, op))
  {
    hide Apply;
    assert [op][1..] == [];
  }

  // ---------------------------------------------------------------------
  // The interest map
  // ---------------------------------------------------------------------

  type Interest = map<int, Mask>

  /** The same operations on a map from descriptors to masks, as epoll keeps it. */
  function Register(m: Interest, op: Op): Interest {
    var fd, mask := op.channel.fd, Translate(op.channel.events);
    if fd < 0 then m
    else if op.kind == 1 then (if fd in m then m else m[fd := mask])
    else if op.kind == 2 then m - {fd}
    else if op.kind == 3 then (if fd in m then m[fd := mask] else m)
    else m
  }

  function RegisterAll(m: Interest, ops: seq<Op>): Interest
    decreases |ops|
  {
    if ops == [] then m else RegisterAll(Register(m, ops[0]), ops[1..])
  }

  /** The two have the same to say of one descriptor. */
  predicate SameAt(m: Interest, n: Interest, fd: int) {
    (fd in m <==> fd in n) && (fd in m ==> m[fd] == n[fd])
  }

  /** The slot table holds exactly the entries of the interest map, each once. */
  ghost predicate TableIs(slots: seq<Slot>, m: Interest) {
    && |slots| == POLL_MAX_SIZE
    && (forall i :: 0 <= i < |slots| && slots[i].fd >= 0 ==> slots[i].fd in m && m[slots[i].fd] == slots[i].mask)
    && (forall i, j :: 0 <= i < j < |slots| && slots[i].fd >= 0 ==> slots[i].fd != slots[j].fd)
    && (forall fd :: fd in m ==> fd >= 0 && Find(slots, fd) < |slots|)
  }

  /** The channel map has a channel, with its own descriptor, for exactly the registered descriptors. */
  ghost predicate MapIs(channels: seq<Option<Channel>>, m: Interest) {
    && (forall fd :: 0 <= fd < |channels| ==> (channels[fd].Some? <==> fd in m))
    && (forall fd :: fd in m ==> 0 <= fd < |channels| && channels[fd].Some? && channels[fd].value.fd == fd)
  }

  ghost predicate Agree(l: Loop, m: Interest) {
    TableIs(l.slots, m) && MapIs(l.channels, m)
  }

  // ---------------------------------------------------------------------
  // Counting slots
  // ---------------------------------------------------------------------

  /** The descriptors in the first n slots. */
  ghost function Held(slots: seq<Slot>, n: nat): set<int>
    requires n <= |slots|
  {
    if n == 0 then {}
    else Held(slots, n - 1) + (if slots[n - 1].fd >= 0 then {slots[n - 1].fd} else {})
  }

  function UsedSlots(slots: seq<Slot>, n: nat): nat
    requires n <= |slots|
  {
    if n == 0 then 0 else UsedSlots(slots, n - 1) + (if slots[n - 1].fd >= 0 then 1 else 0)
  }

  lemma {:induction false} HeldCount(slots: seq<Slot>, m: Interest, n: nat)
    requires TableIs(slots, m) && n <= |slots|
    ensures |Held(slots, n)| == UsedSlots(slots, n)
    ensures forall fd :: fd in Held(slots, n) <==> exists i :: 0 <= i < n && slots[i].fd == fd && fd >= 0
    decreases n
  {
    if n > 0 {
      HeldCount(slots, m, n - 1);
    }
  }

  lemma {:induction false} UsedBound(slots: seq<Slot>, n: nat)
    requires n <= |slots|
    ensures UsedSlots(slots, n) <= n
    ensures UsedSlots(slots, n) == n <==> forall i :: 0 <= i < n ==> slots[i].fd >= 0
    decreases n
  {
    if n > 0 {
      UsedBound(slots, n - 1);
    }
  }

  lemma HeldIsRegistered(slots: seq<Slot>, m: Interest)
    requires TableIs(slots, m)
    ensures Held(slots, |slots|) == m.Keys
    ensures |m| == UsedSlots(slots, |slots|)
  {
    hide Find, Held, UsedSlots;
    HeldCount(slots, m, |slots|);
    forall fd | fd in m
      ensures fd in Held(slots, |slots|)
    {
      var i := Find(slots, fd);
      assert slots[i].fd == fd;
    }
    forall fd | fd in Held(slots, |slots|)
      ensures fd in m
    {
      var i :| 0 <= i < |slots| && slots[i].fd == fd && fd >= 0;
    }
    assert |m| == |m.Keys|;
  }

  /** There is a free slot exactly while fewer than 1024 descriptors are registered. */
  lemma FreeSlot(slots: seq<Slot>, m: Interest)
    requires TableIs(slots, m)
    ensures |m| <= 1024
    ensures Find(slots, -1) < |slots| <==> |m| < 1024
  {
    HeldIsRegistered(slots, m);
    assert |slots| == POLL_MAX_SIZE;
    hide Find, Held, UsedSlots, TableIs;
    UsedBound(slots, |slots|);
    var i := Find(slots, -1);
  }

  // ---------------------------------------------------------------------
  // Agreement
  // ---------------------------------------------------------------------

  lemma FindWhere(slots: seq<Slot>, fd: int, i: nat)
    requires i < |slots| && Hits(slots[i], fd)
    ensures Find(slots, fd) < |slots|
  {
  }

  lemma AddAgrees(slots: seq<Slot>, m: Interest, c: Channel)
    requires TableIs(slots, m) && c.fd >= 0 && c.fd !in m
    ensures TableIs(PollAdd(slots, c), m[c.fd := Translate(c.events)]) <==> |m| < POLL_MAX_SIZE
  {
    hide Translate;
    FreeSlot(slots, m);
    var i, after, n := Find(slots, -1), PollAdd(slots, c), m[c.fd := Translate(c.events)];
    if |m| < POLL_MAX_SIZE {
      forall fd | fd in n
        ensures fd >= 0 && Find(after, fd) < |after|
      {
        FindWhere(after, fd, if fd == c.fd then i else Find(slots, fd));
      }
    } else if TableIs(after, n) {
      FreeSlot(after, n);
    }
  }

  lemma DeleteAgrees(slots: seq<Slot>, m: Interest, c: Channel)
    requires TableIs(slots, m) && c.fd in m
    ensures c.fd >= 0 && TableIs(PollDelete(slots, c), m - {c.fd})
    ensures forall j :: 0 <= j < |slots| ==>
              PollDelete(slots, c)[j] == if slots[j].fd == c.fd then slots[j].(fd := -1) else slots[j]
  {
    var i, after := Find(slots, c.fd), PollDelete(slots, c);
    forall fd | fd in m - {c.fd}
      ensures fd >= 0 && Find(after, fd) < |after|
    {
      FindWhere(after, fd, Find(slots, fd));
    }
  }

  lemma UpdateAgrees(slots: seq<Slot>, m: Interest, c: Channel)
    requires TableIs(slots, m) && c.fd in m
    ensures c.fd >= 0 && TableIs(PollUpdate(slots, c), m[c.fd := Translate(c.events)])
    ensures forall j :: 0 <= j < |slots| ==>
              PollUpdate(slots, c)[j] ==
                if slots[j].fd == c.fd then slots[j].(mask := Translate(c.events)) else slots[j]
  {
    hide Translate;
    var i, after := Find(slots, c.fd), PollUpdate(slots, c);
    forall fd | fd in m
      ensures fd >= 0 && Find(after, fd) < |after|
    {
      FindWhere(after, fd, Find(slots, fd));
    }
  }

  /** An operation that the program carries out without reading a null channel or past the map. */
  predicate Safe(l: Loop, m: Interest, op: Op) {
    var fd := op.channel.fd;
    && (op.kind == 2 ==> fd < 0 || fd >= |l.channels| || fd in m)
    && (op.kind == 3 ==> fd < |l.channels|)
  }

  predicate Fits(m: Interest, op: Op) {
    op.kind == 1 && op.channel.fd >= 0 && op.channel.fd !in m ==> |m| < POLL_MAX_SIZE
  }

  lemma FaultsExactly(l: Loop, m: Interest, op: Op)
    requires Agree(l, m)
    ensures Apply(l, op).Fault? <==> !Safe(l, m, op)
  {
    hide Translate, Find, PollAdd, PollUpdate, PollDelete, TableIs;
  }

  lemma HandleAddAgrees(l: Loop, m: Interest, c: Channel)
    requires Agree(l, m) && c.fd >= 0
    ensures HandleAdd(l, c).Applied?
    ensures Agree(HandleAdd(l, c).loop, if c.fd in m then m else m[c.fd := Translate(c.events)])
       <==> (c.fd !in m ==> |m| < POLL_MAX_SIZE)
  {
    hide Translate, PollAdd, TableIs, Expanded;
    ExpandKeeps(l.channels, c.fd);
    if c.fd !in m {
      AddAgrees(l.slots, m, c);
    }
  }

  lemma HandleRemoveAgrees(l: Loop, m: Interest, c: Channel)
    requires Agree(l, m) && c.fd >= 0 && (c.fd >= |l.channels| || c.fd in m)
    ensures HandleRemove(l, c).Applied? && Agree(HandleRemove(l, c).loop, m - {c.fd})
  {
    hide PollDelete, TableIs;
    if c.fd in m {
      DeleteAgrees(l.slots, m, l.channels[c.fd].value);
    } else {
      assert m - {c.fd} == m;
    }
  }

  lemma HandleUpdateAgrees(l: Loop, m: Interest, c: Channel)
    requires Agree(l, m) && 0 <= c.fd < |l.channels|
    ensures HandleUpdate(l, c).Applied?
    ensures Agree(HandleUpdate(l, c).loop, if c.fd in m then m[c.fd := Translate(c.events)] else m)
  {
    hide Translate, PollUpdate, TableIs;
    if c.fd in m {
      UpdateAgrees(l.slots, m, c);
    }
  }

  /**
   After one drained operation the map, the slots and the interest map still agree, each
   registered descriptor in one slot with the mask of its last add or update, if and only if
   the table had room for a new descriptor.
   */
  lemma ApplyAgrees(l: Loop, m: Interest, op: Op)
    requires Agree(l, m) && Safe(l, m, op)
    ensures Apply(l, op).Applied?
    ensures Agree(Apply(l, op).loop, Register(m, op)) <==> Fits(m, op)
  {
    hide Translate, Agree, HandleAdd, HandleRemove, HandleUpdate;
    FaultsExactly(l, m, op);
    if op.channel.fd >= 0 {
      if op.kind == 1 {
        HandleAddAgrees(l, m, op.channel);
      } else if op.kind == 2 {
        HandleRemoveAgrees(l, m, op.channel);
      } else if op.kind == 3 {
        HandleUpdateAgrees(l, m, op.channel);
      }
    } else {
      NegativeIgnored(l, op.channel);
    }
  }

  lemma NegativeIgnored(l: Loop, c: Channel)
    requires c.fd < 0
    ensures HandleAdd(l, c) == HandleRemove(l, c) == HandleUpdate(l, c) == Applied(l, 0)
  {
  }

  /** An operation that faults nowhere keeps the map in step with what is registered, whatever the table does. */
  lemma MapStep(l: Loop, m: Interest, op: Op)
    requires MapIs(l.channels, m) && Apply(l, op).Applied?
    ensures MapIs(Apply(l, op).loop.channels, Register(m, op))
    ensures |Apply(l, op).loop.channels| >= |l.channels|
  {
    hide Translate, Find, PollAdd, PollDelete, PollUpdate, Expanded;
    if op.channel.fd >= 0 {
      ExpandKeeps(l.channels, op.channel.fd);
    }
  }

  /** The result says what happened: 1 for a change in what is registered, -1 for a descriptor that was not there. */
  lemma ResultTells(l: Loop, m: Interest, op: Op)
    requires MapIs(l.channels, m) && Apply(l, op).Applied?
    ensures var result, fd := Apply(l, op).result, op.channel.fd;
            && (result == 1 <==> !(fd in m <==> fd in Register(m, op)))
            && (result == -1 <==> (op.kind == 2 || op.kind == 3) && fd >= 0 && fd !in m)
            && (result == 1 || result == 0 || result == -1)
  {
    hide Translate, Find, PollAdd, PollDelete, PollUpdate, Expanded;
    if op.channel.fd >= 0 {
      ExpandKeeps(l.channels, op.channel.fd);
    }
  }

  /** The channel first added for a descriptor stays in the map until it is removed; later adds and updates leave it. */
  lemma EntriesStay(l: Loop, m: Interest, op: Op, fd: nat)
    requires MapIs(l.channels, m) && Apply(l, op).Applied? && fd in Register(m, op)
    ensures var after := Apply(l, op).loop;
            && fd < |after.channels|
            && (fd in m ==> fd < |l.channels| && after.channels[fd] == l.channels[fd])
            && (fd !in m ==> op.channel.fd == fd && after.channels[fd] == Some(op.channel))
  {
    hide Translate, Find, PollAdd, PollDelete, PollUpdate, Expanded;
    if op.channel.fd >= 0 {
      ExpandKeeps(l.channels, op.channel.fd);
    }
  }

  /** Removes and updates name registered descriptors. */
  predicate Named(m: Interest, ops: seq<Op>)
    decreases |ops|
  {
    ops != [] ==>
      && (ops[0].kind == 2 || ops[0].kind == 3 ==> ops[0].channel.fd < 0 || ops[0].channel.fd in m)
      && Named(Register(m, ops[0]), ops[1..])
  }

  lemma NamedApplies(l: Loop, m: Interest, op: Op)
    requires MapIs(l.channels, m)
    requires op.kind == 2 || op.kind == 3 ==> op.channel.fd < 0 || op.channel.fd in m
    ensures Apply(l, op).Applied?
  {
    hide Translate, Find, PollAdd, PollDelete, PollUpdate, Expanded;
    if op.channel.fd >= 0 {
      ExpandKeeps(l.channels, op.channel.fd);
    }
  }

  lemma {:induction false} MapRunAgrees(l: Loop, m: Interest, ops: seq<Op>)
    requires MapIs(l.channels, m) && Named(m, ops)
    ensures ApplyAll(l, ops).Applied?
    ensures MapIs(ApplyAll(l, ops).loop.channels, RegisterAll(m, ops))
    ensures |ApplyAll(l, ops).loop.channels| >= |l.channels|
    decreases |ops|
  {
    hide Apply, Register, MapIs;
    if ops != [] {
      NamedApplies(l, m, ops[0]);
      MapStep(l, m, ops[0]);
      MapRunAgrees(Apply(l, ops[0]).loop, Register(m, ops[0]), ops[1..]);
    }
  }

  /** What callers keep to: removes and updates name registered descriptors, and at most 1024 are registered. */
  predicate Disciplined(m: Interest, ops: seq<Op>)
    decreases |ops|
  {
    ops != [] ==>
      && (ops[0].kind == 2 || ops[0].kind == 3 ==> ops[0].channel.fd < 0 || ops[0].channel.fd in m)
      && Fits(m, ops[0])
      && Disciplined(Register(m, ops[0]), ops[1..])
  }

  /** Over every run of disciplined operations nothing faults and the three views agree. */
  lemma {:induction false} RunAgrees(l: Loop, m: Interest, ops: seq<Op>)
    requires Agree(l, m) && Disciplined(m, ops)
    ensures ApplyAll(l, ops).Applied?
    ensures Agree(ApplyAll(l, ops).loop, RegisterAll(m, ops))
    decreases |ops|
  {
    hide Apply, Register, Fits;
    if ops != [] {
      assert Safe(l, m, ops[0]);
      ApplyAgrees(l, m, ops[0]);
      RunAgrees(Apply(l, ops[0]).loop, Register(m, ops[0]), ops[1..]);
    }
  }

  /** Every operation is safe where it is drained, and a new descriptor finds room. */
  predicate Orderly(l: Loop, m: Interest, ops: seq<Op>)
    decreases |ops|
  {
    ops != [] ==>
      && Safe(l, m, ops[0])
      && Fits(m, ops[0])
      && (Apply(l, ops[0]).Applied? ==> Orderly(Apply(l, ops[0]).loop, Register(m, ops[0]), ops[1..]))
  }

  /** No operation faults, and the views agree before and after each. */
  ghost predicate AgreeAlong(l: Loop, m: Interest, ops: seq<Op>)
    decreases |ops|
  {
    && Agree(l, m)
    && (ops != [] ==>
          && Apply(l, ops[0]).Applied?
          && AgreeAlong(Apply(l, ops[0]).loop, Register(m, ops[0]), ops[1..]))
  }

  /** Nothing less would do: the views agree all along a run if and only if it is orderly. */
  lemma {:induction false} AgreeAlongExactly(l: Loop, m: Interest, ops: seq<Op>)
    requires Agree(l, m)
    ensures AgreeAlong(l, m, ops) <==> Orderly(l, m, ops)
    decreases |ops|
  {
    hide Apply, Register, Fits, Agree, Safe;
    if ops != [] {
      FaultsExactly(l, m, ops[0]);
      if Safe(l, m, ops[0]) {
        ApplyAgrees(l, m, ops[0]);
        if Fits(m, ops[0]) {
          AgreeAlongExactly(Apply(l, ops[0]).loop, Register(m, ops[0]), ops[1..]);
        }
      }
    }
  }

  function EmptyLoop(): Loop {
    Loop([], seq(POLL_MAX_SIZE, _ => Slot(-1, Mask(false, false))))
  }

  lemma EmptyAgrees()
    ensures Agree(EmptyLoop(), map[])
  {
  }
}
