/**
 The connection and the reactor together: what one connection puts on the pending list, drained
 between the operations of all other threads and descriptors, leaves the loop's table telling
 poll what the connection asks for.
 */
module Composition {
  import opened Options
  import opened Registration
  import opened SendPath
  import opened ConnectionModel
  import Reactor
  import HttpRequest
  import HttpResponse

  // ---------------------------------------------------------------------
  // The operations of one descriptor
  // ---------------------------------------------------------------------

  function Of(ops: seq<Op>, fd: int): seq<Op> {
    if ops == [] then []
    else (if ops[0].channel.fd == fd then [ops[0]] else []) + Of(ops[1..], fd)
  }

  /** What is registered for a descriptor depends on its own operations only. */
  lemma {:induction false} OnlyItsOwn(m: Interest, n: Interest, ops: seq<Op>, fd: int)
    requires SameAt(m, n, fd)
    ensures SameAt(RegisterAll(m, ops), RegisterAll(n, Of(ops, fd)), fd)
    decreases |ops|
  {
    hide Translate;
    if ops != [] {
      var op := ops[0];
      if op.channel.fd == fd {
        assert Of(ops, fd)[0] == op && Of(ops, fd)[1..] == Of(ops[1..], fd);
        OnlyItsOwn(Register(m, op), Register(n, op), ops[1..], fd);
      } else {
        assert Of(ops, fd) == Of(ops[1..], fd);
        OnlyItsOwn(Register(m, op), n, ops[1..], fd);
      }
    }
  }

  // ---------------------------------------------------------------------
  // The slot of one descriptor
  // ---------------------------------------------------------------------

  /** Exactly one slot holds the descriptor, with this mask. */
  predicate HeldOnce(slots: seq<Slot>, fd: nat, mask: Mask) {
    var i := Find(slots, fd);
    i < |slots| && slots[i].mask == mask && forall j :: 0 <= j < |slots| && j != i ==> slots[j].fd != fd
  }

  predicate NotHeld(slots: seq<Slot>, fd: nat) {
    forall j :: 0 <= j < |slots| ==> slots[j].fd != fd
  }

  lemma TableTells(l: Loop, m: Interest, fd: nat)
    requires Agree(l, m)
    ensures fd in m ==> HeldOnce(l.slots, fd, m[fd])
    ensures fd !in m ==> NotHeld(l.slots, fd)
  {
    var i := Find(l.slots, fd);
    assert i < |l.slots| ==> l.slots[i].fd == fd;
  }

  // ---------------------------------------------------------------------
  // One connection in the loop
  // ---------------------------------------------------------------------

  lemma StepSettles(v: Clearing, c: Conn, io: Io)
    requires Translate(c.events).read && (v == AsIntended ==> Settled(c))
    ensures var d := SendPath.Do(v, c, io); Translate(d.events).read && (v == AsIntended ==> Settled(d))
  {
    hide Translate, SendPath.Do, Settled;
    assert [io][1..] == [];
    assert SendPath.Run(v, SendPath.Do(v, c, io), []) == SendPath.Do(v, c, io);
    ReadKept(v, c, [io]);
    if v == AsIntended {
      InterestExact(c, [io]);
    }
  }

  lemma {:induction false} RunSettles(v: Clearing, s: Server, es: seq<Event>)
    requires Translate(s.conn.events).read && (v == AsIntended ==> Settled(s.conn))
    ensures var t := ConnectionModel.Run(v, s, es);
            Translate(t.conn.events).read && (v == AsIntended ==> Settled(t.conn))
    decreases |es|
  {
    hide Translate, WriteEnabled, SendData, HandleWrite, HttpRequest.Parse, HttpResponse.Encode, Respond;
    if es != [] {
      if s.phase == Running {
        match es[0]
        case Readable(bytes, w, _) =>
          var o := HttpRequest.Parse(s.request, s.input + bytes);
          if bytes != "" && o.Complete? {
            StepSettles(v, s.conn, Send(HttpResponse.Encode(Respond(o.request)), ConnectionModel.Answer(s, w)));
          }
          RunSettles(v, ConnectionModel.Do(v, s, es[0]), es[1..]);
        case WriteReady(w) =>
          StepSettles(v, s.conn, Writable(ConnectionModel.Answer(s, w)));
          RunSettles(v, ConnectionModel.Do(v, s, es[0]), es[1..]);
      } else {
        RunSettles(v, s, es[1..]);
      }
    }
  }

  /** What the descriptor is registered for once a connection's operations have been drained. */
  lemma RegisteredAsAsked(v: Clearing, fd: nat, es: seq<Event>, earlier: seq<Op>, ops: seq<Op>)
    requires var s := ConnectionModel.Run(v, Start(fd), es); Of(ops, fd) == earlier + s.conn.ops
    requires fd !in RegisterAll(map[], earlier)
    ensures var s, m := ConnectionModel.Run(v, Start(fd), es), RegisterAll(map[], ops);
            if s.phase == Closed then fd !in m else fd in m && m[fd] == Translate(s.conn.events)
  {
    hide ConnectionModel.Run, Translate, Conserves, RegisterAll, ParsesTo, Responses;
    var s := ConnectionModel.Run(v, Start(fd), es);
    StartInv(fd);
    ConnectionModel.RunKeepsInv(v, Start(fd), es);
    OnlyItsOwn(map[], map[], ops, fd);
    RegisterMore(map[], earlier, s.conn.ops);
    var before := RegisterAll(map[], earlier);
    if s.phase == Closed {
      assert RegisterAll(before, s.conn.ops) == before;
    } else {
      assert RegisterAll(before, s.conn.ops) == before[fd := Translate(s.conn.events)];
    }
  }

  /**
   On every interleaving of the reactor and every run of the connection: once the operations of
   the connection have been drained, and whatever was drained for others in between, exactly one
   slot of the poll table holds its descriptor, with the mask of the connection's events, and
   after its close none does. With the intended clearing that mask asks for room exactly while
   output is buffered. An earlier connection may have had the same number.
   */
  lemma TableSeesConnection(
    threads: nat, actions: seq<Reactor.Action>, r: Reactor.State,
    v: Clearing, fd: nat, es: seq<Event>, earlier: seq<Op>)
    requires threads > 0 && Reactor.Run(Reactor.Init(threads), actions, r) && Disciplined(map[], r.history)
    requires Of(r.applied, fd) == earlier + ConnectionModel.Run(v, Start(fd), es).conn.ops
    requires fd !in RegisterAll(map[], earlier)
    ensures r.loop.Applied?
    ensures var s, slots := ConnectionModel.Run(v, Start(fd), es), r.loop.loop.slots;
            && (s.phase == Closed ==> NotHeld(slots, fd))
            && (s.phase != Closed ==>
                  && HeldOnce(slots, fd, Translate(s.conn.events)) && Translate(s.conn.events).read
                  && (v == AsIntended ==> HeldOnce(slots, fd, Mask(true, s.conn.output != ""))))
  {
    hide Reactor.Run, ConnectionModel.Run, RegisterAll, Agree, HeldOnce, NotHeld, Disciplined;
    var s := ConnectionModel.Run(v, Start(fd), es);
    Reactor.AgreesThroughout(threads, actions, r);
    RegisteredAsAsked(v, fd, es, earlier, r.applied);
    TableTells(r.loop.loop, RegisterAll(map[], r.applied), fd);
    StartsSettled(fd);
    RunSettles(v, Start(fd), es);
  }

  /** The same at rest, in terms of what the threads asked for: all of that has been drained. */
  lemma TableSeesConnectionAtRest(
    threads: nat, actions: seq<Reactor.Action>, r: Reactor.State,
    v: Clearing, fd: nat, es: seq<Event>, earlier: seq<Op>)
    requires threads > 0 && Reactor.Run(Reactor.Init(threads), actions, r) && Reactor.Quiescent(r)
    requires Disciplined(map[], Reactor.Asked(actions))
    requires Of(Reactor.Asked(actions), fd) == earlier + ConnectionModel.Run(v, Start(fd), es).conn.ops
    requires fd !in RegisterAll(map[], earlier)
    ensures r.loop.Applied?
    ensures var s, slots := ConnectionModel.Run(v, Start(fd), es), r.loop.loop.slots;
            if s.phase == Closed then NotHeld(slots, fd) else HeldOnce(slots, fd, Translate(s.conn.events))
  {
    hide Reactor.Run, ConnectionModel.Run, RegisterAll, HeldOnce, NotHeld, Disciplined, Reactor.Quiescent, Of;
    Reactor.RestIsAllAsked(threads, actions, r);
    TableSeesConnection(threads, actions, r, v, fd, es, earlier);
  }

  lemma StartsSettled(fd: nat)
    ensures Settled(Start(fd).conn) && Translate(Start(fd).conn.events).read
  {
    assert EVENT_READ & EVENT_WRITE == 0;
  }
}
