/**
 The output side of one connection: tcp_connection_send_data and handle_write of
 lib_tcp_server.c, and the write interest of channel.c. `wire` is what the socket has
 taken, `accepted` all data that was not thrown away, `faulted` tells whether any was.
 */
module SendPath {

  import opened Options
  import opened Registration

  predicate WriteEnabled(events: bv32) {
    events & EVENT_WRITE != 0
  }

  function EnableWrite(events: bv32): bv32 {
    events | EVENT_WRITE
  }

  /**
   The program clears the write bit with `events | ~EVENT_WRITE`, which sets every other bit
   and leaves that one alone. Intended is the same with `&`.
   */
  datatype Clearing = AsWritten | AsIntended

  function DisableWrite(v: Clearing, events: bv32): bv32 {
    if v == AsWritten then events | !EVENT_WRITE else events & !EVENT_WRITE
  }

  /** Disabling has its effect in the intended form; as written it changes nothing about the write bit. */
  lemma DisableEffect(events: bv32)
    ensures !WriteEnabled(DisableWrite(AsIntended, events))
    ensures WriteEnabled(DisableWrite(AsWritten, events)) <==> WriteEnabled(events)
    ensures WriteEnabled(EnableWrite(events))
  {
    assert (events | !EVENT_WRITE) & EVENT_WRITE == events & EVENT_WRITE;
  }

  const OTHER_BITS: bv32 := 0xffff_fffb

  lemma OrKeeps(e: bv32)
    ensures (e | 4) & 0xffff_fffb == e & 0xffff_fffb
  {
  }

  lemma AndKeeps(e: bv32)
    ensures (e & !4) & 0xffff_fffb == e & 0xffff_fffb
  {
  }

  lemma OrSets(e: bv32)
    ensures (e | !4) & 0xffff_fffb == 0xffff_fffb
  {
  }

  /** Enabling keeps the other bits. */
  lemma EnableKeepsOthers(events: bv32)
    ensures EnableWrite(events) & OTHER_BITS == events & OTHER_BITS
  {
    OrKeeps(events);
  }

  /** So does the intended disabling; the written one sets them all. */
  lemma DisableOthers(v: Clearing, events: bv32)
    ensures v == AsIntended ==> DisableWrite(v, events) & OTHER_BITS == events & OTHER_BITS
    ensures v == AsWritten ==> DisableWrite(v, events) & OTHER_BITS == OTHER_BITS
  {
    if v == AsWritten {
      OrSets(events);
    } else {
      AndKeeps(events);
    }
  }

  /** What write(2) answers. A count is that of bytes taken, no more than offered. */
  datatype WriteResult = Wrote(n: nat) | WouldBlock | PeerGone | OtherError

  function Taken(w: WriteResult, offered: nat): (n: nat)
    ensures n <= offered
  {
    if w.Wrote? then (if w.n <= offered then w.n else offered) else 0
  }

  /** `ops` are the registrations that the connection has put on its loop's list, in order. */
  datatype Conn = Conn(
    fd: nat, events: bv32, output: string, wire: string, accepted: string, faulted: bool, ops: seq<Op>)

  /** tcp_connection_init: registered for reading. */
  function NewConn(fd: nat): Conn {
    Conn(fd, EVENT_READ, "", "", "", false, [Op(1, Channel(fd, EVENT_READ))])
  }

  /** The channel's events change and the loop is told. */
  function SetEvents(c: Conn, events: bv32): Conn {
    c.(events := events, ops := c.ops + [Op(3, Channel(c.fd, events))])
  }

  /** handle_connection_closed. */
  function Unregister(c: Conn): Conn {
    c.(ops := c.ops + [Op(2, Channel(c.fd, c.events))])
  }

  /** Only an idle connection writes directly; what the socket does not take is buffered, unless the peer is gone. */
  function SendData(c: Conn, data: string, w: WriteResult): Conn {
    var direct := !WriteEnabled(c.events) && c.output == "";
    if direct && w.PeerGone? then c.(faulted := true)
    else
      var n := if direct then Taken(w, |data|) else 0;
      var sent := c.(wire := c.wire + data[..n], accepted := c.accepted + data);
      if n == |data| then sent
      else Buffered(sent, data[n..])
  }

  /** What was not taken goes to the output, and write interest on if it is not yet. */
  function Buffered(c: Conn, rest: string): Conn {
    var kept := c.(output := c.output + rest);
    if WriteEnabled(c.events) then kept else SetEvents(kept, EnableWrite(c.events))
  }

  function HandleWrite(v: Clearing, c: Conn, w: WriteResult): Conn {
    var n := Taken(w, |c.output|);
    if n == 0 then c
    else
      var written := c.(wire := c.wire + c.output[..n], output := c.output[n..]);
      if written.output == "" then SetEvents(written, DisableWrite(v, c.events)) else written
  }

  /** A send by the owner, or the loop reporting the socket writable. */
  datatype Io = Send(data: string, w: WriteResult) | Writable(w: WriteResult)

  function Do(v: Clearing, c: Conn, io: Io): Conn {
    match io
    case Send(data, w) => SendData(c, data, w)
    case Writable(w) => HandleWrite(v, c, w)
  }

  function Run(v: Clearing, c: Conn, ios: seq<Io>): Conn
    decreases |ios|
  {
    if ios == [] then c else Run(v, Do(v, c, ios[0]), ios[1..])
  }

  function Submitted(ios: seq<Io>): string {
    if ios == [] then "" else (if ios[0].Send? then ios[0].data else "") + Submitted(ios[1..])
  }

  /** Nothing is lost, duplicated or reordered, and buffered output is always waited for. */
  predicate Conserves(c: Conn) {
    && c.wire + c.output == c.accepted
    && (c.output != "" ==> WriteEnabled(c.events))
  }

  lemma SendConserves(c: Conn, data: string, w: WriteResult)
    requires Conserves(c)
    ensures Conserves(SendData(c, data, w))
  {
    hide WriteEnabled, EnableWrite;
    DisableEffect(c.events);
    var n := if !WriteEnabled(c.events) && c.output == "" then Taken(w, |data|) else 0;
    Regroup(c.wire, c.output, data, n);
  }

  lemma Regroup(wire: string, output: string, data: string, n: nat)
    requires n <= |data| && (n > 0 ==> output == "")
    ensures wire + data[..n] + (output + data[n..]) == wire + output + data
    ensures n == |data| ==> wire + data[..n] + output == wire + output + data
  {
    assert data == data[..n] + data[n..];
  }

  lemma WriteConserves(v: Clearing, c: Conn, w: WriteResult)
    requires Conserves(c)
    ensures Conserves(HandleWrite(v, c, w))
  {
    hide WriteEnabled, DisableWrite;
    var n := Taken(w, |c.output|);
    assert c.output == c.output[..n] + c.output[n..];
  }

  /** Whatever the sends and the answers of the socket, the wire followed by the buffer is the data accepted. */
  lemma {:induction false} SendPathConserves(v: Clearing, c: Conn, ios: seq<Io>)
    requires Conserves(c)
    ensures Conserves(Run(v, c, ios))
    decreases |ios|
  {
    hide Conserves, Do;
    if ios != [] {
      StepConserves(v, c, ios[0]);
      SendPathConserves(v, Do(v, c, ios[0]), ios[1..]);
    }
  }

  lemma StepConserves(v: Clearing, c: Conn, io: Io)
    requires Conserves(c)
    ensures Conserves(Do(v, c, io))
  {
    match io
    case Send(data, w) => SendConserves(c, data, w);
    case Writable(w) => WriteConserves(v, c, w);
  }

  /** Until a direct write finds the peer gone, the data accepted is all the data submitted. */
  lemma {:induction false} AllAccepted(v: Clearing, c: Conn, ios: seq<Io>)
    ensures !Run(v, c, ios).faulted ==> !c.faulted && Run(v, c, ios).accepted == c.accepted + Submitted(ios)
    decreases |ios|
  {
    hide WriteEnabled, EnableWrite, DisableWrite;
    if ios == [] {
      assert c.accepted + "" == c.accepted;
    } else {
      var d := Do(v, c, ios[0]);
      AllAccepted(v, d, ios[1..]);
      var data := if ios[0].Send? then ios[0].data else "";
      assert c.accepted + data + Submitted(ios[1..]) == c.accepted + (data + Submitted(ios[1..]));
      assert !d.faulted ==> !c.faulted && d.accepted == c.accepted + data;
    }
  }

  /** Nothing is buffered and the loop is not asked for room: a send writes directly. */
  predicate Idle(c: Conn) {
    !WriteEnabled(c.events) && c.output == ""
  }

  // ---------------------------------------------------------------------
  // What the socket has taken
  // ---------------------------------------------------------------------

  /** What one call of write is offered, when the step makes one. */
  function Offered(c: Conn, io: Io): Option<string> {
    match io
    case Send(data, _) => if Idle(c) then Some(data) else None
    case Writable(_) => Some(c.output)
  }

  /** The answer is one that write can give: no more bytes than it was offered. */
  predicate Answers(c: Conn, io: Io) {
    io.w.Wrote? && Offered(c, io).Some? ==> io.w.n <= |Offered(c, io).value|
  }

  /** The bytes that the answer says were taken: the first ones offered. */
  function TakenBy(c: Conn, io: Io): string
    requires Answers(c, io)
  {
    if io.w.Wrote? && Offered(c, io).Some? then Offered(c, io).value[..io.w.n] else ""
  }

  predicate AnswersAll(v: Clearing, c: Conn, ios: seq<Io>)
    decreases |ios|
  {
    ios != [] ==> Answers(c, ios[0]) && AnswersAll(v, Do(v, c, ios[0]), ios[1..])
  }

  function TakenByAll(v: Clearing, c: Conn, ios: seq<Io>): string
    requires AnswersAll(v, c, ios)
    decreases |ios|
  {
    if ios == [] then "" else TakenBy(c, ios[0]) + TakenByAll(v, Do(v, c, ios[0]), ios[1..])
  }

  lemma StepTakes(v: Clearing, c: Conn, io: Io)
    requires Answers(c, io)
    ensures Do(v, c, io).wire == c.wire + TakenBy(c, io)
    ensures io.Writable? ==> c.output == TakenBy(c, io) + Do(v, c, io).output
    ensures io.Send? && !Do(v, c, io).faulted ==> c.output + io.data == TakenBy(c, io) + Do(v, c, io).output
  {
    hide WriteEnabled, EnableWrite, DisableWrite;
    assert c.wire + "" == c.wire;
    if io.Send? {
      assert io.data[..|io.data|] == io.data;
    } else {
      assert c.output[..0] == "";
    }
  }

  /** Over every run the wire grows by exactly the bytes that the answers of write say were taken. */
  lemma {:induction false} WireIsTaken(v: Clearing, c: Conn, ios: seq<Io>)
    requires AnswersAll(v, c, ios)
    ensures Run(v, c, ios).wire == c.wire + TakenByAll(v, c, ios)
    decreases |ios|
  {
    hide Do, Answers;
    if ios == [] {
      assert c.wire + "" == c.wire;
    } else {
      var d := Do(v, c, ios[0]);
      StepTakes(v, c, ios[0]);
      WireIsTaken(v, d, ios[1..]);
      assert c.wire + TakenBy(c, ios[0]) + TakenByAll(v, d, ios[1..])
          == c.wire + (TakenBy(c, ios[0]) + TakenByAll(v, d, ios[1..]));
    }
  }

  predicate Settled(c: Conn) {
    c.output == "" <==> !WriteEnabled(c.events)
  }

  /** With the intended clearing, write interest is on exactly while output is buffered. */
  lemma {:induction false} InterestExact(c: Conn, ios: seq<Io>)
    requires Settled(c)
    ensures Settled(Run(AsIntended, c, ios))
    decreases |ios|
  {
    hide WriteEnabled, EnableWrite, DisableWrite;
    if ios != [] {
      DisableEffect(c.events);
      InterestExact(Do(AsIntended, c, ios[0]), ios[1..]);
    }
  }

  /** Neither form of clearing loses read interest. */
  lemma ReadEffect(v: Clearing, events: bv32)
    requires Translate(events).read
    ensures Translate(EnableWrite(events)).read && Translate(DisableWrite(v, events)).read
  {
    assert (events | EVENT_WRITE) & EVENT_READ == events & EVENT_READ;
    assert (events & !EVENT_WRITE) & EVENT_READ == events & EVENT_READ;
    assert (events | !EVENT_WRITE) & EVENT_READ == EVENT_READ;
  }

  /**
   What the connection asks for: always to be told of input, and, with the intended clearing,
   to be told of room exactly while output is buffered.
   */
  lemma {:induction false} InterestAsked(v: Clearing, c: Conn, ios: seq<Io>)
    requires Settled(c) && Translate(c.events).read
    ensures Translate(Run(v, c, ios).events).read
    ensures v == AsIntended ==> Translate(Run(v, c, ios).events) == Mask(true, Run(v, c, ios).output != "")
    decreases |ios|
  {
    ReadKept(v, c, ios);
    if v == AsIntended {
      InterestExact(c, ios);
    }
  }

  lemma {:induction false} ReadKept(v: Clearing, c: Conn, ios: seq<Io>)
    requires Translate(c.events).read
    ensures Translate(Run(v, c, ios).events).read
    decreases |ios|
  {
    hide WriteEnabled, EnableWrite, DisableWrite, Translate;
    if ios != [] {
      ReadEffect(v, c.events);
      ReadKept(v, Do(v, c, ios[0]), ios[1..]);
    }
  }

  /** As written, write interest that was once enabled stays on for good. */
  lemma {:induction false} InterestSticks(c: Conn, ios: seq<Io>)
    requires WriteEnabled(c.events)
    ensures WriteEnabled(Run(AsWritten, c, ios).events)
    decreases |ios|
  {
    hide WriteEnabled, EnableWrite, DisableWrite;
    if ios != [] {
      DisableEffect(c.events);
      InterestSticks(Do(AsWritten, c, ios[0]), ios[1..]);
    }
  }

  /** The empty buffer with interest on: one blocked send, then one complete write. */
  lemma InterestLeftOn(fd: nat)
    ensures var c := Run(AsWritten, NewConn(fd), [Send("x", WouldBlock), Writable(Wrote(1))]);
            c.output == "" && c.wire == "x" && WriteEnabled(c.events)
  {
    var c := SendData(NewConn(fd), "x", WouldBlock);
    assert !WriteEnabled(EVENT_READ) && WriteEnabled(EnableWrite(EVENT_READ));
    assert c.output == "x" && c.wire == "";
    DisableEffect(c.events);
    var d := HandleWrite(AsWritten, c, Wrote(1));
    assert d.output == "" && d.wire == "x";
    assert [Send("x", WouldBlock), Writable(Wrote(1))][1..] == [Writable(Wrote(1))];
    assert Run(AsWritten, d, []) == d;
    assert [Writable(Wrote(1))][1..] == [];
  }

  /** The send leaves nothing over: the guard of the branch that buffers is false. */
  predicate LeavesNothing(io: Io) {
    io.Send? ==> io.data == "" || io.w.PeerGone? || (io.w.Wrote? && io.w.n >= |io.data|)
  }

  /**
   As written, write interest is off after a run if and only if no send of the run was left
   with anything over, however long ago that was written.
   */
  lemma {:induction false} InterestOffExactly(c: Conn, ios: seq<Io>)
    requires Idle(c)
    ensures !WriteEnabled(Run(AsWritten, c, ios).events) <==> forall k :: 0 <= k < |ios| ==> LeavesNothing(ios[k])
    decreases |ios|
  {
    if ios != [] {
      var d := Do(AsWritten, c, ios[0]);
      FirstDecides(c, ios[0]);
      hide WriteEnabled, Do;
      if LeavesNothing(ios[0]) {
        InterestOffExactly(d, ios[1..]);
      } else {
        InterestSticks(d, ios[1..]);
      }
    }
  }

  lemma FirstDecides(c: Conn, io: Io)
    requires Idle(c)
    ensures if LeavesNothing(io) then Idle(Do(AsWritten, c, io)) else WriteEnabled(Do(AsWritten, c, io).events)
  {
    hide WriteEnabled, EnableWrite, DisableWrite;
    DisableEffect(c.events);
  }

  // ---------------------------------------------------------------------
  // Delivery
  // ---------------------------------------------------------------------

  predicate Accepting(w: WriteResult) {
    w.Wrote? && w.n > 0
  }

  function Writables(ws: seq<WriteResult>): seq<Io> {
    if ws == [] then [] else [Writable(ws[0])] + Writables(ws[1..])
  }

  /** Once the socket keeps taking bytes, all that is buffered reaches it, after as many writes as bytes at most. */
  lemma {:induction false} AllDelivered(v: Clearing, c: Conn, ws: seq<WriteResult>)
    requires |ws| >= |c.output| && forall k :: 0 <= k < |ws| ==> Accepting(ws[k])
    ensures var d := Run(v, c, Writables(ws)); d.output == "" && d.wire == c.wire + c.output
    decreases |ws|
  {
    hide WriteEnabled, DisableWrite;
    if ws == [] {
      assert c.wire + "" == c.wire;
    } else {
      var d := HandleWrite(v, c, ws[0]);
      assert d.wire + d.output == c.wire + c.output by {
        var n := Taken(ws[0], |c.output|);
        assert c.output == c.output[..n] + c.output[n..];
      }
      AllDelivered(v, d, ws[1..]);
      assert Writables(ws)[1..] == Writables(ws[1..]);
    }
  }

  // ---------------------------------------------------------------------
  // What the loop is told
  // ---------------------------------------------------------------------

  /** The operations, drained where the descriptor is not registered, leave it with the connection's events. */
  ghost predicate Told(c: Conn) {
    forall m: Interest :: c.fd !in m ==> RegisterAll(m, c.ops) == m[c.fd := Translate(c.events)]
  }

  lemma {:induction false} RegisterMore(m: Interest, ops: seq<Op>, more: seq<Op>)
    ensures RegisterAll(m, ops + more) == RegisterAll(RegisterAll(m, ops), more)
    decreases |ops|
  {
    hide Register;
    if ops == [] {
      assert ops + more == more;
    } else {
      assert (ops + more)[1..] == ops[1..] + more;
      RegisterMore(Register(m, ops[0]), ops[1..], more);
    }
  }

  lemma RegisterOneMore(m: Interest, ops: seq<Op>, op: Op)
    ensures RegisterAll(m, ops + [op]) == Register(RegisterAll(m, ops), op)
  {
    hide Register;
    RegisterMore(m, ops, [op]);
    assert [op][1..] == [];
  }

  lemma NewIsTold(fd: nat)
    ensures Told(NewConn(fd))
  {
    hide Translate;
    var c := NewConn(fd);
    forall m: Interest | fd !in m
      ensures RegisterAll(m, c.ops) == m[fd := Translate(c.events)]
    {
      RegisterOneMore(m, [], c.ops[0]);
      assert [] + [c.ops[0]] == c.ops;
    }
  }

  lemma SetIsTold(c: Conn, events: bv32)
    requires Told(c)
    ensures Told(SetEvents(c, events))
  {
    hide Translate;
    var d := SetEvents(c, events);
    forall m: Interest | d.fd !in m
      ensures RegisterAll(m, d.ops) == m[d.fd := Translate(events)]
    {
      RegisterOneMore(m, c.ops, Op(3, Channel(c.fd, events)));
    }
  }

  lemma UnregisterIsTold(c: Conn, m: Interest)
    requires Told(c) && c.fd !in m
    ensures RegisterAll(m, Unregister(c).ops) == m
  {
    hide Translate;
    RegisterOneMore(m, c.ops, Op(2, Channel(c.fd, c.events)));
    assert m[c.fd := Translate(c.events)] - {c.fd} == m;
  }

  /** A send tells the loop when it turns interest on, a write when it empties the output, and only then. */
  lemma ToldWhenNeeded(v: Clearing, c: Conn, io: Io)
    requires Conserves(c)
    ensures Do(v, c, io).ops == c.ops || Do(v, c, io).ops == c.ops + [Op(3, Channel(c.fd, Do(v, c, io).events))]
    ensures io.Send? ==>
              (|Do(v, c, io).ops| > |c.ops| <==> !WriteEnabled(c.events) && WriteEnabled(Do(v, c, io).events))
    ensures io.Writable? ==> (|Do(v, c, io).ops| > |c.ops| <==> c.output != "" && Do(v, c, io).output == "")
  {
    DisableEffect(c.events);
    hide EnableWrite, DisableWrite, WriteEnabled;
  }

  lemma StepIsTold(v: Clearing, c: Conn, io: Io)
    requires Told(c)
    ensures Told(Do(v, c, io)) && Do(v, c, io).fd == c.fd
  {
    hide WriteEnabled, EnableWrite, DisableWrite, Translate, RegisterAll;
    match io
    case Send(data, w) =>
      var direct := !WriteEnabled(c.events) && c.output == "";
      var n := if direct then Taken(w, |data|) else 0;
      var sent := c.(wire := c.wire + data[..n], accepted := c.accepted + data);
      SetIsTold(sent.(output := c.output + data[n..]), EnableWrite(c.events));
    case Writable(w) =>
      var n := Taken(w, |c.output|);
      SetIsTold(c.(wire := c.wire + c.output[..n], output := c.output[n..]), DisableWrite(v, c.events));
  }
}
