/**
 When a connection answers all it was asked, and when its answers arrive: a message is
 answered once, whatever it holds, and a closed writing half takes nothing more.
 */
module Answering {
  import opened Text
  import opened HttpRequest
  import opened HttpRequestLaws
  import opened HttpResponse
  import opened Registration
  import opened SendPath
  import opened Model = ConnectionModel

  // ---------------------------------------------------------------------
  // One read
  // ---------------------------------------------------------------------

  /** A printed request that has not arrived whole leaves the parser waiting. */
  lemma TruncatedWaits(q: Request, t: string)
    requires Printable(q) && t < Print(q)
    ensures Parse(FRESH, t).Waiting?
  {
    hide Parse, Printable, Print;
    var more := Print(q)[|t|..];
    assert t + more == Print(q) && Print(q) + "" == Print(q);
    ParseAppend(FRESH, t, more);
    RequestRoundTrip(q, "");
  }

  /** What one read makes of the printed requests still to come, `input` included. */
  lemma OneRead(s: Server, bytes: string, w: WriteResult, close: bool, qs: seq<Request>)
    requires s.phase == Running && s.request == FRESH && bytes != ""
    requires forall q | q in qs :: Printable(q)
    requires s.input + bytes <= PrintAll(qs)
    ensures qs != []
    ensures var t, n := OnReadable(s, bytes, w, close), |Print(qs[0])|;
            if |s.input| + |bytes| >= n then
              && t.phase == Running && t.request == FRESH
              && t.served == s.served + [qs[0].(state := RequestDone)]
              && t.input == (s.input + bytes)[n..] <= PrintAll(qs[1..])
            else t.phase == Spinning && t.served == s.served
  {
    hide Parse, Printable, Print, Respond, Encode, SendData;
    var have := s.input + bytes;
    var first, later := Print(qs[0]), PrintAll(qs[1..]);
    assert PrintAll(qs) == first + later;
    if |have| >= |first| {
      var rest := have[|first|..];
      assert have[..|first|] == (first + later)[..|first|] == first;
      assert have == first + rest;
      assert rest == (first + later)[|first|..|have|] == later[..|rest|];
      RequestRoundTrip(qs[0], rest);
    } else {
      assert have == (first + later)[..|have|] == first[..|have|];
      TruncatedWaits(qs[0], have);
    }
  }

  // ---------------------------------------------------------------------
  // All parts
  // ---------------------------------------------------------------------

  /** What the reads of a run deliver, one by one. */
  function Deliveries(es: seq<Event>): seq<string> {
    if es == [] then [] else (if es[0].Readable? then [es[0].bytes] else []) + Deliveries(es[1..])
  }

  function Concat(ss: seq<string>): string {
    if ss == [] then "" else ss[0] + Concat(ss[1..])
  }

  predicate NoneEmpty(es: seq<Event>) {
    forall k :: 0 <= k < |es| && es[k].Readable? ==> es[k].bytes != ""
  }

  lemma {:induction false} DeliveryCount(es: seq<Event>)
    ensures |Deliveries(es)| == Reads(es)
  {
    if es != [] {
      DeliveryCount(es[1..]);
    }
  }

  /** Each read, with what was left over before it, brings the next request whole. */
  predicate KeepsAhead(have: nat, qs: seq<Request>, parts: seq<string>)
    decreases |parts|
  {
    parts != [] ==>
      && qs != []
      && have + |parts[0]| >= |Print(qs[0])|
      && KeepsAhead(have + |parts[0]| - |Print(qs[0])|, qs[1..], parts[1..])
  }

  lemma {:induction false} RunAnswers(v: Clearing, s: Server, es: seq<Event>, qs: seq<Request>)
    requires s.phase == Running && s.request == FRESH && NoneEmpty(es)
    requires forall q | q in qs :: Printable(q)
    requires s.input + Concat(Deliveries(es)) <= PrintAll(qs)
    ensures var t, k := Model.Run(v, s, es), |Deliveries(es)|;
            if KeepsAhead(|s.input|, qs, Deliveries(es)) then
              k <= |qs| && t.phase == Running && t.served == s.served + Completed(qs[..k])
            else t.phase == Spinning
    decreases |es|
  {
    hide Printable, Print, PrintAll, OnReadable, HandleWrite, Completed;
    if es == [] {
      assert Completed([]) == [] && qs[..0] == [];
      assert s.served + [] == s.served;
    } else {
      match es[0]
      case WriteReady(w) =>
        assert NoneEmpty(es[1..]);
        assert Deliveries(es) == [] + Deliveries(es[1..]) == Deliveries(es[1..]);
        RunAnswers(v, Model.Do(v, s, es[0]), es[1..], qs);
      case Readable(bytes, w, close) =>
        assert NoneEmpty(es[1..]);
        ReadAnswers(v, s, es, qs);
    }
  }

  lemma {:induction false} ReadAnswers(v: Clearing, s: Server, es: seq<Event>, qs: seq<Request>)
    requires s.phase == Running && s.request == FRESH && NoneEmpty(es)
    requires forall q | q in qs :: Printable(q)
    requires s.input + Concat(Deliveries(es)) <= PrintAll(qs)
    requires es != [] && es[0].Readable? && NoneEmpty(es[1..])
    ensures var t, k := Model.Run(v, s, es), |Deliveries(es)|;
            if KeepsAhead(|s.input|, qs, Deliveries(es)) then
              k <= |qs| && t.phase == Running && t.served == s.served + Completed(qs[..k])
            else t.phase == Spinning
    decreases |es|, 0
  {
    hide *;
    FirstRead(v, s, es);
    var bytes, later, parts := es[0].bytes, Concat(Deliveries(es[1..])), Deliveries(es);
    var t, k := OnReadable(s, bytes, es[0].w, es[0].close), |parts|;
    Prefixes(s.input, bytes, later, PrintAll(qs));
    OneRead(s, bytes, es[0].w, es[0].close, qs);
    AheadStep(|s.input|, qs, parts);
    if t.phase == Running {
      DropFirst(Print(qs[0]), PrintAll(qs[1..]), s.input + bytes, later);
      RunAnswers(v, t, es[1..], qs[1..]);
      CompletedFirst(qs, k - 1);
      if k <= |qs| {
        var one, more := [qs[0].(state := RequestDone)], Completed(qs[1..][..k - 1]);
        assert s.served + one + more == s.served + (one + more);
      }
    } else {
      StaysPut(v, t, es[1..]);
    }
  }

  lemma FirstRead(v: Clearing, s: Server, es: seq<Event>)
    requires s.phase == Running && es != [] && es[0].Readable? && NoneEmpty(es)
    ensures es[0].bytes != "" && Deliveries(es) != []
    ensures Deliveries(es)[0] == es[0].bytes && Deliveries(es)[1..] == Deliveries(es[1..])
    ensures Concat(Deliveries(es)) == es[0].bytes + Concat(Deliveries(es[1..]))
    ensures Model.Run(v, s, es) == Model.Run(v, OnReadable(s, es[0].bytes, es[0].w, es[0].close), es[1..])
  {
    hide OnReadable;
    assert Deliveries(es) == [es[0].bytes] + Deliveries(es[1..]);
  }

  lemma AheadStep(have: nat, qs: seq<Request>, parts: seq<string>)
    requires parts != [] && qs != []
    ensures KeepsAhead(have, qs, parts)
       <==> have + |parts[0]| >= |Print(qs[0])|
            && KeepsAhead(have + |parts[0]| - |Print(qs[0])|, qs[1..], parts[1..])
    ensures PrintAll(qs) == Print(qs[0]) + PrintAll(qs[1..])
  {
    hide Print;
  }

  lemma Prefixes(a: string, b: string, c: string, whole: string)
    requires a + (b + c) <= whole
    ensures a + b <= whole && a + b + c <= whole
  {
    assert a + (b + c) == a + b + c;
    assert (a + b + c)[..|a + b|] == a + b;
  }

  lemma DropFirst(first: string, others: string, have: string, later: string)
    requires have + later <= first + others && |have| >= |first|
    ensures have[|first|..] + later <= others
  {
    var s := have + later;
    assert s == (first + others)[..|s|];
    assert s[|first|..] == others[..|s| - |first|];
    assert s[|first|..] == have[|first|..] + later;
  }

  lemma CompletedFirst(qs: seq<Request>, k: nat)
    requires qs != []
    ensures k <= |qs| - 1 ==> Completed(qs[..k + 1]) == [qs[0].(state := RequestDone)] + Completed(qs[1..][..k])
  {
    if k <= |qs| - 1 {
      assert qs[..k + 1][1..] == qs[1..][..k];
    }
  }

  lemma {:induction false} StaysPut(v: Clearing, s: Server, es: seq<Event>)
    requires s.phase != Running
    ensures Model.Run(v, s, es) == s
    decreases |es|
  {
    if es != [] {
      StaysPut(v, s, es[1..]);
    }
  }

  /** The first j reads bring at least the first j requests. */
  predicate InTime(have: nat, qs: seq<Request>, parts: seq<string>, j: nat)
    requires j <= |parts|
  {
    j <= |qs| && have + |Concat(parts[..j])| >= |PrintAll(qs[..j])|
  }

  lemma InTimeStep(have: nat, qs: seq<Request>, parts: seq<string>, j: nat)
    requires j < |parts| && qs != [] && have + |parts[0]| >= |Print(qs[0])|
    ensures InTime(have, qs, parts, j + 1)
       <==> InTime(have + |parts[0]| - |Print(qs[0])|, qs[1..], parts[1..], j)
  {
    hide Print;
    assert parts[..j + 1][1..] == parts[1..][..j];
    if j + 1 <= |qs| {
      assert qs[..j + 1][1..] == qs[1..][..j];
    }
  }

  lemma {:induction false} AheadIsInTime(have: nat, qs: seq<Request>, parts: seq<string>)
    ensures KeepsAhead(have, qs, parts) <==> forall j :: 1 <= j <= |parts| ==> InTime(have, qs, parts, j)
    decreases |parts|
  {
    hide Print, InTime;
    if parts != [] {
      FirstInTime(have, qs, parts);
      if qs != [] && have + |parts[0]| >= |Print(qs[0])| {
        var left := have + |parts[0]| - |Print(qs[0])|;
        AheadIsInTime(left, qs[1..], parts[1..]);
        forall j | 1 <= j <= |parts|
          ensures j > 1 ==> (InTime(have, qs, parts, j) <==> InTime(left, qs[1..], parts[1..], j - 1))
        {
          InTimeStep(have, qs, parts, j - 1);
        }
        if forall j :: 1 <= j <= |parts| ==> InTime(have, qs, parts, j) {
          forall j | 1 <= j <= |parts[1..]|
            ensures InTime(left, qs[1..], parts[1..], j)
          {
            assert InTime(have, qs, parts, j + 1);
          }
        }
      } else {
        assert !InTime(have, qs, parts, 1);
      }
    }
  }

  lemma FirstInTime(have: nat, qs: seq<Request>, parts: seq<string>)
    requires parts != []
    ensures InTime(have, qs, parts, 1) <==> qs != [] && have + |parts[0]| >= |Print(qs[0])|
  {
    hide Print;
    assert parts[..1][0] == parts[0] && parts[..1][1..] == [];
    assert Concat(parts[..1]) == parts[0] + "" == parts[0];
    if qs != [] {
      assert qs[..1][0] == qs[0] && qs[..1][1..] == [];
      assert PrintAll(qs[..1]) == Print(qs[0]) + "";
    }
  }

  /**
   A client prints requests and sends them in any pieces. The server still runs if and only if,
   for every j, the first j reads brought at least the first j requests; it has then answered
   exactly as many requests as it had reads. Otherwise it spins for ever.
   */
  lemma AnsweredExactly(v: Clearing, fd: nat, es: seq<Event>, qs: seq<Request>)
    requires NoneEmpty(es) && forall q | q in qs :: Printable(q)
    requires Concat(Deliveries(es)) <= PrintAll(qs)
    ensures var t, parts := Model.Run(v, Start(fd), es), Deliveries(es);
            && |parts| == Reads(es)
            && (t.phase == Running <==> forall j :: 1 <= j <= |parts| ==> InTime(0, qs, parts, j))
            && (t.phase == Running ==> |parts| <= |qs| && t.served == Completed(qs[..|parts|]))
            && (t.phase != Running ==> t.phase == Spinning)
  {
    hide Printable, PrintAll, Model.Run, KeepsAhead, InTime, Concat;
    DeliveryCount(es);
    assert "" + Concat(Deliveries(es)) == Concat(Deliveries(es));
    RunAnswers(v, Start(fd), es, qs);
    AheadIsInTime(0, qs, Deliveries(es));
    var k := |Deliveries(es)|;
    assert k <= |qs| ==> [] + Completed(qs[..k]) == Completed(qs[..k]);
  }

  /** Two requests in one read: the second has arrived whole and is left in the buffer. */
  lemma SecondWaits(v: Clearing, fd: nat, a: Request, b: Request, w: WriteResult)
    requires Printable(a) && Printable(b)
    ensures var t := Model.Run(v, Start(fd), [Readable(Print(a) + Print(b), w, false)]);
            && t.phase == Running && t.served == Completed([a]) && t.input == Print(b)
            && ParseAll(t.received) == Completed([a, b])
  {
    hide Parse, Printable, Print, Respond, Encode, SendData, PrintAll, ParseAll;
    var qs, bytes := [a, b], Print(a) + Print(b);
    PrintedPair(a, b);
    assert "" + bytes == bytes;
    NotEmpty(a);
    OneRead(Start(fd), bytes, w, false, qs);
    assert bytes[|Print(a)|..] == Print(b);
    PipelineRoundTrip(qs, "");
    assert PrintAll(qs) + "" == PrintAll(qs);
    NothingParses();
    assert Completed(qs) + [] == Completed(qs);
    assert [a][1..] == [] && [] + Completed([a]) == Completed([a]);
  }

  lemma PrintedPair(a: Request, b: Request)
    ensures PrintAll([a, b]) == Print(a) + Print(b)
  {
    hide Print;
    assert [a, b][1..] == [b] && [b][1..] == [];
    assert PrintAll([b]) == Print(b) + "" == Print(b);
    assert PrintAll([a, b]) == Print(a) + PrintAll([b]);
  }

  lemma NotEmpty(q: Request)
    ensures Print(q) != ""
  {
  }

  // ---------------------------------------------------------------------
  // Delivery
  // ---------------------------------------------------------------------

  /** Events that bring no new bytes. */
  predicate OnlyWrites(es: seq<Event>) {
    forall k :: 0 <= k < |es| ==> es[k].WriteReady?
  }

  /** After the half-close nothing more gets to the socket, whatever happens. */
  lemma {:induction false} NothingAfterShutdown(v: Clearing, s: Server, es: seq<Event>)
    requires s.shut && Conserves(s.conn)
    ensures Model.Run(v, s, es).conn.wire == s.conn.wire
    decreases |es|
  {
    hide Parse, Respond, Encode, Conserves;
    if es != [] {
      ShutStep(v, s, es[0]);
      NothingAfterShutdown(v, Model.Do(v, s, es[0]), es[1..]);
    }
  }

  lemma ShutStep(v: Clearing, s: Server, e: Event)
    requires s.shut && Conserves(s.conn)
    ensures var t := Model.Do(v, s, e); t.shut && t.conn.wire == s.conn.wire && Conserves(t.conn)
  {
    hide Parse, Respond, Encode, WriteEnabled, EnableWrite, DisableWrite;
    if s.phase == Running {
      match e
      case Readable(bytes, w, close) =>
        var o := Parse(s.request, s.input + bytes);
        if bytes != "" && o.Complete? {
          SendConserves(s.conn, Encode(Respond(o.request)), PeerGone);
        }
      case WriteReady(w) =>
        WriteConserves(v, s.conn, PeerGone);
    }
  }

  function WriteEvents(ws: seq<WriteResult>): seq<Event> {
    if ws == [] then [] else [WriteReady(ws[0])] + WriteEvents(ws[1..])
  }

  lemma {:induction false} WritesRun(v: Clearing, s: Server, ws: seq<WriteResult>)
    requires s.phase == Running && !s.shut
    ensures Model.Run(v, s, WriteEvents(ws)) == s.(conn := SendPath.Run(v, s.conn, Writables(ws)))
    ensures OnlyWrites(WriteEvents(ws))
    decreases |ws|
  {
    hide HandleWrite;
    if ws != [] {
      var t := Model.Do(v, s, WriteReady(ws[0]));
      assert WriteEvents(ws)[1..] == WriteEvents(ws[1..]) && Writables(ws)[1..] == Writables(ws[1..]);
      WritesRun(v, t, ws[1..]);
    }
  }

  /**
   The responses to the requests served can all reach the socket if and only if the writing
   half is still open or nothing is buffered: a response cut short by the half-close stays so.
   */
  lemma DeliveredExactly(v: Clearing, s: Server)
    requires Inv(s) && s.phase == Running && !s.conn.faulted
    ensures (exists es :: OnlyWrites(es) && Model.Run(v, s, es).conn.wire == Responses(s.served))
       <==> !s.shut || s.conn.output == ""
  {
    hide Model.Run, SendPath.Run, Responses, Told, OnlyWrites, HandleWrite;
    if s.shut {
      assert s.conn.wire + "" == s.conn.wire;
      forall es | OnlyWrites(es)
        ensures Model.Run(v, s, es).conn.wire == s.conn.wire
      {
        NothingAfterShutdown(v, s, es);
      }
      if s.conn.output == "" {
        NoWrites(v, s);
      }
    } else {
      var ws := seq(|s.conn.output|, _ => Wrote(1));
      AllDelivered(v, s.conn, ws);
      WritesRun(v, s, ws);
    }
  }

  lemma NoWrites(v: Clearing, s: Server)
    ensures OnlyWrites([]) && Model.Run(v, s, []) == s
  {
  }

  // ---------------------------------------------------------------------
  // The read that closes
  // ---------------------------------------------------------------------

  /** Everything answered so far can still reach the socket, by whatever happens next. */
  ghost predicate Reaches(v: Clearing, s: Server) {
    exists es :: Responses(s.served) <= Model.Run(v, s, es).conn.wire
  }

  /** The bytes complete a request. */
  predicate Completes(s: Server, bytes: string) {
    bytes != "" && Parse(s.request, s.input + bytes).Complete?
  }

  function ResponseTo(s: Server, bytes: string): string
    requires Completes(s, bytes)
  {
    Encode(Respond(Parse(s.request, s.input + bytes).request))
  }

  lemma ShutReaches(v: Clearing, s: Server)
    requires s.shut && Conserves(s.conn)
    ensures Reaches(v, s) <==> Responses(s.served) <= s.conn.wire
  {
    hide Model.Run, Responses, Conserves;
    NoWrites(v, s);
    forall es
      ensures Model.Run(v, s, es).conn.wire == s.conn.wire
    {
      NothingAfterShutdown(v, s, es);
    }
    if Responses(s.served) <= s.conn.wire {
      assert Responses(s.served) <= Model.Run(v, s, []).conn.wire;
    }
  }

  /** What a direct write leaves behind, and what not. */
  lemma SentWhole(c: Conn, data: string, w: WriteResult)
    requires Conserves(c) && data != ""
    ensures var d := SendData(c, data, w);
            c.accepted + data <= d.wire <==> Idle(c) && w.Wrote? && w.n >= |data|
  {
    hide WriteEnabled, EnableWrite;
    var d := SendData(c, data, w);
    if Idle(c) && w.Wrote? && w.n >= |data| {
      assert c.wire + c.output == c.wire;
      assert d.wire == c.wire + data;
    } else {
      assert |d.wire| < |c.accepted + data|;
    }
  }

  /**
   A request that asks to close is answered in full if and only if the connection was idle and
   the direct write took the whole response: the half-close does not wait for the rest.
   */
  lemma ClosingReadExactly(v: Clearing, s: Server, bytes: string, w: WriteResult)
    requires Inv(s) && s.phase == Running && !s.shut && !s.conn.faulted && Completes(s, bytes)
    ensures Reaches(v, OnReadable(s, bytes, w, true))
       <==> Idle(s.conn) && w.Wrote? && w.n >= |ResponseTo(s, bytes)|
  {
    hide Parse, Respond, Encode, SendData, Responses, Told, Reaches, Conserves;
    var t, q := OnReadable(s, bytes, w, true), Parse(s.request, s.input + bytes).request;
    RespondIsClean(q);
    ResponsesAppend(s.served, q);
    SendConserves(s.conn, ResponseTo(s, bytes), w);
    SentWhole(s.conn, ResponseTo(s, bytes), w);
    ShutReaches(v, t);
  }

  lemma {:induction false} InterestStaysOn(s: Server, es: seq<Event>)
    requires WriteEnabled(s.conn.events)
    ensures WriteEnabled(Model.Run(AsWritten, s, es).conn.events)
    decreases |es|
  {
    hide WriteEnabled, EnableWrite, DisableWrite, Parse, Respond, Encode;
    if es != [] {
      DisableEffect(s.conn.events);
      InterestStaysOn(Model.Do(AsWritten, s, es[0]), es[1..]);
    }
  }

  /** The send of the response to these bytes is left with something over. */
  predicate LeftOver(s: Server, bytes: string, w: WriteResult)
    requires Completes(s, bytes)
  {
    !Idle(s.conn) || !LeavesNothing(Send(ResponseTo(s, bytes), w))
  }

  /**
   With the clearing as written, one response that was ever left over dooms all later closes:
   interest stays on, nothing is written directly any more, and the response to a request that
   asks to close never arrives whole.
   */
  lemma LaterClosesAreLost(
    a: Server, first: string, w: WriteResult, es: seq<Event>, bytes: string, x: WriteResult)
    requires Inv(a) && a.phase == Running && !a.shut && Completes(a, first) && LeftOver(a, first, w)
    requires var s := Model.Run(AsWritten, OnReadable(a, first, w, false), es);
             s.phase == Running && !s.shut && !s.conn.faulted && Completes(s, bytes)
    ensures var s := Model.Run(AsWritten, OnReadable(a, first, w, false), es);
            !Reaches(AsWritten, OnReadable(s, bytes, x, true))
  {
    hide Parse, Respond, Encode, Reaches, Told, Responses, Model.Run, Inv;
    var t := OnReadable(a, first, w, false);
    var s := Model.Run(AsWritten, t, es);
    LeftOverTurnsOn(a, first, w);
    InterestStaysOn(t, es);
    ReadableKeepsInv(a, first, w, false);
    RunKeepsInv(AsWritten, t, es);
    ClosingReadExactly(AsWritten, s, bytes, x);
  }

  lemma LeftOverTurnsOn(a: Server, first: string, w: WriteResult)
    requires Inv(a) && a.phase == Running && !a.shut && Completes(a, first) && LeftOver(a, first, w)
    ensures WriteEnabled(OnReadable(a, first, w, false).conn.events)
  {
    hide Parse, Respond, Encode, Told, Responses, WriteEnabled, EnableWrite, ParsesTo;
    DisableEffect(a.conn.events);
    RespondIsClean(Parse(a.request, a.input + first).request);
  }

  /** A close that cuts its response off: the direct write would block, and no run after it writes a byte. */
  lemma CloseCutsOff(v: Clearing, fd: nat, q: Request, es: seq<Event>)
    requires Printable(q)
    ensures var t := Model.Run(v, Start(fd), [Readable(Print(q), WouldBlock, true)]);
            && t.shut && t.served == Completed([q]) && t.conn.output == Responses(t.served) != ""
            && Model.Run(v, t, es).conn.wire == ""
  {
    hide Parse, Printable, Print, Respond, Encode, WriteEnabled, Model.Do, OnReadable;
    OneClose(v, fd, q);
    var s, e := Start(fd), Readable(Print(q), WouldBlock, true);
    var t := Model.Run(v, s, [e]);
    OneEvent(v, s, e);
    SendConserves(s.conn, Responses(t.served), WouldBlock);
    NothingAfterShutdown(v, t, es);
  }

  lemma OneEvent(v: Clearing, s: Server, e: Event)
    ensures Model.Run(v, s, [e]) == Model.Do(v, s, e)
  {
    hide Model.Do;
    assert [e][1..] == [];
  }

  lemma OneClose(v: Clearing, fd: nat, q: Request)
    requires Printable(q)
    ensures var t, data := Model.Do(v, Start(fd), Readable(Print(q), WouldBlock, true)),
                           Encode(Respond(q.(state := RequestDone)));
            && t.shut && t.served == Completed([q]) && Responses(t.served) == data != ""
            && t.conn == SendData(NewConn(fd), data, WouldBlock) && t.conn.output == data && t.conn.wire == ""
  {
    hide Parse, Printable, Print, Respond, Encode;
    NotEmpty(q);
    RespondIsClean(q.(state := RequestDone));
    RequestRoundTrip(q, "");
    assert "" + Print(q) == Print(q) + "" == Print(q);
    var done := q.(state := RequestDone);
    assert [q][1..] == [] && [done][1..] == [] && Completed([q]) == [done];
    assert Responses([done]) == Encode(Respond(done)) + "" == Encode(Respond(done));
    assert EVENT_READ & EVENT_WRITE == 0;
  }
}
