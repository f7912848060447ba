/**
 One connection of the HTTP server end to end: bytes arrive, one request is parsed for
 each message, its response is encoded and sent, and the socket takes what it likes.
 (http_on_message of lib_http.c, handle_read and handle_write of lib_tcp_server.c,
 handle_request of server.c.)
 */
module ConnectionModel {
  import opened Decimals
  import opened Options
  import opened Text
  import opened HttpRequest
  import opened HttpRequestLaws
  import opened HttpResponse
  import opened Registration
  import opened SendPath

  const ROOT_BODY := "<html><head><title>COMP 5311</title></head><body><h1>Internet Infrastructure and Protocols</h1></body></html>"

  function Page(body: string): (r: Response)
    ensures Encodable(r)
  {
    Response(200, Some("OK"), false, [], Some(body))
  }

  function NoPage(): (r: Response)
    ensures Encodable(r)
  {
    Response(404, Some("Not Found"), true, [], None)
  }

  function Path(url: string): string {
    var question := IndexOf(url, "?");
    if question >= 0 then url[..question] else url
  }

  /** handle_request: the response depends on the path, which ends where the query starts. */
  function Respond(q: Request): (r: Response)
    ensures Encodable(r)
  {
    if Path(q.url) == "/" then Page(ROOT_BODY)
    else if Path(q.url) == "/network" then Page("COMP 5311")
    else NoPage()
  }

  /** Every response has lines without a stray CRLF, and is not empty. */
  lemma RespondIsClean(q: Request)
    ensures CrlfFree(Respond(q)) && Encode(Respond(q)) != ""
  {
    hide IndexOf, Decimal, Encode, Contains, Path;
    ResponsesClean();
    CleanIfMessageIs(Respond(q));
  }

  lemma CleanIfMessageIs(r: Response)
    requires Encodable(r) && r.headers == [] && !Contains(Appended(r.message), CRLF)
    ensures CrlfFree(r) && Encode(r) != ""
  {
    hide IndexOf, Decimal, StatusText, ConnectionText;
    assert |Encode(r)| >= |CRLF|;
  }

  lemma ResponsesClean()
    ensures !Contains("OK", CRLF) && !Contains("Not Found", CRLF)
  {
    NoCarriageReturn("OK");
    NoCarriageReturn("Not Found");
  }

  /** Query strings do not matter, and the routes answer as the table of paths says. */
  lemma Routing(q: Request, query: string)
    requires '?' !in q.url
    ensures Respond(q.(url := q.url + "?" + query)) == Respond(q)
    ensures Respond(q).code == 200 <==> q.url in {"/", "/network"}
    ensures Respond(q).body == if q.url == "/" then Some(ROOT_BODY)
                               else if q.url == "/network" then Some("COMP 5311") else None
    ensures Respond(q).keepConnected <==> Respond(q).code == 404
    ensures Respond(q).code == 200 ==> Respond(q).message == Some("OK")
    ensures Respond(q).code != 200 ==> Respond(q).code == 404 && Respond(q).message == Some("Not Found")
    ensures Respond(q).headers == []
  {
    SeparatorAfter(q.url, '?', query);
    assert (q.url + "?" + query)[..|q.url|] == q.url;
    if IndexOf(q.url, "?") >= 0 {
      AtStarts(q.url, "?", IndexOf(q.url, "?"));
    }
  }

  /** Spinning: the parse loop runs on an incomplete request. Crashed: an assertion or the header array's end. */
  datatype Phase = Running | Spinning | Crashed | Closed

  /** `shut`: the writing half of the socket has been closed, after which every write fails. */
  datatype Server = Server(
    phase: Phase, request: Request, input: string, conn: Conn, shut: bool, received: string, served: seq<Request>)

  function Start(fd: nat): Server {
    Server(Running, FRESH, "", NewConn(fd), false, "", [])
  }

  /**
   The socket is readable, with what readv delivers, what a direct write would answer, and
   whether the request, once complete, asks to close; or it is writable.
   */
  datatype Event = Readable(bytes: string, w: WriteResult, close: bool) | WriteReady(w: WriteResult)

  function Answer(s: Server, w: WriteResult): WriteResult {
    if s.shut then PeerGone else w
  }

  function OnReadable(s: Server, bytes: string, w: WriteResult, close: bool): Server {
    if bytes == "" then s.(phase := Closed, conn := Unregister(s.conn))
    else
      var t := s.(received := s.received + bytes);
      match Parse(s.request, s.input + bytes)
      case Complete(q, rest) =>
        t.(request := FRESH, input := rest, served := s.served + [q], shut := s.shut || close,
           conn := SendData(s.conn, Encode(Respond(q)), Answer(s, w)))
      case Waiting(q, rest) => t.(phase := Spinning, request := q, input := rest)
      case Aborted => t.(phase := Crashed)
      case Overfull => t.(phase := Crashed)
  }

  function Do(v: Clearing, s: Server, e: Event): Server {
    if s.phase != Running then s
    else match e
      case Readable(bytes, w, close) => OnReadable(s, bytes, w, close)
      case WriteReady(w) => s.(conn := HandleWrite(v, s.conn, Answer(s, w)))
  }

  /** What becomes of the server on a read: it is decided by the lines that have arrived. */
  lemma ReadDecides(s: Server, bytes: string, w: WriteResult, close: bool)
    requires s.phase == Running && |s.request.headers| <= HEADER_CAPACITY
    ensures var t, o := OnReadable(s, bytes, w, close), Parse(s.request, s.input + bytes);
            && (t.phase == Closed <==> bytes == "")
            && (t.phase == Spinning <==> bytes != "" && !LinesSuffice(s.request, s.input + bytes))
            && (t.phase == Crashed <==> bytes != "" && (o == Aborted || o == Overfull))
            && (t.phase == Running <==> bytes != "" && |t.served| == |s.served| + 1)
            && t.received == s.received + bytes
  {
    hide Parse, Respond, Encode, SendData, LinesSuffice;
    WaitsExactly(s.request, s.input + bytes);
    assert s.received + "" == s.received;
  }

  function Run(v: Clearing, s: Server, es: seq<Event>): Server
    decreases |es|
  {
    if es == [] then s else Run(v, Do(v, s, es[0]), es[1..])
  }

  function Responses(qs: seq<Request>): string {
    if qs == [] then "" else Encode(Respond(qs[0])) + Responses(qs[1..])
  }

  // ---------------------------------------------------------------------
  // Parsing in turn
  // ---------------------------------------------------------------------

  /** Parsing and resetting in turn takes `stream` to the requests `qs` and leaves `rest`. */
  ghost predicate ParsesTo(stream: string, qs: seq<Request>, rest: string)
    decreases |qs|
  {
    if qs == [] then stream == rest
    else
      var o := Parse(FRESH, stream);
      o.Complete? && o.request == qs[0] && ParsesTo(o.rest, qs[1..], rest)
  }

  lemma {:induction false} ParsesToMore(stream: string, qs: seq<Request>, rest: string, more: string)
    requires ParsesTo(stream, qs, rest)
    ensures ParsesTo(stream + more, qs, rest + more)
    decreases |qs|
  {
    hide Parse;
    if qs != [] {
      ParseAppend(FRESH, stream, more);
      ParsesToMore(Parse(FRESH, stream).rest, qs[1..], rest, more);
    }
  }

  lemma {:induction false} ParsesToNext(stream: string, qs: seq<Request>, rest: string)
    requires ParsesTo(stream, qs, rest) && Parse(FRESH, rest).Complete?
    ensures ParsesTo(stream, qs + [Parse(FRESH, rest).request], Parse(FRESH, rest).rest)
    decreases |qs|
  {
    hide Parse;
    var q := Parse(FRESH, rest).request;
    if qs != [] {
      ParsesToNext(Parse(FRESH, stream).rest, qs[1..], rest);
      assert (qs + [q])[1..] == qs[1..] + [q];
    } else {
      assert (qs + [q])[1..] == [];
    }
  }

  lemma {:induction false} ParsesToPrefix(stream: string, qs: seq<Request>, rest: string)
    requires ParsesTo(stream, qs, rest)
    ensures ParseAll(stream) == qs + ParseAll(rest)
    decreases |qs|
  {
    hide Parse;
    if qs != [] {
      ParsesToPrefix(Parse(FRESH, stream).rest, qs[1..], rest);
    }
  }

  // ---------------------------------------------------------------------
  // All runs
  // ---------------------------------------------------------------------

  lemma {:induction false} ResponsesAppend(qs: seq<Request>, q: Request)
    ensures Responses(qs + [q]) == Responses(qs) + Encode(Respond(q))
  {
    hide Encode, Respond;
    if qs == [] {
      assert [q][1..] == [];
      assert qs + [q] == [q];
    } else {
      assert (qs + [q])[1..] == qs[1..] + [q];
      ResponsesAppend(qs[1..], q);
    }
  }

  /** What every reachable state satisfies. */
  ghost predicate Inv(s: Server) {
    && Conserves(s.conn)
    && (s.phase != Closed ==> Told(s.conn))
    && (s.phase == Closed ==> forall m: Interest :: s.conn.fd !in m ==> RegisterAll(m, s.conn.ops) == m)
    && (!s.conn.faulted ==> s.conn.accepted == Responses(s.served))
    && (exists rest :: ParsesTo(s.received, s.served, rest))
    && (s.phase == Running ==> s.request == FRESH && ParsesTo(s.received, s.served, s.input))
  }

  lemma RequestKeepsInv(s: Server, bytes: string, w: WriteResult, close: bool)
    requires s.phase == Running && Inv(s) && bytes != ""
    ensures Inv(OnReadable(s, bytes, w, close)) && OnReadable(s, bytes, w, close).conn.fd == s.conn.fd
  {
    hide Parse, Respond, Encode, SendData, Conserves, Told;
    ParsesToMore(s.received, s.served, s.input, bytes);
    var o := Parse(FRESH, s.input + bytes);
    if o.Complete? {
      var data := Encode(Respond(o.request));
      ParsesToNext(s.received + bytes, s.served, s.input + bytes);
      SendConserves(s.conn, data, Answer(s, w));
      ResponsesAppend(s.served, o.request);
      SendAccepts(s.conn, data, Answer(s, w));
      StepIsTold(AsWritten, s.conn, Send(data, Answer(s, w)));
    }
  }

  lemma ReadableKeepsInv(s: Server, bytes: string, w: WriteResult, close: bool)
    requires s.phase == Running && Inv(s)
    ensures Inv(OnReadable(s, bytes, w, close)) && OnReadable(s, bytes, w, close).conn.fd == s.conn.fd
  {
    hide Parse, Respond, Encode, SendData, Told;
    if bytes == "" {
      forall m: Interest | s.conn.fd !in m
        ensures RegisterAll(m, Unregister(s.conn).ops) == m
      {
        UnregisterIsTold(s.conn, m);
      }
    } else {
      RequestKeepsInv(s, bytes, w, close);
    }
  }

  lemma SendAccepts(c: Conn, data: string, w: WriteResult)
    ensures !SendData(c, data, w).faulted ==> !c.faulted && SendData(c, data, w).accepted == c.accepted + data
  {
  }

  lemma StepKeepsInv(v: Clearing, s: Server, e: Event)
    requires Inv(s)
    ensures Inv(Do(v, s, e)) && Do(v, s, e).conn.fd == s.conn.fd
  {
    hide Parse, Respond, Encode, SendData, Conserves, OnReadable, ParsesTo, HandleWrite, Told;
    if s.phase == Running {
      match e
      case Readable(bytes, w, close) =>
        ReadableKeepsInv(s, bytes, w, close);
      case WriteReady(w) =>
        WriteConserves(v, s.conn, Answer(s, w));
        StepIsTold(v, s.conn, Writable(Answer(s, w)));
        WriteAccepts(v, s.conn, Answer(s, w));
    }
  }

  lemma WriteAccepts(v: Clearing, c: Conn, w: WriteResult)
    ensures HandleWrite(v, c, w).accepted == c.accepted && HandleWrite(v, c, w).faulted == c.faulted
  {
  }

  lemma {:induction false} RunKeepsInv(v: Clearing, s: Server, es: seq<Event>)
    requires Inv(s)
    ensures Inv(Run(v, s, es)) && Run(v, s, es).conn.fd == s.conn.fd
    decreases |es|
  {
    hide Inv, Do;
    if es != [] {
      StepKeepsInv(v, s, es[0]);
      RunKeepsInv(v, Do(v, s, es[0]), es[1..]);
    }
  }

  lemma StartInv(fd: nat)
    ensures Inv(Start(fd))
  {
    NewIsTold(fd);
    assert ParsesTo("", [], "");
  }

  /**
   On every run, whatever arrives and whatever the socket takes: the bytes written followed
   by the bytes buffered are the responses to the requests served, in order, until a direct
   write finds the peer gone; the requests served are the first ones of the bytes received;
   and buffered output has write interest.
   */
  lemma EndToEnd(v: Clearing, fd: nat, es: seq<Event>)
    ensures var s := Run(v, Start(fd), es);
            && (!s.conn.faulted ==> s.conn.wire + s.conn.output == Responses(s.served))
            && s.conn.wire + s.conn.output == s.conn.accepted
            && s.served <= ParseAll(s.received)
            && (s.phase == Running ==> ParseAll(s.received) == s.served + ParseAll(s.input))
            && (s.conn.output != "" ==> WriteEnabled(s.conn.events))
  {
    StartInv(fd);
    RunKeepsInv(v, Start(fd), es);
    hide Run, ParsesTo, ParseAll, Responses;
    var s := Run(v, Start(fd), es);
    var rest :| ParsesTo(s.received, s.served, rest);
    ParsesToPrefix(s.received, s.served, rest);
    if s.phase == Running {
      ParsesToPrefix(s.received, s.served, s.input);
    }
  }

  function Reads(es: seq<Event>): nat {
    if es == [] then 0 else (if es[0].Readable? then 1 else 0) + Reads(es[1..])
  }

  /**
   A message is answered with one response at most: of requests that arrive together all but
   the first stay in the input buffer until more bytes arrive.
   */
  lemma {:induction false} OneAnswerPerRead(v: Clearing, s: Server, es: seq<Event>)
    ensures var t := Run(v, s, es);
            s.served <= t.served && |t.served| <= |s.served| + Reads(es)
    decreases |es|
  {
    hide Parse, Respond, Encode, SendData, HandleWrite;
    if es != [] {
      OneAnswerPerRead(v, Do(v, s, es[0]), es[1..]);
    }
  }

  lemma {:induction false} ResponsesPrefix(ps: seq<Request>, qs: seq<Request>)
    requires ps <= qs
    ensures Responses(ps) <= Responses(qs)
  {
    hide Encode, Respond;
    if ps != [] {
      ResponsesPrefix(ps[1..], qs[1..]);
    }
  }

  /**
   A client that prints requests sees, at any moment of any run without a fault, a prefix of
   the responses to those requests in their order, however its bytes are cut into reads and
   the server's bytes into writes.
   */
  lemma ClientSeesResponsesInOrder(v: Clearing, fd: nat, es: seq<Event>, qs: seq<Request>)
    requires forall q | q in qs :: Printable(q)
    requires var s := Run(v, Start(fd), es); s.received <= PrintAll(qs) && !s.conn.faulted
    ensures var s := Run(v, Start(fd), es);
            && s.served <= Completed(qs)
            && s.conn.wire <= Responses(Completed(qs))
  {
    StartInv(fd);
    RunKeepsInv(v, Start(fd), es);
    hide Run, ParsesTo, Printable, Responses, PrintAll;
    var s := Run(v, Start(fd), es);
    var rest :| ParsesTo(s.received, s.served, rest);
    var more := PrintAll(qs)[|s.received|..];
    assert s.received + more == PrintAll(qs);
    ParsesToMore(s.received, s.served, rest, more);
    ParsesToPrefix(PrintAll(qs), s.served, rest + more);
    PipelineRoundTrip(qs, "");
    assert PrintAll(qs) + "" == PrintAll(qs);
    NothingParses();
    assert Completed(qs) + [] == Completed(qs);
    ResponsesPrefix(s.served, Completed(qs));
    assert s.conn.wire <= s.conn.wire + s.conn.output;
  }

  lemma NothingParses()
    ensures ParseAll("") == []
  {
  }
}
