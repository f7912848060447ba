/**
 The connection object of lib_tcp_server.c with its two buffers and its request, and the
 callbacks of lib_http.c on it. Every method takes the object from one state of the model
 in ConnectionModel to the next.
 */
module HttpServer {
  import opened Decimals
  import opened Options
  import opened Text
  import opened Buffers
  import opened HttpRequest
  import opened HttpResponse
  import opened SendPath
  import opened ConnectionModel
  import HttpRequestLaws
  import Registration

  /** http_request_struc: its header array has a fixed number of entries. */
  class RequestRecord {
    var state: State
    var verb: string
    var url: string
    var version: string
    var headers: array<Header>
    var headersNumber: nat

    ghost predicate Valid()
      reads this
    {
      headers.Length == HEADER_CAPACITY && headersNumber <= headers.Length
    }

    ghost function Model(): Request
      reads this, headers
      requires Valid()
    {
      Request(state, verb, url, version, headers[..headersNumber])
    }

    constructor ()
      ensures Valid() && fresh(headers) && Model() == FRESH
    {
      state, verb, url, version := RequestStatus, "", "", "";
      headers := new Header[HEADER_CAPACITY](_ => Header("", ""));
      headersNumber := 0;
    }

    method Snapshot() returns (q: Request)
      requires Valid()
      ensures q == Model()
    {
      q := Request(state, verb, url, version, headers[..headersNumber]);
    }

    method Reset()
      requires Valid()
      modifies this`state, this`verb, this`url, this`version, this`headersNumber
      ensures Valid() && Model() == FRESH
    {
      state, verb, url, version := RequestStatus, "", "", "";
      headersNumber := 0;
    }

    method AddHeader(key: string, value: string)
      requires Valid() && headersNumber < headers.Length
      modifies this`headersNumber, headers
      ensures Valid() && Model() == old(Model()).(headers := old(Model()).headers + [Header(key, value)])
    {
      headers[headersNumber] := Header(key, value);
      headersNumber := headersNumber + 1;
      assert headers[..headersNumber - 1] == old(headers[..headersNumber]);
    }

    /** process_status_line on the line before the CRLF; false where an assertion of the program fails. */
    method ProcessStatusLine(line: string) returns (ok: bool)
      requires Valid()
      modifies this`state, this`verb, this`url, this`version
      ensures Valid()
      ensures match StatusLine(old(Model()), line)
              case Moved(q, _) => ok && Model() == q
              case _ => !ok && Model() == old(Model())
    {
      hide Cut;
      var words := CutAtSpaces(line);
      if words.TooFew? {
        return false;
      }
      SetLine(words.verb, words.url, words.version);
      return true;
    }

    method SetLine(v: string, u: string, w: string)
      requires Valid()
      modifies this`state, this`verb, this`url, this`version
      ensures Valid()
      ensures Model() == old(Model()).(state := RequestHeaders, verb := v, url := u, version := w)
    {
      state, verb, url, version := RequestHeaders, v, u, w;
    }
  }

  /** The two searches for a space. */
  method CutAtSpaces(line: string) returns (words: Words)
    ensures words.TooFew? <==> Spaces(line) < 2
    ensures IsCutOf(words, line)
    ensures words == Cut(line)
  {
    hide IndexOf, UpTo, Spaces, IsCutOf;
    CutMeans(line);
    var space := IndexOf(line, " ");
    if space < 0 {
      return TooFew;
    }
    var tail := line[space + 1..];
    var second := IndexOf(tail, " ");
    if second < 0 {
      return TooFew;
    }
    words := Words(UpTo(line[..space], NUL), UpTo(tail[..second], NUL), UpTo(tail[second + 1..], NUL));
  }

  /** Why the parse loop stopped; Spins stands for a loop that goes round for ever without a change. */
  datatype LoopEnd = Finished | Spins | AssertionFailed | HeadersFull

  /** One header line before the CRLF at `crlf`. */
  method ParseHeader(input: Buffer, request: RequestRecord, crlf: nat) returns (end: LoopEnd)
    requires input.Valid() && request.Valid() && request.state == RequestHeaders
    requires {input.data as object, input} !! {request.headers, request}
    requires crlf + 2 <= |input.Contents()|
    modifies input`readIndex, request, request.headers
    ensures input.Valid() && request.Valid() && request.headers == old(request.headers)
    ensures match HeaderLine(old(request.Model()), old(input.Contents())[..crlf])
            case Moved(q, n) =>
              end == Finished && request.Model() == q && n <= |old(input.Contents())|
              && input.Contents() == old(input.Contents())[n..]
            case _ => end == HeadersFull
  {
    hide IndexOf, UpTo;
    var line := input.Peek(crlf);
    var colon := IndexOf(line, ": ");
    if colon < 0 {
      request.state := RequestDone;
      input.Consume(2);
    } else if request.headersNumber >= request.headers.Length {
      return HeadersFull;
    } else {
      request.AddHeader(UpTo(line[..colon], NUL), UpTo(line[colon + 2..], NUL));
      input.Consume(crlf + 2);
    }
    end := Finished;
  }

  /** The body of the parse loop. */
  method ParseLine(input: Buffer, request: RequestRecord) returns (end: LoopEnd)
    requires input.Valid() && request.Valid() && request.state != RequestDone
    requires {input.data as object, input} !! {request.headers, request}
    modifies input`readIndex, request, request.headers
    ensures input.Valid() && request.Valid() && request.headers == old(request.headers)
    ensures match Step(old(request.Model()), old(input.Contents()))
            case Moved(q, n) =>
              end == Finished && request.Model() == q && input.Contents() == old(input.Contents())[n..]
            case Stuck =>
              end == Spins && request.Model() == old(request.Model()) && input.Contents() == old(input.Contents())
            case Failed => end == AssertionFailed
            case Full => end == HeadersFull
  {
    hide IndexOf, StatusLine, HeaderLine, Step;
    StepCases(request.Model(), input.Contents());
    var crlf := input.FindCrlf();
    if crlf < 0 {
      return Spins;
    }
    if request.state == RequestStatus {
      var line := input.Peek(crlf);
      var ok := request.ProcessStatusLine(line);
      if !ok {
        return AssertionFailed;
      }
      input.Consume(crlf + 2);
      end := Finished;
    } else {
      end := ParseHeader(input, request, crlf);
    }
  }

  lemma StepCases(r: Request, input: string)
    requires r.state != RequestDone
    ensures var i := IndexOf(input, CRLF);
            && (i < 0 ==> Step(r, input) == Stuck)
            && (i >= 0 ==> i + 2 <= |input|)
            && (i >= 0 && r.state == RequestStatus ==>
                  var p := StatusLine(r, input[..i]);
                  Step(r, input) == p && ((p.Moved? && p.size == i + 2) || p.Failed?))
            && (i >= 0 && r.state == RequestHeaders ==>
                  var p := HeaderLine(r, input[..i]);
                  Step(r, input) == p && (p.Moved? || p.Full?))
  {
    hide IndexOf, UpTo;
  }

  /** parse_http_request. */
  method ParseHttpRequest(input: Buffer, request: RequestRecord) returns (end: LoopEnd)
    requires input.Valid() && request.Valid()
    requires {input.data as object, input} !! {request.headers, request}
    modifies input`readIndex, request, request.headers
    ensures input.Valid() && request.Valid() && request.headers == old(request.headers)
    ensures match Parse(old(request.Model()), old(input.Contents()))
            case Complete(q, rest) => end == Finished && request.Model() == q && input.Contents() == rest
            case Waiting(q, rest) => end == Spins && request.Model() == q && input.Contents() == rest
            case Aborted => end == AssertionFailed
            case Overfull => end == HeadersFull
  {
    hide Step;
    ghost var outcome := Parse(request.Model(), input.Contents());
    while request.state != RequestDone
      invariant input.Valid() && request.Valid() && request.headers == old(request.headers)
      invariant input.data == old(input.data)
      invariant Parse(request.Model(), input.Contents()) == outcome
      decreases |input.Contents()|
    {
      end := ParseLine(input, request);
      if end != Finished {
        return;
      }
    }
    end := Finished;
  }

  method AppendTwo(output: Buffer, s: string, t: string)
    requires output.Valid()
    modifies output, output.data
    ensures output.Valid() && (output.data == old(output.data) || fresh(output.data))
    ensures output.Contents() == old(output.Contents()) + (s + t)
  {
    ghost var before := output.Contents();
    output.Append(s);
    output.Append(t);
    assert before + s + t == before + (s + t);
  }

  method AppendStatus(r: Response, output: Buffer)
    requires output.Valid()
    modifies output, output.data
    ensures output.Valid() && (output.data == old(output.data) || fresh(output.data))
    ensures output.Contents() == old(output.Contents()) + (StatusText(r) + CRLF)
  {
    hide Decimal, Scratch;
    ghost var before := output.Contents();
    AppendTwo(output, Scratch("HTTP/1.1 " + Decimal(r.code) + " "), Appended(r.message));
    output.Append(CRLF);
    assert before + StatusText(r) + CRLF == before + (StatusText(r) + CRLF);
  }

  method AppendConnection(r: Response, output: Buffer)
    requires output.Valid() && Encodable(r)
    modifies output, output.data
    ensures output.Valid() && (output.data == old(output.data) || fresh(output.data))
    ensures output.Contents() == old(output.Contents()) + ConnectionText(r)
  {
    hide Decimal, Scratch;
    if r.keepConnected {
      output.Append("Connection: close" + CRLF);
    } else {
      AppendTwo(output, Scratch(LENGTH_NAME + Decimal(|r.body.value|) + CRLF), "Connection: Keep-Alive" + CRLF);
    }
  }

  method AppendHeader(h: Header, output: Buffer)
    requires output.Valid()
    modifies output, output.data
    ensures output.Valid() && (output.data == old(output.data) || fresh(output.data))
    ensures output.Contents() == old(output.Contents()) + (HttpRequestLaws.PrintHeader(h) + CRLF)
  {
    ghost var before := output.Contents();
    AppendTwo(output, h.key, ": ");
    AppendTwo(output, h.value, CRLF);
    assert before + (h.key + ": ") + (h.value + CRLF) == before + (HttpRequestLaws.PrintHeader(h) + CRLF);
  }

  method AppendHeaders(hs: seq<Header>, output: Buffer)
    requires output.Valid()
    modifies output, output.data
    ensures output.Valid() && (output.data == old(output.data) || fresh(output.data))
    ensures output.Contents() == old(output.Contents()) + HttpRequestLaws.PrintHeaders(hs)
  {
    hide HttpRequestLaws.PrintHeader;
    ghost var before, done := output.Contents(), "";
    for i := 0 to |hs|
      invariant output.Valid() && (output.data == old(output.data) || fresh(output.data))
      invariant output.Contents() == before + done
      invariant done + HttpRequestLaws.PrintHeaders(hs[i..]) == HttpRequestLaws.PrintHeaders(hs)
    {
      AppendHeader(hs[i], output);
      assert hs[i..][1..] == hs[i + 1..];
      done := done + (HttpRequestLaws.PrintHeader(hs[i]) + CRLF);
    }
    assert hs[|hs|..] == [] && done + "" == done;
  }

  /** http_response_encode_buffer. */
  method EncodeBuffer(r: Response, output: Buffer)
    requires output.Valid() && Encodable(r)
    modifies output, output.data
    ensures output.Valid() && (output.data == old(output.data) || fresh(output.data))
    ensures output.Contents() == old(output.Contents()) + Encode(r)
  {
    hide *;
    ghost var before := output.Contents();
    AppendStatus(r, output);
    AppendConnection(r, output);
    AppendHeaders(r.headers, output);
    AppendTwo(output, CRLF, Appended(r.body));
    EncodeParts(r, before);
  }

  lemma EncodeParts(r: Response, before: string)
    requires Encodable(r)
    ensures before + (StatusText(r) + CRLF) + ConnectionText(r) + HttpRequestLaws.PrintHeaders(r.headers)
            + (CRLF + Appended(r.body))
         == before + Encode(r)
  {
    hide StatusText, ConnectionText, HttpRequestLaws.PrintHeaders, Appended;
  }

  /** tcp_connection_struc. The ghost fields record what the model in ConnectionModel keeps track of. */
  class Connection {
    const input: Buffer
    const output: Buffer
    const request: RequestRecord
    const fd: nat
    var events: bv32
    /** The calls of event_loop_add, update and remove_channel_event, as operations. */
    ghost var ops: seq<Registration.Op>
    /** The socket's writing half is closed. */
    ghost var shut: bool
    ghost var phase: Phase
    ghost var wire: string
    ghost var accepted: string
    ghost var faulted: bool
    ghost var received: string
    ghost var served: seq<Request>

    ghost predicate Valid()
      reads this, input, output, request
    {
      && input != output && input.data != output.data
      && input.Valid() && output.Valid() && request.Valid()
    }

    ghost function Sending(): Conn
      reads this, output, output.data
      requires output.Valid()
    {
      Conn(fd, events, output.Contents(), wire, accepted, faulted, ops)
    }

    ghost function Model(): Server
      reads this, input, output, request, input.data, output.data, request.headers
      requires Valid()
    {
      Server(phase, request.Model(), input.Contents(), Sending(), shut, received, served)
    }

    constructor (fd: nat)
      ensures Valid() && Model() == Start(fd)
      ensures fresh(input) && fresh(output) && fresh(request)
      ensures fresh(input.data) && fresh(output.data) && fresh(request.headers)
    {
      var a := new Buffer();
      var b := new Buffer();
      var r := new RequestRecord();
      this.fd, input, output, request := fd, a, b, r;
      events := Registration.EVENT_READ;
      ops, shut := [Registration.Op(1, Registration.Channel(fd, Registration.EVENT_READ))], false;
      phase, wire, accepted, faulted, received, served := Running, "", "", false, "", [];
    }

    /** tcp_connection_send_data. */
    method SendData(data: string, w: WriteResult) returns (written: nat)
      requires Valid() && (w.Wrote? ==> w.n <= |data|)
      modifies this`events, this`ops, this`wire, this`accepted, this`faulted, output, output.data
      ensures Valid() && (output.data == old(output.data) || fresh(output.data))
      ensures Sending() == SendPath.SendData(old(Sending()), data, w)
      ensures written <= |data| && wire == old(wire) + data[..written]
    {
      hide WriteEnabled, EnableWrite;
      written := 0;
      var left, fault := |data|, false;
      if !WriteEnabled(events) && output.ReadableSize() == 0 {
        match w {
          case Wrote(n) =>
            written, left := n, left - n;
          case PeerGone =>
            fault := true;
          case _ =>
        }
      }
      if fault {
        faulted := true;
        assert wire + data[..0] == wire;
        return;
      }
      wire, accepted := wire + data[..written], accepted + data;
      if left > 0 {
        KeepRest(data[written..]);
      }
    }

    /** What the socket did not take is appended to the output, with write interest on. */
    method KeepRest(rest: string)
      requires Valid()
      modifies this`events, this`ops, output, output.data
      ensures Valid() && (output.data == old(output.data) || fresh(output.data))
      ensures Sending() == Buffered(old(Sending()), rest)
    {
      hide WriteEnabled, EnableWrite;
      output.Append(rest);
      if !WriteEnabled(events) {
        ChangeEvents(EnableWrite(events));
      }
    }

    /** channel_write_event_enable and _disable: the new events, and an update for the loop. */
    method ChangeEvents(changed: bv32)
      requires output.Valid()
      modifies this`events, this`ops
      ensures Sending() == SetEvents(old(Sending()), changed)
    {
      events := changed;
      ops := ops + [Registration.Op(3, Registration.Channel(fd, events))];
    }

    /** handle_connection_closed. */
    method CloseConnection()
      requires output.Valid()
      modifies this`phase, this`ops
      ensures phase == Closed && Sending() == Unregister(old(Sending()))
    {
      ops := ops + [Registration.Op(2, Registration.Channel(fd, events))];
      phase := Closed;
    }

    /** tcp_connection_send_buffer on a buffer of the caller. */
    method SendBuffer(buffer: Buffer, w: WriteResult) returns (written: nat)
      requires Valid() && buffer.Valid() && (w.Wrote? ==> w.n <= |buffer.Contents()|)
      requires buffer != input && buffer != output && buffer.data != output.data && buffer.data != input.data
      modifies this`events, this`ops, this`wire, this`accepted, this`faulted, output, output.data, buffer`readIndex
      ensures Valid() && (output.data == old(output.data) || fresh(output.data))
      ensures Sending() == SendPath.SendData(old(Sending()), old(buffer.Contents()), w)
      ensures buffer.Valid() && buffer.Contents() == ""
    {
      hide SendPath.SendData;
      var size := buffer.ReadableSize();
      var data := buffer.Peek(size);
      assert data == buffer.Contents();
      written := SendData(data, w);
      buffer.Consume(size);
    }

    /** handle_write. */
    method HandleWrite(w: WriteResult)
      requires Valid() && phase == Running && (w.Wrote? ==> w.n <= |output.Contents()|)
      requires shut ==> w == PeerGone
      modifies this`events, this`ops, this`wire, output`readIndex
      ensures Valid() && Model() == ConnectionModel.Do(AsWritten, old(Model()), WriteReady(w))
    {
      hide DisableWrite;
      if w.Wrote? && w.n > 0 {
        wire := wire + output.Contents()[..w.n];
        output.Consume(w.n);
        if output.ReadableSize() == 0 {
          ChangeEvents(DisableWrite(AsWritten, events));
        }
      }
    }

    /**
     http_on_message after the read: one request is parsed, answered and reset. `close` is what
     http_request_close_connection says of it.
     */
    method OnMessage(w: WriteResult, close: bool)
      requires Valid() && phase == Running && (shut ==> w == PeerGone)
      requires var o := Parse(request.Model(), input.Contents());
               o.Complete? && w.Wrote? ==> w.n <= |Encode(Respond(o.request))|
      modifies this, output, output.data, input`readIndex, request, request.headers
      ensures Valid() && (output.data == old(output.data) || fresh(output.data))
      ensures input.data == old(input.data) && request.headers == old(request.headers)
      ensures received == old(received)
      ensures match Parse(old(request.Model()), old(input.Contents()))
              case Complete(q, rest) =>
                && phase == Running && request.Model() == FRESH && input.Contents() == rest
                && served == old(served) + [q] && shut == (old(shut) || close)
                && Sending() == SendPath.SendData(old(Sending()), Encode(Respond(q)), w)
              case Waiting(q, rest) =>
                && phase == Spinning && request.Model() == q && input.Contents() == rest
                && served == old(served) && Sending() == old(Sending()) && shut == old(shut)
              case _ =>
                phase == Crashed && served == old(served) && Sending() == old(Sending()) && shut == old(shut)
    {
      hide Parse, Respond, Encode, SendPath.SendData;
      var end := ParseHttpRequest(input, request);
      match end {
        case Finished =>
          Answer(w);
          shut := shut || close;
        case Spins =>
          phase := Spinning;
        case _ =>
          phase := Crashed;
      }
    }

    /** The response to the request just parsed, built in a buffer of its own. */
    method Answer(w: WriteResult)
      requires Valid() && (w.Wrote? ==> w.n <= |Encode(Respond(request.Model()))|)
      modifies this`events, this`ops, this`wire, this`accepted, this`faulted, this`served, output, output.data, request
      ensures Valid() && (output.data == old(output.data) || fresh(output.data))
      ensures request.headers == old(request.headers)
      ensures request.Model() == FRESH && served == old(served) + [old(request.Model())]
      ensures Sending() == SendPath.SendData(old(Sending()), Encode(Respond(old(request.Model()))), w)
    {
      hide Respond, Encode, SendPath.SendData;
      var parsed := request.Snapshot();
      var response := Respond(parsed);
      var buffer := new Buffer();
      EncodeBuffer(response, buffer);
      assert "" + Encode(response) == Encode(response);
      var written := SendBuffer(buffer, w);
      request.Reset();
      served := served + [parsed];
    }

    /** handle_read. */
    method HandleRead(arrival: Arrival, w: WriteResult, close: bool)
      requires Valid() && phase == Running && (shut ==> w == PeerGone)
      requires arrival.Arrived? ==> |arrival.bytes| <= input.WriteableSize() + INIT_BUFFER_SIZE
      requires arrival.Arrived? ==>
                 var o := Parse(request.Model(), input.Contents() + arrival.bytes);
                 o.Complete? && w.Wrote? ==> w.n <= |Encode(Respond(o.request))|
      modifies this, input, output, request, input.data, output.data, request.headers
      ensures Valid()
      ensures var s, bytes := old(Model()), if arrival.Arrived? then arrival.bytes else "";
              var t := ConnectionModel.Do(AsWritten, s, Readable(bytes, w, close));
              // After a failed assertion or overflow the request and the rest of its input are lost.
              Model() == if t.phase == Crashed then t.(request := Model().request, input := Model().input) else t
    {
      hide Parse, Respond, Encode, SendPath.SendData;
      var result := input.SocketRead(arrival);
      if result > 0 {
        received := received + arrival.bytes;
        OnMessage(w, close);
      } else {
        CloseConnection();
        if arrival.Arrived? {
          assert arrival.bytes == "";
        }
      }
    }
  }
}
