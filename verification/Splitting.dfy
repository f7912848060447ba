/**
 What a client can make of the whole stream that a connection sends it: the responses to known
 paths split again, and a 404 answer, which declares no length and announces a close that the
 server does not perform, ends what can be split.
 */
module Splitting {
  import opened Decimals
  import opened Options
  import opened Text
  import opened HttpRequest
  import opened HttpRequestLaws
  import opened HttpResponse
  import opened SendPath
  import opened ConnectionModel

  function ResponsesTo(qs: seq<Request>): (rs: seq<Response>)
    ensures |rs| == |qs|
  {
    if qs == [] then [] else [Respond(qs[0])] + ResponsesTo(qs[1..])
  }

  predicate Known(q: Request) {
    Respond(q).code == 200
  }

  /** The requests in front of the first one for an unknown path. */
  function KnownPart(qs: seq<Request>): seq<Request> {
    if qs == [] || !Known(qs[0]) then [] else [qs[0]] + KnownPart(qs[1..])
  }

  lemma {:induction false} KnownPartIs(qs: seq<Request>)
    ensures KnownPart(qs) <= qs && forall k :: 0 <= k < |KnownPart(qs)| ==> Known(qs[k])
    ensures |KnownPart(qs)| < |qs| ==> !Known(qs[|KnownPart(qs)|])
  {
    hide Known;
    if qs != [] && Known(qs[0]) {
      KnownPartIs(qs[1..]);
    }
  }

  lemma KnownKeepsAlive(q: Request)
    requires Known(q)
    ensures KeepsAlive(Respond(q))
  {
    RespondIsClean(q);
    hide IndexOf, Encode, CrlfFree, Decimal, Path;
    var n := |Respond(q).body.value|;
    ShortLengths(n);
  }

  lemma ShortLengths(n: nat)
    requires n < 1000
    ensures |Decimal(n)| <= 3
  {
    if n >= 100 {
      assert |Decimal(n / 10 / 10)| == 1;
      assert |Decimal(n / 10)| == 2;
    } else if n >= 10 {
      assert |Decimal(n / 10)| == 1;
    }
  }

  lemma {:induction false} AllKnown(qs: seq<Request>)
    requires forall k :: 0 <= k < |qs| ==> Known(qs[k])
    ensures AllKeepAlive(ResponsesTo(qs)) && EncodeAll(ResponsesTo(qs)) == Responses(qs)
    decreases |qs|
  {
    hide Known, Respond, Encode, KeepsAlive;
    if qs != [] {
      KnownKeepsAlive(qs[0]);
      AllKnown(qs[1..]);
      assert ResponsesTo(qs)[1..] == ResponsesTo(qs[1..]);
    }
  }

  /** A 404 answer cannot be framed, whatever follows it. */
  lemma UnknownEndsSplitting(q: Request, rest: string)
    requires !Known(q)
    ensures ReadAll(Encode(Respond(q)) + rest) == []
  {
    var r := NoPage();
    assert Respond(q) == r;
    hide Respond, IndexOf, Decimal, ReadAll;
    UnknownLines(rest);
    ReadNothing(Encode(r) + rest);
  }

  lemma ReadNothing(stream: string)
    requires ReadResponse(stream) == Unframed
    ensures ReadAll(stream) == []
  {
  }

  lemma UnknownLines(rest: string)
    ensures ReadResponse(Encode(NoPage()) + rest) == Unframed
  {
    var r := NoPage();
    hide Decimal, StatusText, DeclaredLength, IndexOf;
    ResponsesClean();
    CleanIfMessageIs(r);
    EncodeLines(r);
    LinesAreLines(r);
    StatusTextIsLine(r);
    var ls := Lines(r);
    var head := JoinLines(ls);
    HeadEnds(ls, rest);
    assert Encode(r) + rest == head + CRLF + rest;
    assert ls == [StatusText(r), "Connection: close"];
    assert (head + CRLF + rest)[..|head|] == head;
    NoLengthDeclared(StatusText(r), head);
  }

  lemma NoLengthDeclared(status: string, head: string)
    requires IsLine(status) && status[0] == 'H'
    requires head == JoinLines([status, "Connection: close"])
    ensures DeclaredLength(head) < 0
  {
    hide DeclaredLength, IndexOf;
    var close := "Connection: close";
    JoinOne(close);
    assert [status, close][1..] == [close];
    assert head == status + CRLF + (close + CRLF);
    OtherLineSkipped(status, close + CRLF);
    CloseLine();
  }

  lemma CloseLine()
    ensures DeclaredLength("Connection: close" + CRLF) < 0
  {
    hide IndexOf, ParseDecimal;
    var close := "Connection: close";
    NoCarriageReturn(close);
    CloseIsSkipped(close);
    NothingDeclared();
  }

  lemma CloseIsSkipped(line: string)
    requires !Contains(line, CRLF) && |line| > 3 && line[3] == 'n'
    ensures DeclaredLength(line + CRLF) == DeclaredLength("")
  {
    hide IndexOf, ParseDecimal;
    var head := line + CRLF;
    PairAfter(line, CRLF, "");
    assert line + CRLF + "" == head;
    assert head[..|line|] == line && head[|line| + 2..] == "";
    assert LENGTH_NAME[3] == 't';
  }

  lemma NothingDeclared()
    ensures DeclaredLength("") == -1
  {
  }

  /** From responses in order, a client that splits by declared lengths gets those to the known paths in front. */
  lemma {:induction false} SplitsUpToUnknown(qs: seq<Request>)
    ensures AllKeepAlive(ResponsesTo(KnownPart(qs)))
    ensures ReadAll(Responses(qs)) == Messages(ResponsesTo(KnownPart(qs)))
    decreases |qs|
  {
    hide ReadAll, Known, Respond, Encode, KeepsAlive, Messages;
    var ks := KnownPart(qs);
    KnownPartIs(qs);
    AllKnown(ks);
    var others := qs[|ks|..];
    assert ks + others == qs;
    ResponsesJoin(ks, others);
    StreamSplits(ResponsesTo(ks), Responses(others));
    assert ReadAll(Responses(others)) == [] by {
      if others == [] {
        ReadEmpty();
      } else {
        UnknownEndsSplitting(others[0], Responses(others[1..]));
      }
    }
    assert Messages(ResponsesTo(ks)) + [] == Messages(ResponsesTo(ks));
  }

  lemma ReadEmpty()
    ensures ReadAll("") == []
  {
    assert IndexOf("", BLANK_LINE) < 0;
  }

  lemma {:induction false} ResponsesJoin(ps: seq<Request>, qs: seq<Request>)
    ensures Responses(ps + qs) == Responses(ps) + Responses(qs)
    decreases |ps|
  {
    hide Respond, Encode;
    if ps == [] {
      assert ps + qs == qs;
    } else {
      assert (ps + qs)[1..] == ps[1..] + qs;
      ResponsesJoin(ps[1..], qs);
    }
  }

  lemma {:induction false} MessageCount(rs: seq<Response>)
    requires AllKeepAlive(rs)
    ensures |Messages(rs)| == |rs|
  {
    hide KeepsAlive, JoinLines, Lines;
    if rs != [] {
      MessageCount(rs[1..]);
    }
  }

  /**
   On every run without a fault, what was written and what is still buffered splits into the
   heads and bodies of the responses up to the first unknown path, and so into as many
   messages as requests were served if and only if all of them were for known paths.
   */
  lemma ClientSplitsStream(v: Clearing, fd: nat, es: seq<Event>)
    requires !ConnectionModel.Run(v, Start(fd), es).conn.faulted
    ensures var s := ConnectionModel.Run(v, Start(fd), es);
            var all := ReadAll(s.conn.wire + s.conn.output);
            && AllKeepAlive(ResponsesTo(KnownPart(s.served)))
            && all == Messages(ResponsesTo(KnownPart(s.served)))
            && (|all| == |s.served| <==> forall k :: 0 <= k < |s.served| ==> Known(s.served[k]))
  {
    hide ConnectionModel.Run, ReadAll, Known, Messages, KeepsAlive;
    var s := ConnectionModel.Run(v, Start(fd), es);
    EndToEnd(v, fd, es);
    SplitsUpToUnknown(s.served);
    KnownPartIs(s.served);
    MessageCount(ResponsesTo(KnownPart(s.served)));
  }

  /** The code and the body that the k-th message of the stream carries are those of the k-th request's answer. */
  lemma {:induction false} MessagesTell(rs: seq<Response>, k: nat)
    requires AllKeepAlive(rs) && k < |rs| && |Decimal(rs[k].code)| <= 21
    ensures |Messages(rs)| == |rs| && Messages(rs)[k].1 == rs[k].body.value
    ensures ReadStatus(Messages(rs)[k].0) == Status("HTTP/1.1", rs[k].code, Appended(rs[k].message))
    decreases k
  {
    hide Lines, ReadStatus, KeepsAlive, Decimal, JoinLines;
    MessageCount(rs);
    if k > 0 {
      MessagesTell(rs[1..], k - 1);
    } else {
      HeadStarts(rs[0]);
    }
  }

  lemma HeadStarts(r: Response)
    requires KeepsAlive(r) && |Decimal(r.code)| <= 21
    ensures ReadStatus(JoinLines(Lines(r))) == Status("HTTP/1.1", r.code, Appended(r.message))
  {
    hide Decimal, StatusText, ReadStatus, HeaderLines;
    StatusLineRoundTrip(r, JoinLines(Lines(r)[1..]));
  }

  lemma {:induction false} ResponsesToAt(qs: seq<Request>, k: nat)
    requires k < |qs|
    ensures ResponsesTo(qs)[k] == Respond(qs[k])
    decreases k
  {
    hide Respond;
    if k > 0 {
      ResponsesToAt(qs[1..], k - 1);
    }
  }

  /**
   What the client learns: each message carries the code, the message and the page of the answer
   to the request in its place, and the first request for an unknown path is answered with 404.
   */
  lemma ClientLearns(v: Clearing, fd: nat, es: seq<Event>, k: nat)
    requires var s := ConnectionModel.Run(v, Start(fd), es); !s.conn.faulted && k < |KnownPart(s.served)|
    ensures var s := ConnectionModel.Run(v, Start(fd), es);
            var all := ReadAll(s.conn.wire + s.conn.output);
            && k < |all| && k < |s.served| && Respond(s.served[k]).body == Some(all[k].1)
            && ReadStatus(all[k].0) == Status("HTTP/1.1", 200, "OK")
  {
    hide ConnectionModel.Run, ReadAll, Messages, Decimal, ReadStatus, KeepsAlive, ResponsesTo, KnownPart;
    var s := ConnectionModel.Run(v, Start(fd), es);
    var ks := KnownPart(s.served);
    ClientSplitsStream(v, fd, es);
    KnownPartIs(s.served);
    ResponsesToAt(ks, k);
    KnownCode(s.served[k]);
    MessagesTell(ResponsesTo(ks), k);
  }

  lemma KnownCode(q: Request)
    requires Known(q)
    ensures Respond(q).code == 200 && Appended(Respond(q).message) == "OK" && |Decimal(Respond(q).code)| <= 21
    ensures Respond(q).body.Some?
  {
    ShortLengths(200);
    hide Path, Decimal;
  }

  lemma UnknownTells(q: Request, rest: string)
    requires !Known(q)
    ensures ReadStatus(Encode(Respond(q)) + rest) == Status("HTTP/1.1", 404, "Not Found")
  {
    assert Respond(q) == NoPage();
    ResponsesClean();
    ShortLengths(404);
    hide Path, Decimal, Encode, ReadStatus, Respond;
    StatusRoundTrip(NoPage(), rest);
  }

  lemma PageBytes()
    ensures Encode(Page("COMP 5311"))
         == "HTTP/1.1 200 OK" + CRLF + "Content-Length:9" + CRLF + "Connection: Keep-Alive" + CRLF + CRLF + "COMP 5311"
  {
    SomeDecimals();
    hide Decimal;
    var r := Page("COMP 5311");
    assert |r.body.value| == 9;
    assert StatusText(r) == "HTTP/1.1 200 OK";
    hide StatusText;
    assert ConnectionText(r) == "Content-Length:9" + CRLF + ("Connection: Keep-Alive" + CRLF);
    hide ConnectionText;
    assert PrintHeaders(r.headers) == "";
  }

  lemma NoPageBytes()
    ensures Encode(NoPage()) == "HTTP/1.1 404 Not Found" + CRLF + "Connection: close" + CRLF + CRLF
  {
    SomeDecimals();
    hide Decimal;
    var r := NoPage();
    assert StatusText(r) == "HTTP/1.1 404 Not Found";
    hide StatusText;
    assert PrintHeaders(r.headers) == "";
  }

  /** Two answers, byte for byte. */
  lemma Answers(q: Request)
    ensures q.url == "/network" ==>
              Encode(Respond(q))
              == "HTTP/1.1 200 OK" + CRLF + "Content-Length:9" + CRLF + "Connection: Keep-Alive" + CRLF + CRLF
                 + "COMP 5311"
    ensures q.url == "/nosuch" ==>
              Encode(Respond(q)) == "HTTP/1.1 404 Not Found" + CRLF + "Connection: close" + CRLF + CRLF
  {
    PageBytes();
    NoPageBytes();
    hide Encode, Page, NoPage;
    if q.url == "/network" || q.url == "/nosuch" {
      WholePath(q.url);
    }
  }

  lemma WholePath(url: string)
    requires '?' !in url
    ensures Path(url) == url
  {
    Lacks(url, "?", 0);
  }

  lemma SomeDecimals()
    ensures Decimal(9) == "9" && Decimal(200) == "200" && Decimal(404) == "404"
  {
    assert Decimal(20) == "20" && Decimal(40) == "40";
  }
}
