/**
 The request parser undoes the printing of a request, for exactly the requests whose parts
 stay clear of the separators (sections 2.1, 3 and 5 of RFC 9112 give the shape), also when
 requests follow one another in the buffer.
 */
module HttpRequestLaws {
  import opened Text
  import opened HttpRequest

  function RequestLine(q: Request): string {
    q.verb + " " + q.url + " " + q.version
  }

  function PrintHeader(h: Header): string {
    h.key + ": " + h.value
  }

  function PrintHeaders(hs: seq<Header>): string {
    if hs == [] then "" else PrintHeader(hs[0]) + CRLF + PrintHeaders(hs[1..])
  }

  function Print(q: Request): string {
    RequestLine(q) + CRLF + PrintHeaders(q.headers) + CRLF
  }

  /** A part that the parser takes over whole: no CRLF, and no NUL, where its C string would end. */
  predicate Plain(s: string) {
    !Contains(s, CRLF) && NUL !in s
  }

  predicate HeaderPrintable(h: Header) {
    Plain(h.key) && Plain(h.value) && !Contains(h.key, ": ")
  }

  ghost predicate Printable(q: Request) {
    && Plain(q.verb) && Plain(q.url) && Plain(q.version)
    && ' ' !in q.verb && ' ' !in q.url
    && |q.headers| <= HEADER_CAPACITY
    && forall h | h in q.headers :: HeaderPrintable(h)
  }

  // ---------------------------------------------------------------------
  // One line
  // ---------------------------------------------------------------------

  /** A CRLF cannot span a character that is neither of its own. */
  lemma CrlfAcross(a: string, c: char, b: string)
    requires c != '\r' && c != '\n'
    ensures Contains(a + [c] + b, CRLF) <==> Contains(a, CRLF) || Contains(b, CRLF)
  {
    var t := a + [c] + b;
    if Contains(a, CRLF) {
      assert "" + a + ([c] + b) == t;
      ContainsPart("", a, [c] + b, CRLF);
    } else if Contains(b, CRLF) {
      assert a + [c] + b + "" == t;
      ContainsPart(a + [c], b, "", CRLF);
    } else if Contains(t, CRLF) {
      CrlfSide(a, c, b, IndexOf(t, CRLF));
    }
  }

  lemma CrlfSide(a: string, c: char, b: string, i: nat)
    requires c != '\r' && c != '\n' && At(a + [c] + b, CRLF, i)
    ensures At(a, CRLF, i) || At(b, CRLF, i - |a| - 1)
  {
    var t := a + [c] + b;
    assert t[i..i + 2][0] == t[i] && t[i..i + 2][1] == t[i + 1] && t[|a|] == c;
    if i < |a| {
      assert a[i..i + 2] == t[i..i + 2];
    } else {
      assert b[i - |a| - 1..i - |a| + 1] == t[i..i + 2];
    }
  }

  lemma RequestLineCrlf(q: Request)
    ensures Contains(RequestLine(q), CRLF)
       <==> Contains(q.verb, CRLF) || Contains(q.url, CRLF) || Contains(q.version, CRLF)
  {
    CrlfAcross(q.verb + " " + q.url, ' ', q.version);
    CrlfAcross(q.verb, ' ', q.url);
  }

  lemma HeaderCrlf(h: Header)
    ensures Contains(PrintHeader(h), CRLF) <==> Contains(h.key, CRLF) || Contains(h.value, CRLF)
  {
    assert PrintHeader(h) == h.key + ":" + (" " + h.value);
    assert " " + h.value == "" + " " + h.value;
    CrlfAcross(h.key, ':', " " + h.value);
    CrlfAcross("", ' ', h.value);
  }

  predicate SameLine(q: Request, p: Request) {
    q.verb == p.verb && q.url == p.url && q.version == p.version
  }

  /** The parsed parts are no longer than the line they come from. */
  lemma StatusLineSizes(r: Request, line: string)
    requires StatusLine(r, line).Moved?
    ensures var q := StatusLine(r, line).request;
            |q.verb| + |q.url| + |q.version| + 2 <= |line| && q.state == RequestHeaders && q.headers == r.headers
  {
  }

  lemma StatusLineParts(r: Request, q: Request)
    ensures var p := StatusLine(r, RequestLine(q));
            && (' ' !in q.verb && ' ' !in q.url
                ==> p == Moved(r.(state := RequestHeaders, verb := UpTo(q.verb, NUL), url := UpTo(q.url, NUL),
                                  version := UpTo(q.version, NUL)), |RequestLine(q)| + 2))
            && (' ' in q.verb || ' ' in q.url ==> p.Moved? ==> !SameLine(p.request, q))
  {
    hide StatusLine, UpTo;
    var tail := q.url + " " + q.version;
    assert RequestLine(q) == q.verb + " " + tail;
    WordsParts(r, q, RequestLine(q), tail);
  }

  lemma WordsParts(r: Request, q: Request, line: string, tail: string)
    requires line == q.verb + " " + tail && tail == q.url + " " + q.version
    ensures var p := StatusLine(r, line);
            && (' ' !in q.verb && ' ' !in q.url
                ==> p == Moved(r.(state := RequestHeaders, verb := UpTo(q.verb, NUL), url := UpTo(q.url, NUL),
                                  version := UpTo(q.version, NUL)), |line| + 2))
            && (' ' in q.verb || ' ' in q.url ==> p.Moved? ==> !SameLine(p.request, q))
  {
    hide SplitAtSpace, UpTo;
    var p := StatusLine(r, line);
    FirstWord(line, q.verb, tail);
    FirstWord(tail, q.url, q.version);
    if ' ' in q.verb {
      assert p.Moved? ==> |p.request.verb| < |q.verb|;
    } else if ' ' in q.url {
      assert p.Moved? ==> |p.request.url| < |q.url|;
    }
  }

  ghost predicate LinePrintable(q: Request) {
    Plain(q.verb) && Plain(q.url) && Plain(q.version) && ' ' !in q.verb && ' ' !in q.url
  }

  lemma RequestLineRoundTrip(q: Request, rest: string)
    ensures var p := Step(FRESH, RequestLine(q) + CRLF + rest);
            && (LinePrintable(q) ==> p == Moved(q.(state := RequestHeaders, headers := []), |RequestLine(q)| + 2))
            && (!LinePrintable(q) ==> p.Moved? ==> p.request.state == RequestHeaders && !SameLine(p.request, q))
            && p != Stuck
  {
    hide IndexOf, UpTo, StatusLine;
    var line := RequestLine(q);
    var input := line + CRLF + rest;
    PairAfter(line, CRLF, rest);
    RequestLineCrlf(q);
    if Contains(line, CRLF) {
      ShorterLine(q, IndexOf(line, CRLF), input);
    } else {
      assert input[..|line|] == line;
      StatusLineParts(FRESH, q);
      if StatusLine(FRESH, line).Moved? {
        StatusLineSizes(FRESH, line);
      }
    }
  }

  /** A request line that is cut short does not give back all its parts. */
  lemma ShorterLine(q: Request, i: nat, input: string)
    requires i < |RequestLine(q)| && RequestLine(q) <= input
    ensures var p := StatusLine(FRESH, input[..i]);
            p != Stuck && (p.Moved? ==> p.request.state == RequestHeaders && !SameLine(p.request, q))
  {
    if StatusLine(FRESH, input[..i]).Moved? {
      StatusLineSizes(FRESH, input[..i]);
    }
  }

  lemma HeaderLineParts(r: Request, h: Header)
    requires r.state == RequestHeaders
    ensures var p, line := HeaderLine(r, PrintHeader(h)), PrintHeader(h);
            && (HeaderPrintable(h) ==>
                  p == if |r.headers| >= HEADER_CAPACITY then Full
                       else Moved(r.(headers := r.headers + [h]), |line| + 2))
            && (NUL in h.key || NUL in h.value || Contains(h.key, ": ") ==> !p.Moved? || Misread(r, h, p.request))
  {
    hide IndexOf;
    var line := PrintHeader(h);
    PairAfter(h.key, ": ", h.value);
    if !Contains(h.key, ": ") {
      assert line[..|h.key|] == h.key && line[|h.key| + 2..] == h.value;
    }
  }

  /** A header line is cut at its first ": ", and what is stored of both sides ends at a NUL. */
  lemma HeaderIsCut(r: Request, h: Header)
    requires r.state == RequestHeaders && |r.headers| < HEADER_CAPACITY && !Contains(h.key, ": ")
    ensures HeaderLine(r, PrintHeader(h))
         == Moved(r.(headers := r.headers + [Header(UpTo(h.key, NUL), UpTo(h.value, NUL))]), |PrintHeader(h)| + 2)
  {
    hide IndexOf, UpTo;
    var line := PrintHeader(h);
    PairAfter(h.key, ": ", h.value);
    assert line[..|h.key|] == h.key && line[|h.key| + 2..] == h.value;
  }

  /** The header was taken for the end of the headers, or something else was stored in its place. */
  predicate Misread(r: Request, h: Header, q: Request) {
    || q == r.(state := RequestDone)
    || (q.state == RequestHeaders && |q.headers| > |r.headers| && q.headers[|r.headers|] != h)
  }

  lemma ShorterHeader(r: Request, h: Header, i: nat, input: string)
    requires r.state == RequestHeaders && i < |PrintHeader(h)| && PrintHeader(h) <= input
    ensures var p := HeaderLine(r, input[..i]); p != Stuck && p != Failed && (p.Moved? ==> Misread(r, h, p.request))
  {
    hide IndexOf;
  }

  lemma HeaderRoundTrip(r: Request, h: Header, rest: string)
    requires r.state == RequestHeaders
    ensures var p, line := Step(r, PrintHeader(h) + CRLF + rest), PrintHeader(h);
            && (HeaderPrintable(h) ==>
                  p == if |r.headers| >= HEADER_CAPACITY then Full
                       else Moved(r.(headers := r.headers + [h]), |line| + 2))
            && (!HeaderPrintable(h) && p.Moved? ==> Misread(r, h, p.request))
            && p != Stuck && p != Failed
  {
    hide IndexOf, UpTo;
    var line := PrintHeader(h);
    var input := line + CRLF + rest;
    PairAfter(line, CRLF, rest);
    HeaderCrlf(h);
    if Contains(line, CRLF) {
      ShorterHeader(r, h, IndexOf(line, CRLF), input);
    } else {
      assert input[..|line|] == line;
      HeaderLineParts(r, h);
    }
  }

  // ---------------------------------------------------------------------
  // The headers
  // ---------------------------------------------------------------------

  lemma EndOfHeaders(r: Request, rest: string)
    requires r.state == RequestHeaders
    ensures Parse(r, CRLF + rest) == Complete(r.(state := RequestDone), rest)
  {
    PairAfter("", CRLF, rest);
    assert "" + CRLF + rest == CRLF + rest;
    assert (CRLF + rest)[2..] == rest;
    assert (CRLF + rest)[..0] == "";
  }

  /** Any line without ": " ends the headers, and all of it but its first two bytes is left in the buffer. */
  lemma EndEatsTwo(r: Request, line: string, rest: string)
    requires r.state == RequestHeaders && !Contains(line, CRLF) && !Contains(line, ": ")
    ensures Parse(r, line + CRLF + rest) == Complete(r.(state := RequestDone), (line + CRLF + rest)[2..])
  {
    PairAfter(line, CRLF, rest);
    assert (line + CRLF + rest)[..|line|] == line;
    hide IndexOf;
    ParseStep(r, line + CRLF + rest);
  }

  /** A header without a space after its colon ends the request and is taken for the start of the next one. */
  lemma ColonWithoutSpace(r: Request, rest: string)
    requires r.state == RequestHeaders
    ensures Parse(r, "Host:localhost" + CRLF + rest) == Complete(r.(state := RequestDone), "st:localhost" + CRLF + rest)
  {
    hide Parse, Contains;
    var line := "Host:localhost";
    assert '\r' !in line && ' ' !in line;
    Lacks(line, CRLF, 0);
    Lacks(line, ": ", 1);
    EndEatsTwo(r, line, rest);
    assert line == "Ho" + "st:localhost";
    assert (line + CRLF + rest)[2..] == "st:localhost" + CRLF + rest;
  }

  /** What was parsed stays as it is while later lines are parsed. */
  lemma {:induction false} ParseKeeps(r: Request, input: string)
    requires r.state != RequestStatus && Parse(r, input).Complete?
    ensures var q := Parse(r, input).request; SameLine(q, r) && r.headers <= q.headers
    decreases |input|
  {
    if r.state == RequestHeaders {
      var p := Step(r, input);
      ParseKeeps(p.request, input[p.size..]);
    }
  }

  lemma MisreadStays(r: Request, hs: seq<Header>, q: Request, input: string)
    requires r.state == RequestHeaders && hs != [] && Misread(r, hs[0], q) && Parse(q, input).Complete?
    ensures Parse(q, input).request.headers != r.headers + hs
  {
    hide Parse;
    ParseKeeps(q, input);
    if q.state == RequestDone {
      assert |r.headers + hs| > |r.headers|;
      DoneAlready(q, input);
    } else {
      assert (r.headers + hs)[|r.headers|] == hs[0];
    }
  }

  lemma DoneAlready(q: Request, input: string)
    requires q.state == RequestDone
    ensures Parse(q, input) == Complete(q, input)
  {
  }

  lemma {:induction false} HeadersRoundTrip(r: Request, hs: seq<Header>, rest: string)
    requires r.state == RequestHeaders
    ensures var o := Parse(r, PrintHeaders(hs) + CRLF + rest);
            && ((forall h | h in hs :: HeaderPrintable(h)) && |r.headers| + |hs| <= HEADER_CAPACITY
                ==> o == Complete(r.(state := RequestDone, headers := r.headers + hs), rest))
            && (o.Complete? && o.request.headers == r.headers + hs
                ==> (forall h | h in hs :: HeaderPrintable(h)) && (hs == [] || |r.headers| + |hs| <= HEADER_CAPACITY))
    decreases |hs|
  {
    hide Step, HeaderPrintable, PrintHeader, Misread;
    if hs == [] {
      assert "" + CRLF + rest == CRLF + rest;
      EndOfHeaders(r, rest);
      assert r.headers + hs == r.headers;
    } else {
      var h, line := hs[0], PrintHeader(hs[0]);
      var tail := PrintHeaders(hs[1..]) + CRLF + rest;
      var input := PrintHeaders(hs) + CRLF + rest;
      assert input == line + CRLF + tail;
      HeaderRoundTrip(r, h, tail);
      var p := Step(r, input);
      if p.Moved? {
        if HeaderPrintable(h) {
          assert input[p.size..] == tail;
          ParseStep(r, input);
          HeadersRoundTrip(p.request, hs[1..], rest);
          assert r.headers + hs == p.request.headers + hs[1..];
        } else if Parse(p.request, input[p.size..]).Complete? {
          MisreadStays(r, hs, p.request, input[p.size..]);
        }
      }
    }
  }

  // ---------------------------------------------------------------------
  // The request
  // ---------------------------------------------------------------------

  /**
   Parsing a printed request, with anything after it, gives back its parts and eats exactly
   what was printed if and only if the request is printable.
   */
  lemma RequestRoundTrip(q: Request, rest: string)
    ensures Printable(q) ==> Parse(FRESH, Print(q) + rest) == Complete(q.(state := RequestDone), rest)
    ensures !Printable(q) ==> forall tail :: Parse(FRESH, Print(q) + rest) != Complete(q.(state := RequestDone), tail)
  {
    hide Step, Plain, HeaderPrintable;
    var line := RequestLine(q);
    var tail := PrintHeaders(q.headers) + CRLF + rest;
    var input := Print(q) + rest;
    assert input == line + CRLF + tail;
    RequestLineRoundTrip(q, tail);
    var p := Step(FRESH, input);
    if p.Moved? {
      if LinePrintable(q) {
        assert input[p.size..] == tail;
        HeadersRoundTrip(p.request, q.headers, rest);
        assert [] + q.headers == q.headers;
      } else if Parse(p.request, input[p.size..]).Complete? {
        ParseKeeps(p.request, input[p.size..]);
      }
    }
  }

  // ---------------------------------------------------------------------
  // Pipelining
  // ---------------------------------------------------------------------

  lemma {:induction false} CompleteEats(r: Request, input: string)
    requires r.state != RequestDone && Parse(r, input).Complete?
    ensures |Parse(r, input).rest| < |input|
    decreases |input|
  {
    var p := Step(r, input);
    if p.request.state != RequestDone {
      CompleteEats(p.request, input[p.size..]);
    }
  }

  /** The requests that parsing and resetting in turn recovers from a stream. */
  function ParseAll(stream: string): seq<Request>
    decreases |stream|
  {
    var o := Parse(FRESH, stream);
    if o.Complete? then
      CompleteEats(FRESH, stream);
      [o.request] + ParseAll(o.rest)
    else []
  }

  function PrintAll(qs: seq<Request>): string {
    if qs == [] then "" else Print(qs[0]) + PrintAll(qs[1..])
  }

  function Completed(qs: seq<Request>): (ps: seq<Request>)
    ensures |ps| == |qs|
  {
    if qs == [] then [] else [qs[0].(state := RequestDone)] + Completed(qs[1..])
  }

  lemma NextParsed(q: Request, tail: string)
    ensures var all, done := ParseAll(Print(q) + tail), q.(state := RequestDone);
            && (Printable(q) ==> all == [done] + ParseAll(tail))
            && (!Printable(q) ==> all == [] || all[0] != done)
  {
    hide Printable, Print, Parse;
    RequestRoundTrip(q, tail);
  }

  lemma PrefixTail(q: Request, ps: seq<Request>, qs: seq<Request>)
    ensures [q] + ps <= [q] + qs <==> ps <= qs
  {
    if [q] + ps <= [q] + qs {
      assert ps == ([q] + ps)[1..] && qs == ([q] + qs)[1..];
    }
  }

  ghost predicate AllPrintable(qs: seq<Request>) {
    forall q | q in qs :: Printable(q)
  }

  lemma AllPrintableStep(qs: seq<Request>)
    requires qs != []
    ensures AllPrintable(qs) <==> Printable(qs[0]) && AllPrintable(qs[1..])
  {
    hide Printable;
  }

  lemma PrintedStep(qs: seq<Request>, rest: string)
    requires qs != []
    ensures PrintAll(qs) + rest == Print(qs[0]) + (PrintAll(qs[1..]) + rest)
    ensures Completed(qs) == [qs[0].(state := RequestDone)] + Completed(qs[1..])
  {
    hide Print;
  }

  lemma PrintedNone(rest: string)
    ensures PrintAll([]) + rest == rest && Completed([]) == [] && AllPrintable([])
    ensures Completed([]) + ParseAll(rest) == ParseAll(rest)
  {
    hide ParseAll;
  }

  /** Parsing and resetting in turn recovers a concatenation of printed requests if and only if all are printable. */
  lemma {:induction false} PipelineRoundTrip(qs: seq<Request>, rest: string)
    ensures Completed(qs) <= ParseAll(PrintAll(qs) + rest) <==> AllPrintable(qs)
    ensures AllPrintable(qs) ==> ParseAll(PrintAll(qs) + rest) == Completed(qs) + ParseAll(rest)
    decreases |qs|
  {
    hide *;
    if qs == [] {
      PrintedNone(rest);
    } else {
      var tail, done := PrintAll(qs[1..]) + rest, qs[0].(state := RequestDone);
      AllPrintableStep(qs);
      PrintedStep(qs, rest);
      NextParsed(qs[0], tail);
      PipelineRoundTrip(qs[1..], rest);
      PrefixTail(done, Completed(qs[1..]), ParseAll(tail));
      assert [done] + Completed(qs[1..]) + ParseAll(rest) == [done] + (Completed(qs[1..]) + ParseAll(rest));
    }
  }
}
