/**
 The response encoder of lib_http.c, and a client that splits the byte stream again by the
 rules of sections 6.2 and 6.3 of RFC 9112.
 */
module HttpResponse {
  import opened Decimals
  import opened Options
  import opened Text
  import opened HttpRequest
  import opened HttpRequestLaws

  /** What buffer_append_string adds; a NULL pointer is None. */
  function Appended(text: Option<string>): string {
    if text == None then "" else text.value
  }

  /** keepConnected is the program's name for the flag that asks to close. */
  datatype Response = Response(
    code: nat, message: Option<string>, keepConnected: bool, headers: seq<Header>, body: Option<string>)

  /** The encoder measures the body when it writes a Content-Length. */
  predicate Encodable(r: Response) {
    r.keepConnected || r.body.Some?
  }

  /** snprintf into the 32-byte scratch array. */
  function Scratch(s: string): string {
    if |s| <= 31 then s else s[..31]
  }

  function StatusText(r: Response): string {
    Scratch("HTTP/1.1 " + Decimal(r.code) + " ") + Appended(r.message)
  }

  const LENGTH_NAME := "Content-Length:"

  function ConnectionText(r: Response): string
    requires Encodable(r)
  {
    if r.keepConnected then "Connection: close" + CRLF
    else Scratch(LENGTH_NAME + Decimal(|r.body.value|) + CRLF) + ("Connection: Keep-Alive" + CRLF)
  }

  function Encode(r: Response): string
    requires Encodable(r)
  {
    StatusText(r) + CRLF + ConnectionText(r) + PrintHeaders(r.headers) + CRLF + Appended(r.body)
  }

  // ---------------------------------------------------------------------
  // The lines of the head
  // ---------------------------------------------------------------------

  function JoinLines(ls: seq<string>): string {
    if ls == [] then "" else ls[0] + CRLF + JoinLines(ls[1..])
  }

  predicate IsLine(s: string) {
    s != "" && !Contains(s, CRLF)
  }

  function HeaderLines(hs: seq<Header>): (ls: seq<string>)
    ensures |ls| == |hs|
  {
    if hs == [] then [] else [PrintHeader(hs[0])] + HeaderLines(hs[1..])
  }

  function ConnectionLines(r: Response): seq<string>
    requires Encodable(r)
  {
    if r.keepConnected then ["Connection: close"]
    else [LENGTH_NAME + Decimal(|r.body.value|), "Connection: Keep-Alive"]
  }

  function Lines(r: Response): seq<string>
    requires Encodable(r)
  {
    [StatusText(r)] + ConnectionLines(r) + HeaderLines(r.headers)
  }

  predicate HeaderClean(h: Header) {
    !Contains(h.key, CRLF) && !Contains(h.value, CRLF)
  }

  /** No text that the caller supplies holds a CRLF. */
  predicate CrlfFree(r: Response) {
    && !Contains(Appended(r.message), CRLF)
    && forall k :: 0 <= k < |r.headers| ==> HeaderClean(r.headers[k])
  }

  /** The scratch array has room for the length of the body: fewer than 10^14 bytes. */
  predicate LengthFits(r: Response) {
    r.keepConnected || (r.body.Some? && |Decimal(|r.body.value|)| <= 14)
  }

  lemma {:induction false} JoinAppend(a: seq<string>, b: seq<string>)
    ensures JoinLines(a + b) == JoinLines(a) + JoinLines(b)
  {
    if a == [] {
      assert a + b == b;
    } else {
      assert (a + b)[1..] == a[1..] + b;
      JoinAppend(a[1..], b);
    }
  }

  lemma {:induction false} HeaderLinesJoin(hs: seq<Header>)
    ensures JoinLines(HeaderLines(hs)) == PrintHeaders(hs)
    ensures (forall k :: 0 <= k < |hs| ==> HeaderClean(hs[k]))
        ==> forall k :: 0 <= k < |hs| ==> IsLine(HeaderLines(hs)[k])
  {
    if hs != [] {
      HeaderLinesJoin(hs[1..]);
      HeaderCrlf(hs[0]);
    }
  }

  predicate NoReturn(s: string) {
    forall k :: 0 <= k < |s| ==> s[k] != '\r'
  }

  lemma NoCarriageReturn(s: string)
    requires NoReturn(s)
    ensures !Contains(s, CRLF)
  {
    var i := IndexOf(s, CRLF);
    if i >= 0 {
      AtStarts(s, CRLF, i);
    }
  }

  lemma StatusTextIsLine(r: Response)
    requires !Contains(Appended(r.message), CRLF)
    ensures IsLine(StatusText(r)) && StatusText(r)[0] == 'H'
  {
    hide Contains, Decimal;
    var start := Scratch("HTTP/1.1 " + Decimal(r.code) + " ");
    assert NoReturn(start);
    NoCarriageReturn(start);
    CrlfJoin(start, Appended(r.message));
  }

  /** Two texts without CRLF make one without, when the first has no CR at all. */
  lemma CrlfJoin(a: string, b: string)
    requires NoReturn(a) && !Contains(b, CRLF)
    ensures !Contains(a + b, CRLF)
  {
    var i := IndexOf(a + b, CRLF);
    if i >= |a| {
      AtSuffix(a, b, CRLF, i);
    } else if i >= 0 {
      AtStarts(a + b, CRLF, i);
    }
  }

  lemma LengthLineIsLine(n: nat)
    ensures IsLine(LENGTH_NAME + Decimal(n))
  {
    NoCarriageReturn(LENGTH_NAME + Decimal(n));
  }

  /** The encoding is the lines of the head, an empty line and the body. */
  lemma EncodeLines(r: Response)
    requires Encodable(r) && LengthFits(r)
    ensures Encode(r) == JoinLines(Lines(r)) + CRLF + Appended(r.body)
  {
    hide StatusText, ConnectionText, ConnectionLines, HeaderLines, PrintHeaders, LengthFits;
    HeaderLinesJoin(r.headers);
    JoinConnection(r);
    JoinAppend([StatusText(r)] + ConnectionLines(r), HeaderLines(r.headers));
    JoinAppend([StatusText(r)], ConnectionLines(r));
    JoinOne(StatusText(r));
  }

  lemma JoinOne(l: string)
    ensures JoinLines([l]) == l + CRLF
  {
    assert [l][1..] == [];
    assert l + CRLF + "" == l + CRLF;
  }

  lemma JoinConnection(r: Response)
    requires Encodable(r) && LengthFits(r)
    ensures JoinLines(ConnectionLines(r)) == ConnectionText(r)
  {
    hide Decimal;
    var ls := ConnectionLines(r);
    JoinOne("Connection: close");
    JoinOne("Connection: Keep-Alive");
    assert ls[1..] == if r.keepConnected then [] else ["Connection: Keep-Alive"];
  }

  lemma LinesAreLines(r: Response)
    requires Encodable(r) && CrlfFree(r)
    ensures forall k :: 0 <= k < |Lines(r)| ==> IsLine(Lines(r)[k])
  {
    hide Decimal, Contains, StatusText;
    HeaderLinesJoin(r.headers);
    StatusTextIsLine(r);
    NoCarriageReturn("Connection: close");
    NoCarriageReturn("Connection: Keep-Alive");
    if !r.keepConnected {
      LengthLineIsLine(|r.body.value|);
    }
  }

  // ---------------------------------------------------------------------
  // Framing
  // ---------------------------------------------------------------------

  const BLANK_LINE := "\r\n\r\n"

  lemma BlankHasCrlf(s: string, j: nat)
    requires At(s, BLANK_LINE, j)
    ensures At(s, CRLF, j) && At(s, CRLF, j + 2)
  {
    assert s[j..j + 2] == s[j..j + 4][..2];
    assert s[j + 2..j + 4] == s[j..j + 4][2..];
  }

  lemma BlankAfterLine(l: string, tail: string, j: nat)
    requires IsLine(l) && At(l + CRLF + tail, BLANK_LINE, j)
    ensures j >= |l|
  {
    hide IndexOf;
    PairAfter(l, CRLF, tail);
    BlankHasCrlf(l + CRLF + tail, j);
  }

  lemma LineFirst(l: string, tail: string)
    requires IsLine(l)
    ensures !At(l + CRLF + tail, CRLF, 0)
  {
    hide IndexOf;
    PairAfter(l, CRLF, tail);
  }

  /** No blank line starts before the last line of the head has ended. */
  lemma {:induction false} NoEarlyBlankLine(ls: seq<string>, body: string, j: nat)
    requires ls != [] && forall k :: 0 <= k < |ls| ==> IsLine(ls[k])
    requires At(JoinLines(ls) + CRLF + body, BLANK_LINE, j)
    ensures j >= |JoinLines(ls)| - 2
    decreases |ls|
  {
    hide At, IsLine;
    var l, tail := ls[0], JoinLines(ls[1..]) + CRLF + body;
    assert JoinLines(ls) + CRLF + body == l + CRLF + tail;
    BlankAfterLine(l, tail, j);
    if |ls| > 1 {
      var more := JoinLines(ls[1..][1..]) + CRLF + body;
      assert tail == ls[1] + CRLF + more;
      LineFirst(ls[1], more);
      AfterFirstLine(l, tail, j);
      NoEarlyBlankLine(ls[1..], body, j - |l| - 2);
    }
  }

  lemma AfterFirstLine(l: string, tail: string, j: nat)
    requires At(l + CRLF + tail, BLANK_LINE, j) && j >= |l|
    ensures j == |l| ==> At(tail, CRLF, 0)
    ensures j != |l| + 1
    ensures j >= |l| + 2 ==> At(tail, BLANK_LINE, j - |l| - 2)
  {
    var s := l + CRLF + tail;
    assert s[j..j + 4][0] == s[j] && s[|l| + 1] == '\n';
    if j == |l| {
      assert tail[..2] == s[j..j + 4][2..];
    } else if j >= |l| + 2 {
      assert tail[j - |l| - 2..j - |l| + 2] == s[j..j + 4];
    }
  }

  lemma HeadEnds(ls: seq<string>, body: string)
    requires ls != [] && forall k :: 0 <= k < |ls| ==> IsLine(ls[k])
    ensures var s, n := JoinLines(ls) + CRLF + body, |JoinLines(ls)|;
            n >= 2 && IndexOf(s, BLANK_LINE) == n - 2 && s[n + 2..] == body
  {
    var s, n := JoinLines(ls) + CRLF + body, |JoinLines(ls)|;
    EndsWithCrlf(ls);
    assert s[n - 2..n + 2] == JoinLines(ls)[n - 2..] + CRLF;
    assert At(s, BLANK_LINE, n - 2);
    NoEarlyBlankLine(ls, body, IndexOf(s, BLANK_LINE));
  }

  lemma {:induction false} EndsWithCrlf(ls: seq<string>)
    requires ls != []
    ensures var n := |JoinLines(ls)|; n >= 2 && JoinLines(ls)[n - 2..] == CRLF
  {
    if ls[1..] == [] {
      assert JoinLines(ls) == ls[0] + CRLF;
    } else {
      EndsWithCrlf(ls[1..]);
    }
  }

  /** The first blank line of the output ends the head, and what follows it is exactly the body. */
  lemma ResponseFraming(r: Response)
    requires Encodable(r) && LengthFits(r) && CrlfFree(r)
    ensures var n := |JoinLines(Lines(r))|;
            && n >= 2 && IndexOf(Encode(r), BLANK_LINE) == n - 2
            && Encode(r)[..n] == JoinLines(Lines(r)) && Encode(r)[n + 2..] == Appended(r.body)
  {
    hide IndexOf, Lines, JoinLines, IsLine, Encode;
    EncodeLines(r);
    LinesAreLines(r);
    SplitHead(r);
    HeadEnds(Lines(r), Appended(r.body));
  }

  lemma SplitHead(r: Response)
    requires Encodable(r)
    ensures Lines(r) != []
    ensures var s := JoinLines(Lines(r)) + CRLF + Appended(r.body);
            s[..|JoinLines(Lines(r))|] == JoinLines(Lines(r))
  {
  }

  // ---------------------------------------------------------------------
  // A client on the stream
  // ---------------------------------------------------------------------

  /** The first line of a response as a client takes it apart (section 4 of RFC 9112). */
  datatype Status = Status(version: string, code: nat, message: string) | BadStatus

  function ReadStatus(stream: string): Status {
    var i := IndexOf(stream, CRLF);
    if i < 0 then BadStatus
    else match SplitAtSpace(stream[..i])
      case NoSpace => BadStatus
      case Split(version, tail) =>
        match SplitAtSpace(tail)
        case NoSpace => BadStatus
        case Split(code, message) =>
          if code != "" && AllDigits(code) then Status(version, ParseDecimal(code), message) else BadStatus
  }

  lemma NoSpaceInDecimal(n: nat)
    ensures ' ' !in Decimal(n)
  {
  }

  lemma ReadWords(line: string, version: string, code: string, message: string, tail: string)
    requires line == version + " " + (code + " " + message) && !Contains(line, CRLF)
    requires ' ' !in version && ' ' !in code && code != "" && AllDigits(code)
    ensures ReadStatus(line + CRLF + tail) == Status(version, ParseDecimal(code), message)
  {
    hide ParseDecimal, IndexOf, SplitAtSpace, AllDigits;
    PairAfter(line, CRLF, tail);
    assert (line + CRLF + tail)[..|line|] == line;
    FirstWord(line, version, code + " " + message);
    FirstWord(code + " " + message, code, message);
  }

  /** A client reads the version, the code and the message, for a code of up to 21 digits. */
  lemma StatusLineRoundTrip(r: Response, tail: string)
    requires !Contains(Appended(r.message), CRLF) && |Decimal(r.code)| <= 21
    ensures ReadStatus(StatusText(r) + CRLF + tail) == Status("HTTP/1.1", r.code, Appended(r.message))
  {
    hide Decimal, ParseDecimal, ReadStatus;
    var code, message := Decimal(r.code), Appended(r.message);
    assert StatusText(r) == "HTTP/1.1 " + code + " " + message;
    assert "HTTP/1.1 " + code + " " + message == "HTTP/1.1" + " " + (code + " " + message);
    StatusTextIsLine(r);
    hide StatusText;
    NoSpaceInDecimal(r.code);
    DecimalRoundTrip(r.code);
    ReadWords(StatusText(r), "HTTP/1.1", code, message, tail);
  }

  lemma StatusRoundTrip(r: Response, rest: string)
    requires Encodable(r) && !Contains(Appended(r.message), CRLF) && |Decimal(r.code)| <= 21
    ensures ReadStatus(Encode(r) + rest) == Status("HTTP/1.1", r.code, Appended(r.message))
  {
    hide Decimal, StatusText, ReadStatus, ConnectionText, PrintHeaders;
    var tail := ConnectionText(r) + PrintHeaders(r.headers) + CRLF + Appended(r.body) + rest;
    assert Encode(r) + rest == StatusText(r) + CRLF + tail;
    StatusLineRoundTrip(r, tail);
  }

  lemma {:induction false} LinesComeBack(ls: seq<string>)
    requires forall k :: 0 <= k < |ls| ==> IsLine(ls[k])
    ensures LinesOf(JoinLines(ls)) == ls
    decreases |ls|
  {
    hide IndexOf;
    if ls == [] {
      assert IndexOf("", CRLF) < 0;
    } else {
      var l, tail := ls[0], JoinLines(ls[1..]);
      PairAfter(l, CRLF, tail);
      assert JoinLines(ls)[..|l|] == l && JoinLines(ls)[|l| + 2..] == tail;
      LinesComeBack(ls[1..]);
    }
  }

  /**
   What the lines of a head tell a client: whether the server asks to close, otherwise that it
   keeps the connection and how long the body is, and then the headers in order.
   */
  lemma HeadTells(r: Response)
    requires Encodable(r) && CrlfFree(r)
    ensures var ls, n := LinesOf(JoinLines(Lines(r))), if r.keepConnected then 2 else 3;
            && |ls| == n + |r.headers| && ls[0] == StatusText(r)
            && (r.keepConnected ==> ls[1] == "Connection: close")
            && (!r.keepConnected ==>
                  && ls[1] == "Content-Length:" + Decimal(|r.body.value|)
                  && ls[2] == "Connection: Keep-Alive")
            && forall k :: 0 <= k < |r.headers| ==> ls[n + k] == r.headers[k].key + ": " + r.headers[k].value
  {
    hide Decimal, StatusText;
    LinesAreLines(r);
    LinesComeBack(Lines(r));
    HeaderLinesAre(r.headers);
  }

  lemma {:induction false} HeaderLinesAre(hs: seq<Header>)
    ensures forall k :: 0 <= k < |hs| ==> HeaderLines(hs)[k] == hs[k].key + ": " + hs[k].value
  {
    if hs != [] {
      HeaderLinesAre(hs[1..]);
    }
  }

  datatype Framed = Framed(head: string, body: string, rest: string) | Unframed

  /** The value of the first Content-Length line of a head. */
  function DeclaredLength(head: string): int
    decreases |head|
  {
    var i := IndexOf(head, CRLF);
    if i < 0 then -1
    else
      var line := head[..i];
      if LENGTH_NAME <= line then
        var digits := line[|LENGTH_NAME|..];
        if digits != "" && AllDigits(digits) then ParseDecimal(digits) else -1
      else DeclaredLength(head[i + 2..])
  }

  /** One response: the head up to the first blank line, then as many bytes as it declares. */
  function ReadResponse(stream: string): (f: Framed)
    ensures f.Framed? ==> |f.rest| < |stream|
  {
    var i := IndexOf(stream, BLANK_LINE);
    if i < 0 then Unframed
    else
      var head, after := stream[..i + 2], stream[i + 4..];
      var n := DeclaredLength(head);
      if n < 0 || n > |after| then Unframed else Framed(head, after[..n], after[n..])
  }

  function ReadAll(stream: string): seq<(string, string)>
    decreases |stream|
  {
    var f := ReadResponse(stream);
    if f.Framed? then [(f.head, f.body)] + ReadAll(f.rest) else []
  }

  lemma LengthLineFirst(n: nat, tail: string)
    ensures DeclaredLength(LENGTH_NAME + Decimal(n) + CRLF + tail) == n
  {
    hide Decimal, ParseDecimal, IndexOf;
    var line := LENGTH_NAME + Decimal(n);
    var head := line + CRLF + tail;
    LengthLineIsLine(n);
    PairAfter(line, CRLF, tail);
    assert head[..|line|] == line && line[|LENGTH_NAME|..] == Decimal(n);
    assert LENGTH_NAME <= line;
    DecimalRoundTrip(n);
  }

  lemma OtherLineSkipped(status: string, tail: string)
    requires IsLine(status) && status[0] == 'H'
    ensures DeclaredLength(status + CRLF + tail) == DeclaredLength(tail)
  {
    hide Decimal, ParseDecimal, IndexOf;
    var head := status + CRLF + tail;
    PairAfter(status, CRLF, tail);
    assert head[..|status|] == status && head[|status| + 2..] == tail;
    assert LENGTH_NAME[0] == 'C';
  }

  predicate KeepsAlive(r: Response) {
    !r.keepConnected && Encodable(r) && LengthFits(r) && CrlfFree(r)
  }

  lemma HeadDeclaresLength(r: Response)
    requires KeepsAlive(r)
    ensures DeclaredLength(JoinLines(Lines(r))) == |r.body.value|
  {
    hide Decimal, DeclaredLength, StatusText, HeaderLines;
    var ls := Lines(r);
    StatusTextIsLine(r);
    var tail := JoinLines(ls[1..][1..]);
    LengthLineFirst(|r.body.value|, tail);
    OtherLineSkipped(StatusText(r), ls[1] + CRLF + tail);
    assert ls[1] == LENGTH_NAME + Decimal(|r.body.value|);
    assert JoinLines(ls) == ls[0] + CRLF + (ls[1] + CRLF + tail);
  }

  /** A keep-alive response is cut out of the stream whole, whatever follows it. */
  lemma ResponseRoundTrip(r: Response, rest: string)
    requires KeepsAlive(r)
    ensures ReadResponse(Encode(r) + rest) == Framed(JoinLines(Lines(r)), r.body.value, rest)
  {
    EncodeLines(r);
    LinesAreLines(r);
    HeadEnds(Lines(r), r.body.value + rest);
    HeadDeclaresLength(r);
    CutOut(Encode(r) + rest, JoinLines(Lines(r)), r.body.value, rest);
  }

  lemma CutOut(stream: string, head: string, body: string, rest: string)
    requires stream == head + CRLF + body + rest && |head| >= 2
    requires IndexOf(head + CRLF + (body + rest), BLANK_LINE) == |head| - 2
    requires DeclaredLength(head) == |body|
    ensures ReadResponse(stream) == Framed(head, body, rest)
  {
    hide IndexOf, DeclaredLength;
    assert stream == head + CRLF + (body + rest);
    var i := IndexOf(stream, BLANK_LINE);
    assert stream[..i + 2] == head && stream[i + 4..] == body + rest;
    assert (body + rest)[..|body|] == body && (body + rest)[|body|..] == rest;
  }

  /**
   The bound on the length is needed: the line of a longer one is cut off, end of line
   included, and no reading of the stream yields the head that was meant.
   */
  lemma LengthMustFit(r: Response, rest: string)
    requires Encodable(r) && !LengthFits(r)
    ensures ReadResponse(Encode(r) + rest) != Framed(JoinLines(Lines(r)), r.body.value, rest)
  {
    var meant, stream, k := JoinLines(Lines(r)), Encode(r) + rest, |StatusText(r) + CRLF| + 31;
    LengthLineHasNoC(|r.body.value|);
    MeantHead(r);
    SentHead(r, rest);
    hide Decimal, StatusText, IndexOf, DeclaredLength, JoinLines, Lines, Encode, LengthFits;
    assert meant[k] != stream[k];
  }

  function LengthLine(n: nat): string {
    LENGTH_NAME + Decimal(n) + CRLF
  }

  lemma MeantHead(r: Response)
    requires !r.keepConnected && Encodable(r)
    ensures StatusText(r) + CRLF + LengthLine(|r.body.value|) <= JoinLines(Lines(r))
  {
    hide Decimal, StatusText, HeaderLines;
    var ls := Lines(r);
    assert ls[0] == StatusText(r) && ls[1] == LENGTH_NAME + Decimal(|r.body.value|);
    var later := JoinLines(ls[1..][1..]);
    assert ls[1..][0] == ls[1];
    assert JoinLines(ls[1..]) == ls[1] + CRLF + later;
    assert JoinLines(ls) == ls[0] + CRLF + (ls[1] + CRLF + later);
  }

  lemma SentHead(r: Response, rest: string)
    requires !r.keepConnected && Encodable(r) && |LengthLine(|r.body.value|)| > 31
    ensures var start := StatusText(r) + CRLF; |Encode(r)| > |start| + 31 && (Encode(r) + rest)[|start| + 31] == 'C'
  {
    hide Decimal, StatusText, PrintHeaders;
    var line := LengthLine(|r.body.value|)[..31];
    var start := StatusText(r) + CRLF;
    var tail := CRLF + PrintHeaders(r.headers) + CRLF + Appended(r.body);
    assert Encode(r) == start + line + "Connection: Keep-Alive" + tail;
  }

  lemma LengthLineHasNoC(n: nat)
    requires |Decimal(n)| > 14
    ensures |LengthLine(n)| > 31 && LengthLine(n)[31] != 'C'
  {
  }

  predicate AllEncodable(rs: seq<Response>) {
    forall k :: 0 <= k < |rs| ==> Encodable(rs[k])
  }

  function EncodeAll(rs: seq<Response>): string
    requires AllEncodable(rs)
  {
    if rs == [] then "" else Encode(rs[0]) + EncodeAll(rs[1..])
  }

  predicate AllKeepAlive(rs: seq<Response>)
    ensures AllKeepAlive(rs) ==> AllEncodable(rs)
  {
    forall k :: 0 <= k < |rs| ==> KeepsAlive(rs[k])
  }

  function Messages(rs: seq<Response>): seq<(string, string)>
    requires AllKeepAlive(rs)
  {
    if rs == [] then [] else [(JoinLines(Lines(rs[0])), rs[0].body.value)] + Messages(rs[1..])
  }

  lemma ReadStep(r: Response, tail: string)
    requires KeepsAlive(r)
    ensures ReadAll(Encode(r) + tail) == [(JoinLines(Lines(r)), r.body.value)] + ReadAll(tail)
  {
    ResponseRoundTrip(r, tail);
  }

  /** Keep-alive responses sent one after another split into their heads and bodies. */
  lemma {:induction false} StreamSplits(rs: seq<Response>, rest: string)
    requires AllKeepAlive(rs)
    ensures ReadAll(EncodeAll(rs) + rest) == Messages(rs) + ReadAll(rest)
    decreases |rs|
  {
    hide ReadAll, Encode, Lines, JoinLines, KeepsAlive;
    if rs == [] {
      assert "" + rest == rest;
    } else {
      var tail := EncodeAll(rs[1..]) + rest;
      assert EncodeAll(rs) + rest == Encode(rs[0]) + tail;
      ReadStep(rs[0], tail);
      StreamSplits(rs[1..], rest);
    }
  }
}
