/**
 The request parser of lib_http.c: a loop driven by the state of the request that eats
 one line of the input buffer at a time.
 */
module HttpRequest {
  import opened Text

  datatype State = RequestStatus | RequestHeaders | RequestDone

  datatype Header = Header(key: string, value: string)

  datatype Request = Request(state: State, verb: string, url: string, version: string, headers: seq<Header>)

  const FRESH := Request(RequestStatus, "", "", "", [])

  /**
   The entries that the header array has room for. The program allocates 128 times the size of
   a request record, which is three times the size of a header on 32-bit and 64-bit machines.
   */
  const HEADER_CAPACITY := 3 * 128

  /** The next multiple of `a`, where a compiler puts a member that needs that alignment. */
  function Aligned(n: nat, a: nat): nat
    requires a > 0
  {
    if n % a == 0 then n else n + a - n % a
  }

  /** A request record: three pointers, an int, a pointer and an int, for pointers of `w` bytes. */
  function RecordSize(w: nat): nat
    requires w > 0
  {
    Aligned(Aligned(3 * w + 4, w) + w + 4, w)
  }

  /** The bytes that the program allocates are the room of that many headers of two pointers. */
  lemma CapacityIsRoom(w: nat)
    requires w == 4 || w == 8
    ensures RecordSize(w) * 128 == HEADER_CAPACITY * (2 * w)
  {
  }

  /**
   One pass through the body of the parse loop. Stuck: no CRLF is buffered and nothing
   changes. Failed: the request line has too few spaces, an assertion of the program.
   Full: the line would be stored behind the end of the header array.
   */
  datatype Progress =
    | Moved(request: Request, size: nat)
    | Stuck
    | Failed
    | Full

  /** The request line cut at its first two spaces. */
  datatype Words = Words(verb: string, url: string, version: string) | TooFew

  function Cut(line: string): Words {
    match SplitAtSpace(line)
    case NoSpace => TooFew
    case Split(verb, tail) =>
      match SplitAtSpace(tail)
      case NoSpace => TooFew
      case Split(url, version) => Words(UpTo(verb, NUL), UpTo(url, NUL), UpTo(version, NUL))
  }

  datatype Split = Split(word: string, tail: string) | NoSpace

  function SplitAtSpace(line: string): Split {
    var i := IndexOf(line, " ");
    if i < 0 then NoSpace else Split(line[..i], line[i + 1..])
  }

  /** A word in front of a space is split off whole, unless it holds a space itself. */
  lemma FirstWord(line: string, word: string, tail: string)
    requires line == word + " " + tail
    ensures ' ' !in word ==> SplitAtSpace(line) == Split(word, tail)
    ensures ' ' in word ==> SplitAtSpace(line).Split? && |SplitAtSpace(line).word| < |word|
  {
    hide IndexOf;
    SeparatorAfter(word, ' ', tail);
    assert line[..|word|] == word && line[|word| + 1..] == tail;
  }

  /** What is split off holds no space, and with the space and the tail it makes the line. */
  lemma SplitExactly(line: string)
    ensures match SplitAtSpace(line)
            case NoSpace => ' ' !in line
            case Split(word, tail) => line == word + " " + tail && ' ' !in word
  {
    hide IndexOf;
    forall k | 0 <= k < |line| && line[k] == ' '
      ensures At(line, " ", k)
    {
    }
    var i := IndexOf(line, " ");
    if i >= 0 {
      AtStarts(line, " ", i);
    }
  }

  function Spaces(line: string): nat {
    if line == "" then 0 else (if line[0] == ' ' then 1 else 0) + Spaces(line[1..])
  }

  lemma {:induction false} SpacesAfter(word: string, tail: string)
    requires ' ' !in word
    ensures Spaces(word + tail) == Spaces(tail)
    decreases |word|
  {
    if word == "" {
      assert word + tail == tail;
    } else {
      assert (word + tail)[1..] == word[1..] + tail;
      SpacesAfter(word[1..], tail);
    }
  }

  lemma SpacesSplit(line: string)
    ensures Spaces(line) == match SplitAtSpace(line) case NoSpace => 0 case Split(_, tail) => 1 + Spaces(tail)
  {
    hide SplitAtSpace;
    SplitExactly(line);
    match SplitAtSpace(line)
    case NoSpace =>
      SpacesAfter(line, "");
      assert line + "" == line;
    case Split(word, tail) =>
      assert line == word + (" " + tail) && (" " + tail)[1..] == tail;
      SpacesAfter(word, " " + tail);
  }

  /** The line is these three parts, cut at its first two spaces. */
  predicate CutAs(line: string, verb: string, url: string, version: string) {
    line == verb + " " + (url + " " + version) && ' ' !in verb && ' ' !in url
  }

  lemma CutParts(line: string, verb: string, url: string, version: string)
    requires CutAs(line, verb, url, version)
    ensures Cut(line) == Words(UpTo(verb, NUL), UpTo(url, NUL), UpTo(version, NUL))
  {
    hide SplitAtSpace, UpTo;
    FirstWord(line, verb, url + " " + version);
    FirstWord(url + " " + version, url, version);
  }

  /** A line has its three words unless it has fewer than two spaces. */
  lemma CutExactly(line: string)
    ensures Cut(line).TooFew? <==> Spaces(line) < 2
    ensures Spaces(line) >= 2 <==> exists verb, url, version :: CutAs(line, verb, url, version)
  {
    hide SplitAtSpace, UpTo, Spaces;
    forall v, u, w | CutAs(line, v, u, w)
      ensures !Cut(line).TooFew?
    {
      CutParts(line, v, u, w);
    }
    SplitExactly(line);
    SpacesSplit(line);
    match SplitAtSpace(line)
    case NoSpace =>
    case Split(verb, tail) =>
      SplitExactly(tail);
      SpacesSplit(tail);
      match SplitAtSpace(tail)
      case NoSpace =>
      case Split(url, version) => assert CutAs(line, verb, url, version);
  }

  /** However the line is cut at its first two spaces, the words are those parts, each up to a NUL. */
  ghost predicate IsCutOf(words: Words, line: string) {
    forall verb, url, version :: CutAs(line, verb, url, version) ==>
      words == Words(UpTo(verb, NUL), UpTo(url, NUL), UpTo(version, NUL))
  }

  lemma CutMeans(line: string)
    ensures Cut(line).TooFew? <==> Spaces(line) < 2
    ensures IsCutOf(Cut(line), line)
  {
    CutExactly(line);
    forall v, u, w | CutAs(line, v, u, w)
      ensures Cut(line) == Words(UpTo(v, NUL), UpTo(u, NUL), UpTo(w, NUL))
    {
      CutParts(line, v, u, w);
    }
  }

  function StatusLine(r: Request, line: string): (p: Progress)
    ensures p.Moved? || p.Failed?
  {
    match Cut(line)
    case TooFew => Failed
    case Words(verb, url, version) =>
      Moved(r.(state := RequestHeaders, verb := verb, url := url, version := version), |line| + 2)
  }

  /** A line without ": " ends the headers, whatever it holds, and only two bytes of it are eaten. */
  function HeaderLine(r: Request, line: string): (p: Progress)
    ensures p.Moved? ==> p.size <= |line| + 2
  {
    var i := IndexOf(line, ": ");
    if i < 0 then Moved(r.(state := RequestDone), 2)
    else if |r.headers| >= HEADER_CAPACITY then Full
    else Moved(r.(headers := r.headers + [Header(UpTo(line[..i], NUL), UpTo(line[i + 2..], NUL))]), |line| + 2)
  }

  function Step(r: Request, input: string): (p: Progress)
    requires r.state != RequestDone
    ensures p.Moved? ==> 2 <= p.size <= |input|
  {
    var i := IndexOf(input, CRLF);
    if i < 0 then Stuck
    else if r.state == RequestStatus then StatusLine(r, input[..i])
    else HeaderLine(r, input[..i])
  }

  /** How the loop ends: with a request, spinning over what is buffered, or broken. */
  datatype Outcome =
    | Complete(request: Request, rest: string)
    | Waiting(request: Request, rest: string)
    | Aborted
    | Overfull

  function Parse(r: Request, input: string): (o: Outcome)
    ensures o.Complete? ==> o.request.state == RequestDone && |o.rest| <= |input|
    ensures o.Waiting? ==> o.request.state != RequestDone && Step(o.request, o.rest) == Stuck
    decreases |input|
  {
    if r.state == RequestDone then Complete(r, input)
    else match Step(r, input)
      case Moved(q, n) => Parse(q, input[n..])
      case Stuck => Waiting(r, input)
      case Failed => Aborted
      case Full => Overfull
  }

  // ---------------------------------------------------------------------
  // More input
  // ---------------------------------------------------------------------

  lemma StepAppend(r: Request, input: string, more: string)
    requires r.state != RequestDone && Step(r, input) != Stuck
    ensures Step(r, input + more) == Step(r, input)
  {
    IndexOfAppend(input, more, CRLF);
    var i := IndexOf(input, CRLF);
    assert (input + more)[..i] == input[..i];
  }

  /** Parsing can be interrupted anywhere and resumed when more input is there. */
  lemma {:induction false} ParseAppend(r: Request, input: string, more: string)
    ensures Parse(r, input + more)
         == match Parse(r, input)
            case Complete(q, rest) => Complete(q, rest + more)
            case Waiting(q, rest) => Parse(q, rest + more)
            case Aborted => Aborted
            case Overfull => Overfull
    decreases |input|
  {
    hide Step;
    if r.state != RequestDone && Step(r, input) != Stuck {
      StepAppend(r, input, more);
      if Step(r, input).Moved? {
        var n := Step(r, input).size;
        assert (input + more)[n..] == input[n..] + more;
        ParseAppend(Step(r, input).request, input[n..], more);
      }
    }
  }

  /** The parse loop and its input buffer, where bytes may arrive between two passes. */
  datatype Machine = Machine(request: Request, buffer: string) | Broken(outcome: Outcome)

  datatype LoopEvent = Arrive(bytes: string) | Pass

  function Do(m: Machine, e: LoopEvent): Machine {
    match m
    case Broken(_) => m
    case Machine(r, buffer) =>
      match e
      case Arrive(bytes) => Machine(r, buffer + bytes)
      case Pass =>
        if r.state == RequestDone then m
        else match Step(r, buffer)
          case Moved(q, n) => Machine(q, buffer[n..])
          case Stuck => m
          case Failed => Broken(Aborted)
          case Full => Broken(Overfull)
  }

  function DoAll(m: Machine, es: seq<LoopEvent>): Machine
    decreases |es|
  {
    if es == [] then m else DoAll(Do(m, es[0]), es[1..])
  }

  function Arrivals(es: seq<LoopEvent>): string {
    if es == [] then ""
    else (match es[0] case Arrive(bytes) => bytes case Pass => "") + Arrivals(es[1..])
  }

  /** What the loop makes of the machine's buffer followed by the given input. */
  function Finish(m: Machine, input: string): Outcome {
    match m
    case Broken(o) => o
    case Machine(r, buffer) => Parse(r, buffer + input)
  }

  predicate Sound(m: Machine) {
    m.Broken? ==> m.outcome == Aborted || m.outcome == Overfull
  }

  /**
   The outcome depends on the bytes that arrive, not on when they arrive between the
   passes of the loop.
   */
  lemma {:induction false} ArrivalOrderIrrelevant(m: Machine, es: seq<LoopEvent>, later: string)
    requires Sound(m)
    ensures Sound(DoAll(m, es))
    ensures Finish(DoAll(m, es), later) == Finish(m, Arrivals(es) + later)
    decreases |es|
  {
    hide Step, Do, Finish, Sound;
    if es == [] {
      assert "" + later == later;
    } else {
      var tail := Arrivals(es[1..]) + later;
      EventKeepsOutcome(m, es[0], tail);
      ArrivalOrderIrrelevant(Do(m, es[0]), es[1..], later);
      assert [es[0]][1..] == [];
      assert Arrivals(es) + later == Arrivals([es[0]]) + tail;
    }
  }

  lemma EventKeepsOutcome(m: Machine, e: LoopEvent, tail: string)
    requires Sound(m)
    ensures Sound(Do(m, e)) && Finish(Do(m, e), tail) == Finish(m, Arrivals([e]) + tail)
  {
    hide Step;
    assert [e][1..] == [];
    if m.Machine? {
      match e
      case Arrive(bytes) =>
        assert Arrivals([e]) == bytes + "" == bytes;
        assert m.buffer + bytes + tail == m.buffer + (bytes + tail);
      case Pass =>
        assert Arrivals([e]) == "" + "" == "";
        assert "" + tail == tail;
        PassKeepsOutcome(m.request, m.buffer, tail);
    }
  }

  lemma PassKeepsOutcome(r: Request, buffer: string, tail: string)
    ensures Finish(Do(Machine(r, buffer), Pass), tail) == Parse(r, buffer + tail)
  {
    hide Step;
    if r.state != RequestDone && Step(r, buffer) != Stuck {
      StepAppend(r, buffer, tail);
      if Step(r, buffer).Moved? {
        var n := Step(r, buffer).size;
        assert (buffer + tail)[n..] == buffer[n..] + tail;
      }
    }
  }

  /** Two schedules that deliver the same bytes and both finish agree on the request and on what is left. */
  lemma SameRequest(es: seq<LoopEvent>, fs: seq<LoopEvent>)
    requires Arrivals(es) == Arrivals(fs)
    requires var m, n := DoAll(Machine(FRESH, ""), es), DoAll(Machine(FRESH, ""), fs);
             && m.Machine? && m.request.state == RequestDone
             && n.Machine? && n.request.state == RequestDone
    ensures DoAll(Machine(FRESH, ""), es) == DoAll(Machine(FRESH, ""), fs)
  {
    var m, n := DoAll(Machine(FRESH, ""), es), DoAll(Machine(FRESH, ""), fs);
    ArrivalOrderIrrelevant(Machine(FRESH, ""), es, "");
    ArrivalOrderIrrelevant(Machine(FRESH, ""), fs, "");
    assert m.buffer + "" == m.buffer && n.buffer + "" == n.buffer;
  }

  // ---------------------------------------------------------------------
  // When the loop ends
  // ---------------------------------------------------------------------

  function Passes(m: Machine, n: nat): Machine
    decreases n
  {
    if n == 0 then m else Passes(Do(m, Pass), n - 1)
  }

  predicate Ended(m: Machine) {
    m.Broken? || m.request.state == RequestDone
  }

  /** Enough passes of the loop body to reach the outcome. */
  lemma {:induction false} PassesReach(r: Request, buffer: string) returns (n: nat)
    ensures var o, m := Parse(r, buffer), Passes(Machine(r, buffer), n);
            match o
            case Complete(q, rest) => m == Machine(q, rest)
            case Waiting(q, rest) => m == Machine(q, rest)
            case _ => m == Broken(o)
    decreases |buffer|
  {
    n := 0;
    if r.state != RequestDone && Step(r, buffer) != Stuck {
      var m := Do(Machine(r, buffer), Pass);
      if m.Machine? {
        n := PassesReach(m.request, m.buffer);
      }
      n := n + 1;
      assert Passes(Machine(r, buffer), n) == Passes(m, n - 1);
    }
  }

  lemma {:induction false} WaitingForever(r: Request, buffer: string, n: nat)
    requires Parse(r, buffer).Waiting?
    ensures !Ended(Passes(Machine(r, buffer), n))
    decreases n
  {
    if n > 0 {
      var m := Do(Machine(r, buffer), Pass);
      assert Passes(Machine(r, buffer), n) == Passes(m, n - 1);
      WaitingForever(m.request, m.buffer, n - 1);
    }
  }

  /** The lines that a CRLF ends. */
  function LinesOf(s: string): seq<string>
    decreases |s|
  {
    var i := IndexOf(s, CRLF);
    if i < 0 then [] else [s[..i]] + LinesOf(s[i + 2..])
  }

  /** Some line is not a header. */
  ghost predicate HasEnd(lines: seq<string>) {
    exists k :: 0 <= k < |lines| && !Contains(lines[k], ": ")
  }

  /** The header lines come to an end, or overflow the array. */
  ghost predicate HeadersStop(stored: nat, lines: seq<string>) {
    HasEnd(lines) || stored + |lines| > HEADER_CAPACITY
  }

  /** The lines in the buffer are enough to stop the loop. */
  ghost predicate LinesSuffice(r: Request, buffer: string) {
    var lines := LinesOf(buffer);
    match r.state
    case RequestStatus => lines != [] && (Spaces(lines[0]) < 2 || HeadersStop(|r.headers|, lines[1..]))
    case RequestHeaders => HeadersStop(|r.headers|, lines)
    case RequestDone => true
  }

  lemma HasEndStep(lines: seq<string>)
    requires lines != []
    ensures HasEnd(lines) <==> !Contains(lines[0], ": ") || HasEnd(lines[1..])
  {
    if k :| 0 <= k < |lines[1..]| && !Contains(lines[1..][k], ": ") {
      assert lines[k + 1] == lines[1..][k];
    }
    if k :| 0 <= k < |lines| && !Contains(lines[k], ": ") {
      assert k > 0 ==> lines[1..][k - 1] == lines[k];
    }
  }

  lemma HeaderPass(r: Request, s: string)
    requires r.state == RequestHeaders
    ensures var p, i := Step(r, s), IndexOf(s, CRLF);
            if i < 0 then p == Stuck
            else if !Contains(s[..i], ": ") then p == Moved(r.(state := RequestDone), 2)
            else if |r.headers| >= HEADER_CAPACITY then p == Full
            else
              p.Moved? && p.size == i + 2 && p.request.state == RequestHeaders
              && |p.request.headers| == |r.headers| + 1
  {
    hide IndexOf, UpTo;
  }

  lemma ParseStep(r: Request, s: string)
    requires r.state != RequestDone
    ensures var p := Step(r, s);
            && (p.Stuck? ==> Parse(r, s) == Waiting(r, s))
            && (p.Failed? ==> Parse(r, s) == Aborted)
            && (p.Full? ==> Parse(r, s) == Overfull)
            && (p.Moved? ==> Parse(r, s) == Parse(p.request, s[p.size..]))
            && (p.Moved? && p.request.state == RequestDone ==> Parse(r, s) == Complete(p.request, s[p.size..]))
  {
    hide Step;
  }

  lemma LinesStep(s: string)
    ensures var i, lines := IndexOf(s, CRLF), LinesOf(s);
            if i < 0 then lines == []
            else lines != [] && lines[0] == s[..i] && lines[1..] == LinesOf(s[i + 2..])
  {
    hide IndexOf;
  }

  lemma {:induction false} HeadersWait(r: Request, s: string)
    requires r.state == RequestHeaders && |r.headers| <= HEADER_CAPACITY
    ensures Parse(r, s).Waiting? <==> !HeadersStop(|r.headers|, LinesOf(s))
    decreases |s|
  {
    hide *;
    ParseStep(r, s);
    LinesStep(s);
    HeaderPass(r, s);
    StopStep(|r.headers|, LinesOf(s));
    var i, p := IndexOf(s, CRLF), Step(r, s);
    if p.Moved? && p.request.state == RequestHeaders {
      HeadersWait(p.request, s[i + 2..]);
    }
  }

  lemma StopStep(stored: nat, lines: seq<string>)
    requires stored <= HEADER_CAPACITY
    ensures HeadersStop(stored, lines)
       <==> lines != []
            && (!Contains(lines[0], ": ") || stored == HEADER_CAPACITY || HeadersStop(stored + 1, lines[1..]))
  {
    if lines != [] {
      HasEndStep(lines);
    }
  }

  /** The bytes on which parsing is left waiting. */
  lemma WaitsExactly(r: Request, s: string)
    requires |r.headers| <= HEADER_CAPACITY
    ensures Parse(r, s).Waiting? <==> !LinesSuffice(r, s)
  {
    hide IndexOf, UpTo, Cut, HeadersStop, Spaces;
    if r.state == RequestHeaders {
      HeadersWait(r, s);
    } else if r.state == RequestStatus && IndexOf(s, CRLF) >= 0 {
      var i := IndexOf(s, CRLF);
      CutExactly(s[..i]);
      var p := Step(r, s);
      if p.Moved? {
        HeadersWait(p.request, s[i + 2..]);
      }
    }
  }

  /**
   The loop ends on its input if and only if the lines in it suffice: a request line with too
   few spaces, a later line without ": ", or more header lines than the array has room for.
   */
  lemma LoopEndsExactly(r: Request, buffer: string)
    requires |r.headers| <= HEADER_CAPACITY
    ensures (exists n: nat :: Ended(Passes(Machine(r, buffer), n))) <==> LinesSuffice(r, buffer)
  {
    hide LinesSuffice;
    WaitsExactly(r, buffer);
    if Parse(r, buffer).Waiting? {
      forall n: nat
        ensures !Ended(Passes(Machine(r, buffer), n))
      {
        WaitingForever(r, buffer, n);
      }
    } else {
      var n := PassesReach(r, buffer);
      assert Ended(Passes(Machine(r, buffer), n));
    }
  }

  lemma NoLines(s: string)
    requires '\r' !in s
    ensures LinesOf(s) == []
  {
    var i := IndexOf(s, CRLF);
    if i >= 0 {
      AtStarts(s, CRLF, i);
    }
  }

  /** A request line whose end has not arrived yet: the loop spins on it. */
  lemma SpinsWithoutCrlf(n: nat)
    ensures !Ended(Passes(Machine(FRESH, "GET / HTTP/1.1"), n))
  {
    hide Passes, Parse;
    NoLines("GET / HTTP/1.1");
    WaitsExactly(FRESH, "GET / HTTP/1.1");
    WaitingForever(FRESH, "GET / HTTP/1.1", n);
  }
}
