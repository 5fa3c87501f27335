/**
The two byte streams between client and agent as values. Requests carry no identity: a response belongs
to a request only by its position, so the requests that are not yet answered form a queue, and what a
call returns is the answer to the oldest of them. The link says what a call can do, chunk by chunk and
line by line, and what follows for any sequence of calls.
*/
module SerialLink {
  import opened Sequences
  import opened Json
  import opened AgentProtocol
  import opened SerialAgent
  import opened AgentMain

  datatype Reason =
    | AgentExited | SendFailed | TooLarge | TimedOut | InvalidJson | NotAnObject | UnsupportedVersion
    | InvalidVersion | PartialWrite | InvalidData | Unexpected

  /** A value, a structured error that the agent sent, or a failure of the exchange itself. */
  datatype Answer<+T> = Got(value: T) | Rejected(response: Response) | Raised(reason: Reason)

  function RequestLine(codec: Codec, request: Request): seq<byte> {
    codec.dumps(Obj(request)) + [NEWLINE]
  }

  function RequestLines(codec: Codec, requests: seq<Request>): (r: seq<seq<byte>>)
    ensures |r| == |requests|
  {
    seq(|requests|, i requires 0 <= i < |requests| => RequestLine(codec, requests[i]))
  }

  function DecodeResponse(codec: Codec, line: seq<byte>): Answer<Response> {
    match codec.loads(line)
    case Parsed(Obj(fields)) => Got(fields)
    case Parsed(_) => Raised(NotAnObject)
    case Malformed => Raised(InvalidJson)
    case Raises => Raised(Unexpected)
  }

  /** A line as the client sends it: one newline, at the end. */
  predicate IsLine(bytes: seq<byte>) {
    bytes != [] && bytes[|bytes| - 1] == NEWLINE && NEWLINE !in bytes[..|bytes| - 1]
  }

  lemma RequestIsLine(codec: Codec, request: Request)
    requires Faithful(codec)
    ensures IsLine(RequestLine(codec, request))
  {
    var line := RequestLine(codec, request);
    assert line[..|line| - 1] == codec.dumps(Obj(request));
  }

  // ----- The link -----

  /**
  Bytes on the way in each direction, bytes that the client has received but not used, the lines that
  the agent served, the requests that the client sent and the responses that it took off the stream.
  */
  datatype Link = Link(
    toAgent: seq<byte>,
    toClient: seq<byte>,
    buffer: seq<byte>,
    history: seq<Exchange>,
    sent: seq<Request>,
    answered: seq<Response>)

  const START := Link([], [], [], [], [], [])

  /** The agent served any number of whole lines and any bytes arrived; the client did nothing. */
  ghost predicate Quiet(codec: Codec, a: Link, b: Link) {
    && a.history <= b.history && Session(codec, b.history)
    && a.sent == b.sent && a.answered == b.answered && a.buffer <= b.buffer
    && var more := b.history[|a.history|..];
      && (forall i :: 0 <= i < |more| ==> IsLine(more[i].line))
      && a.toAgent == Flatten(Lines(more)) + b.toAgent
      && a.buffer + a.toClient + Output(codec, more) == b.buffer + b.toClient
  }

  function Submitted(codec: Codec, l: Link, request: Request): Link {
    l.(toAgent := l.toAgent + RequestLine(codec, request), sent := l.sent + [request])
  }

  /** What the first line in the buffer says. */
  function FirstResponse(codec: Codec, l: Link): Answer<Response> {
    DecodeResponse(codec, l.buffer[..IndexOf(l.buffer, NEWLINE)])
  }

  function Consumed(codec: Codec, l: Link): Link
    requires NEWLINE in l.buffer
  {
    var r := FirstResponse(codec, l);
    IndexOfPresent(l.buffer, NEWLINE);
    l.(buffer := l.buffer[IndexOf(l.buffer, NEWLINE) + 1..],
       answered := if r.Got? then l.answered + [r.value] else l.answered)
  }

  /**
  How a call ends: nothing was sent; the request was sent and no response taken; a response line was
  taken; or only a part of the request was sent.
  */
  datatype Ending = Unsent | Unanswered | Took(answer: Answer<Response>) | Broken

  ghost predicate CallVia(
    codec: Codec, a: Link, request: Request, ending: Ending, b: Link, atSend: Link, atRead: Link
  ) {
    match ending
    case Broken => true
    case Unsent => Quiet(codec, a, b)
    case Unanswered => Quiet(codec, a, atSend) && Quiet(codec, Submitted(codec, atSend, request), b)
    case Took(answer) =>
      && Quiet(codec, a, atSend) && Quiet(codec, Submitted(codec, atSend, request), atRead)
      && NEWLINE in atRead.buffer
      && answer == FirstResponse(codec, atRead) && b == Consumed(codec, atRead)
  }

  /** One request call, from the link as it finds it to the link as it leaves it. */
  ghost predicate Call(codec: Codec, a: Link, request: Request, ending: Ending, b: Link) {
    exists atSend, atRead :: CallVia(codec, a, request, ending, b, atSend, atRead)
  }

  // ----- Steps of the link -----

  lemma OutputSteps(codec: Codec, history: seq<Exchange>, x: Exchange)
    ensures Output(codec, []) == []
    ensures Output(codec, history + [x])
      == Output(codec, history) + if x.outcome.Crashed? then [] else EncodeResponse(codec, x.Response())
  {
    hide EncodeResponse, Exchange.Response;
    assert (history + [x])[..|history|] == history;
  }

  lemma {:induction false} OutputConcat(codec: Codec, a: seq<Exchange>, b: seq<Exchange>)
    ensures Output(codec, a + b) == Output(codec, a) + Output(codec, b)
  {
    hide *;
    if b == [] {
      assert a + b == a;
      if a == [] {
        NoOutput(codec);
      } else {
        NoOutput(codec);
        assert Output(codec, a) + [] == Output(codec, a);
      }
    } else {
      var n := |b| - 1;
      assert b == b[..n] + [b[n]] && a + b == a + b[..n] + [b[n]];
      OutputConcat(codec, a, b[..n]);
      OutputSteps(codec, a + b[..n], b[n]);
      OutputSteps(codec, b[..n], b[n]);
    }
  }

  lemma NoOutput(codec: Codec)
    ensures Output(codec, []) == []
  {
  }

  lemma LinesConcat(a: seq<Exchange>, b: seq<Exchange>)
    ensures Lines(a + b) == Lines(a) + Lines(b)
  {
  }

  lemma QuietReflexive(codec: Codec, l: Link)
    requires Session(codec, l.history)
    ensures Quiet(codec, l, l)
  {
    hide Session;
    assert l.history[|l.history|..] == [];
  }

  lemma QuietTransitive(codec: Codec, a: Link, b: Link, c: Link)
    requires Quiet(codec, a, b) && Quiet(codec, b, c)
    ensures Quiet(codec, a, c)
  {
    hide Session, Output, Flatten, Lines, IsLine;
    var first, second := b.history[|a.history|..], c.history[|b.history|..];
    var more := c.history[|a.history|..];
    assert more == first + second;
    OutputConcat(codec, first, second);
    LinesConcat(first, second);
    FlattenConcat(Lines(first), Lines(second));
    assert a.toAgent == Flatten(Lines(more)) + c.toAgent;
    assert a.buffer + a.toClient + Output(codec, first) + Output(codec, second)
      == a.buffer + a.toClient + (Output(codec, first) + Output(codec, second));
  }

  /** The agent serves the first line on its way. */
  lemma QuietServe(codec: Codec, l: Link, line: seq<byte>, rest: seq<byte>, x: Exchange)
    requires l.toAgent == line + rest && IsLine(line) && x.line == line
    requires Session(codec, l.history + [x])
    ensures Quiet(codec, l, l.(
      toAgent := rest, toClient := l.toClient + Output(codec, [x]), history := l.history + [x]))
  {
    hide Session, Output, IsLine;
    assert (l.history + [x])[|l.history|..] == [x];
    assert Lines([x]) == [line];
    assert [line] == [line] + [];
    FlattenCons(line, []);
    FlattenNil<byte>();
    assert l.buffer + l.toClient + Output(codec, [x]) == l.buffer + (l.toClient + Output(codec, [x]));
  }

  /** Time that passes before a call is part of the call. */
  lemma QuietThenCall(codec: Codec, a: Link, b: Link, request: Request, ending: Ending, c: Link)
    requires Quiet(codec, a, b) && Call(codec, b, request, ending, c)
    ensures Call(codec, a, request, ending, c)
  {
    hide Quiet, Submitted, Consumed, FirstResponse;
    var atSend, atRead :| CallVia(codec, b, request, ending, c, atSend, atRead);
    if ending.Unsent? {
      QuietTransitive(codec, a, b, c);
    } else if !ending.Broken? {
      QuietTransitive(codec, a, b, atSend);
    }
    assert CallVia(codec, a, request, ending, c, atSend, atRead);
  }

  /** What the streams do is the same whatever the client has in its buffer and has sent. */
  lemma QuietLift(codec: Codec, a: Link, b: Link, buffer: seq<byte>, sent: seq<Request>, answered: seq<Response>)
    requires Quiet(codec, a, b) && a.buffer == b.buffer == []
    ensures Quiet(codec, a.(buffer := buffer, sent := sent, answered := answered),
      b.(buffer := buffer, sent := sent, answered := answered))
  {
    hide Session, Output, Lines, IsLine;
    var more := b.history[|a.history|..];
    assert a.toClient + Output(codec, more) == b.toClient by {
      assert a.buffer + a.toClient == a.toClient && b.buffer + b.toClient == b.toClient;
    }
    assert buffer + a.toClient + Output(codec, more) == buffer + (a.toClient + Output(codec, more));
  }

  /** A chunk arrives. */
  lemma QuietArrive(codec: Codec, l: Link, chunk: seq<byte>, rest: seq<byte>)
    requires Session(codec, l.history) && l.toClient == chunk + rest
    ensures Quiet(codec, l, l.(buffer := l.buffer + chunk, toClient := rest))
  {
    hide Session;
    assert l.history[|l.history|..] == [];
    assert l.buffer + (chunk + rest) == l.buffer + chunk + rest;
  }

  // ----- The queue of outstanding requests -----

  /**
  The agent serves the requests in the order in which they were sent, and the client takes the
  responses in that order; what is on the way is exactly the rest of either.
  */
  ghost predicate Queued(codec: Codec, l: Link) {
    && Session(codec, l.history)
    && |l.answered| <= |l.history| <= |l.sent|
    && (forall k :: 0 <= k < |l.history| ==> l.history[k].line == RequestLine(codec, l.sent[k]))
    && (forall k :: 0 <= k < |l.answered| ==> IsAnswer(l.history[k], l.answered[k]))
    && l.toAgent == Flatten(RequestLines(codec, l.sent[|l.history|..]))
    && l.buffer + l.toClient == Output(codec, l.history[|l.answered|..])
  }

  predicate IsAnswer(x: Exchange, response: Response) {
    !x.outcome.Crashed? && x.Response() == response
  }

  lemma SameFirstLine(a: seq<byte>, restA: seq<byte>, b: seq<byte>, restB: seq<byte>)
    requires IsLine(a) && IsLine(b) && a + restA == b + restB
    ensures a == b && restA == restB
  {
    var all := a + restA;
    IndexOfLine(a, restA);
    IndexOfLine(b, restB);
    assert a == all[..|a|] && b == all[..|b|] && restA == all[|a|..] && restB == all[|b|..];
  }

  lemma IndexOfLine(line: seq<byte>, rest: seq<byte>)
    requires IsLine(line)
    ensures IndexOf(line + rest, NEWLINE) == |line| - 1
  {
    forall k | 0 <= k < |line| - 1
      ensures (line + rest)[k] != NEWLINE
    {
      assert (line + rest)[k] == line[..|line| - 1][k];
    }
    IndexOfIs(line + rest, NEWLINE, |line| - 1);
  }

  /** Lines cut off the front of a stream of lines are the first of them. */
  lemma {:induction false} LinesAreFirst(lines: seq<seq<byte>>, rest: seq<byte>, queue: seq<seq<byte>>)
    requires forall i :: 0 <= i < |lines| ==> IsLine(lines[i])
    requires forall i :: 0 <= i < |queue| ==> IsLine(queue[i])
    requires Flatten(lines) + rest == Flatten(queue)
    ensures |lines| <= |queue| && lines == queue[..|lines|] && rest == Flatten(queue[|lines|..])
  {
    hide Flatten;
    FlattenNil<byte>();
    if lines == [] {
      assert queue[|lines|..] == queue;
      assert Flatten(lines) + rest == rest;
    } else {
      var line, others := lines[0], lines[1..];
      assert lines == [line] + others;
      FlattenCons(line, others);
      assert |Flatten(lines) + rest| > 0;
      assert queue != [];
      var first, later := queue[0], queue[1..];
      assert queue == [first] + later;
      FlattenCons(first, later);
      assert line + Flatten(others) + rest == line + (Flatten(others) + rest);
      SameFirstLine(line, Flatten(others) + rest, first, Flatten(later));
      LinesAreFirst(others, rest, later);
      assert later[|others|..] == queue[|lines|..];
    }
  }

  lemma QueueQuiet(codec: Codec, a: Link, b: Link)
    requires Faithful(codec) && Queued(codec, a) && Quiet(codec, a, b)
    ensures Queued(codec, b)
  {
    hide Session, Output, Flatten, IsLine, IsAnswer, RequestLine, Faithful;
    var more := b.history[|a.history|..];
    var waiting := a.sent[|a.history|..];
    forall i | 0 <= i < |waiting|
      ensures IsLine(RequestLines(codec, waiting)[i])
    {
      RequestIsLine(codec, waiting[i]);
    }
    LinesAreFirst(Lines(more), b.toAgent, RequestLines(codec, waiting));
    forall k | 0 <= k < |b.history|
      ensures b.history[k].line == RequestLine(codec, b.sent[k])
    {
      if k >= |a.history| {
        assert Lines(more)[k - |a.history|] == RequestLines(codec, waiting)[k - |a.history|];
      }
    }
    assert RequestLines(codec, waiting)[|more|..] == RequestLines(codec, b.sent[|b.history|..]);
    var n := |a.answered|;
    assert b.history[n..] == a.history[n..] + more;
    OutputConcat(codec, a.history[n..], more);
  }

  lemma QueueSubmit(codec: Codec, l: Link, request: Request)
    requires Queued(codec, l)
    ensures Queued(codec, Submitted(codec, l, request))
  {
    hide Session, Output, Flatten, IsAnswer, RequestLine;
    var waiting := l.sent[|l.history|..];
    var sent := l.sent + [request];
    assert sent[|l.history|..] == waiting + [request];
    assert RequestLines(codec, waiting + [request]) == RequestLines(codec, waiting) + [RequestLine(codec, request)];
    FlattenSnoc(RequestLines(codec, waiting), RequestLine(codec, request));
  }

  /** The first line that a queued client finds in its buffer is the response to the oldest request. */
  lemma QueueConsume(codec: Codec, l: Link)
    requires Faithful(codec) && Queued(codec, l) && NEWLINE in l.buffer
    ensures |l.answered| < |l.history| && !l.history[|l.answered|].outcome.Crashed?
    ensures FirstResponse(codec, l) == Got(l.history[|l.answered|].Response())
    ensures Queued(codec, Consumed(codec, l))
    ensures Consumed(codec, l).answered == l.answered + [l.history[|l.answered|].Response()]
  {
    hide Session, Answers, Output, Flatten, RequestLine, Exchange.Response;
    var n := |l.answered|;
    NoOutput(codec);
    assert NEWLINE in l.buffer + l.toClient;
    assert l.history[n..] != [];
    var x, rest := l.history[n], l.history[n + 1..];
    assert l.history[n..] == [x] + rest;
    OutputConcat(codec, [x], rest);
    OutputSteps(codec, [], x);
    assert [] + [x] == [x];
    if x.outcome.Crashed? {
      LastCrash(codec, l.history, n);
      assert false;
    }
    WholeResponse(codec, x.Response(), l.buffer, l.toClient, Output(codec, rest));
    var after := Consumed(codec, l);
    assert IsAnswer(x, after.answered[n]);
    assert after.history[|after.answered|..] == rest;
  }

  lemma LastCrash(codec: Codec, history: seq<Exchange>, n: nat)
    requires Session(codec, history) && n < |history|
    ensures history[n].outcome.Crashed? ==> n == |history| - 1 && history[n + 1..] == []
  {
    hide Answers;
    if n < |history| - 1 {
      assert history[n].Continues();
    }
  }

  /** However the responses were cut, the first newline in the buffer completes exactly the first one. */
  lemma WholeResponse(codec: Codec, response: Response, buffer: seq<byte>, toClient: seq<byte>, rest: seq<byte>)
    requires Faithful(codec) && NEWLINE in buffer
    requires buffer + toClient == EncodeResponse(codec, response) + rest
    ensures var i := IndexOf(buffer, NEWLINE);
      && i < |buffer| && DecodeResponse(codec, buffer[..i]) == Got(response)
      && buffer[i + 1..] + toClient == rest
  {
    FirstLine(codec.dumps(Obj(response)), buffer, toClient, rest);
  }

  lemma FirstLine(text: seq<byte>, buffer: seq<byte>, toClient: seq<byte>, rest: seq<byte>)
    requires NEWLINE in buffer && NEWLINE !in text
    requires buffer + toClient == text + [NEWLINE] + rest
    ensures IndexOf(buffer, NEWLINE) == |text| < |buffer|
    ensures buffer[..|text|] == text && buffer[|text| + 1..] + toClient == rest
  {
    IndexOfPresent(buffer, NEWLINE);
    NewlineAt(text, rest);
    var i := IndexOf(buffer, NEWLINE);
    Cut(buffer, toClient, i);
    assert forall k :: 0 <= k < i ==> (buffer + toClient)[k] == buffer[k];
    IndexOfIs(buffer + toClient, NEWLINE, i);
  }

  lemma NewlineAt(text: seq<byte>, rest: seq<byte>)
    requires NEWLINE !in text
    ensures var all := text + [NEWLINE] + rest;
      IndexOf(all, NEWLINE) == |text| && all[..|text|] == text && all[|text| + 1..] == rest
  {
    IndexOfIs(text + [NEWLINE] + rest, NEWLINE, |text|);
  }

  lemma Cut(a: seq<byte>, b: seq<byte>, i: nat)
    requires i < |a|
    ensures (a + b)[i] == a[i] && (a + b)[..i] == a[..i] && (a + b)[i + 1..] == a[i + 1..] + b
  {
  }

  /**
  Taking a response takes exactly the bytes up to the first newline, and is a response when they are the
  text of a JSON object; otherwise the line is used up all the same.
  */
  lemma TakesFirstLine(codec: Codec, l: Link)
    requires NEWLINE in l.buffer
    ensures var r, rest := FirstResponse(codec, l), Consumed(codec, l).buffer;
      exists line ::
        && NEWLINE !in line && l.buffer == line + [NEWLINE] + rest
        && (r.Got? <==> codec.loads(line).Parsed? && codec.loads(line).value.Obj?)
        && (r.Got? ==> codec.loads(line).value.fields == r.value)
        && (r == Raised(InvalidJson) <==> codec.loads(line).Malformed?)
        && (r == Raised(Unexpected) <==> codec.loads(line).Raises?)
        && (r == Raised(NotAnObject) <==> codec.loads(line).Parsed? && !codec.loads(line).value.Obj?)
        && Consumed(codec, l).answered == l.answered + if r.Got? then [r.value] else []
  {
    IndexOfPresent(l.buffer, NEWLINE);
    var line := l.buffer[..IndexOf(l.buffer, NEWLINE)];
    assert l.buffer == line + [NEWLINE] + l.buffer[|line| + 1..];
    assert l.answered + [] == l.answered;
  }

  /** Nothing is on the way when every request is answered. */
  lemma NothingOutstanding(codec: Codec, l: Link)
    requires Queued(codec, l) && |l.answered| == |l.sent|
    ensures |l.history| == |l.sent| && l.toAgent == [] && l.buffer == [] && l.toClient == []
  {
    hide Session, Answers;
    NoOutput(codec);
    FlattenNil<byte>();
    assert l.sent[|l.history|..] == [] && l.history[|l.answered|..] == [];
    assert RequestLines(codec, []) == [];
  }

  lemma StartIsQueued(codec: Codec)
    ensures Queued(codec, START)
  {
  }

  // ----- Calls -----

  /**
  A call keeps the queue. One that takes a response takes that of the oldest outstanding request,
  which leaves the queue while its own request enters it; one that only sends makes the queue longer.
  */
  lemma CallKeepsQueue(codec: Codec, a: Link, request: Request, ending: Ending, b: Link)
    requires Faithful(codec) && Queued(codec, a) && Call(codec, a, request, ending, b) && ending != Broken
    ensures Queued(codec, b) && a.history <= b.history
    ensures b.sent == if ending.Unsent? then a.sent else a.sent + [request]
    ensures ending.Took? ==>
      && |a.answered| < |b.history| && !b.history[|a.answered|].outcome.Crashed?
      && ending.answer == Got(b.history[|a.answered|].Response())
      && b.answered == a.answered + [ending.answer.value]
    ensures !ending.Took? ==> b.answered == a.answered
  {
    hide Queued, FirstResponse, Consumed, Faithful, Exchange.Response;
    var atSend, atRead :| CallVia(codec, a, request, ending, b, atSend, atRead);
    if ending.Unsent? {
      QueueQuiet(codec, a, b);
    } else {
      QueueQuiet(codec, a, atSend);
      QueueSubmit(codec, atSend, request);
      QueueQuiet(codec, Submitted(codec, atSend, request), if ending.Took? then atRead else b);
      if ending.Took? {
        QueueConsume(codec, atRead);
        ConsumedKeeps(codec, atRead);
      }
    }
  }

  lemma ConsumedKeeps(codec: Codec, l: Link)
    requires NEWLINE in l.buffer
    ensures Consumed(codec, l).sent == l.sent && Consumed(codec, l).history == l.history
  {
  }

  /** A sequence of calls on a fresh link, none of which sent only a part of its request. */
  ghost predicate Calls(codec: Codec, links: seq<Link>, requests: seq<Request>, endings: seq<Ending>) {
    && |links| == |requests| + 1 && |endings| == |requests| && links[0] == START
    && forall i :: 0 <= i < |requests| ==>
        endings[i] != Broken && Call(codec, links[i], requests[i], endings[i], links[i + 1])
  }

  /** The calls whose request was sent and that took no response: timeouts, in the main. */
  function Lost(endings: seq<Ending>): nat {
    if endings == [] then 0
    else Lost(endings[..|endings| - 1]) + if endings[|endings| - 1].Unanswered? then 1 else 0
  }

  lemma {:induction false} NothingLost(endings: seq<Ending>)
    ensures Lost(endings) == 0 <==> forall i :: 0 <= i < |endings| ==> !endings[i].Unanswered?
  {
    if endings != [] {
      NothingLost(endings[..|endings| - 1]);
    }
  }

  /** The client stays behind by one response for each lost call, and never catches up. */
  lemma {:induction false} AnswersLagBehind(
    codec: Codec, links: seq<Link>, requests: seq<Request>, endings: seq<Ending>, i: nat
  )
    requires Faithful(codec) && Calls(codec, links, requests, endings) && i <= |requests|
    ensures Queued(codec, links[i])
    ensures |links[i].sent| == |links[i].answered| + Lost(endings[..i])
  {
    hide Queued, Call, Faithful;
    if i == 0 {
      StartIsQueued(codec);
    } else {
      AnswersLagBehind(codec, links, requests, endings, i - 1);
      CallKeepsQueue(codec, links[i - 1], requests[i - 1], endings[i - 1], links[i]);
      assert endings[..i][..i - 1] == endings[..i - 1];
    }
  }

  /**
  A call that takes a response takes the answer to the request sent as many requests before its own as
  calls were lost so far. So it gets its own answer if and only if every earlier call that sent
  its request also took a response.
  */
  lemma OwnAnswerExactlyWhenNoneLost(
    codec: Codec, links: seq<Link>, requests: seq<Request>, endings: seq<Ending>, i: nat
  )
    requires Faithful(codec) && Calls(codec, links, requests, endings) && i < |requests| && endings[i].Took?
    ensures var own, k, after := |links[i].sent|, |links[i].answered|, links[i + 1];
      && k + Lost(endings[..i]) == own && own < |after.sent| && after.sent[own] == requests[i]
      && k < |after.history| && after.history[k].line == RequestLine(codec, after.sent[k])
      && Answers(codec, after.history[k]) && !after.history[k].outcome.Crashed?
      && endings[i].answer == Got(after.history[k].Response())
      && (k == own <==> forall j :: 0 <= j < i ==> !endings[j].Unanswered?)
  {
    hide Call, Faithful, Answers, Exchange.Response, Output;
    AnswersLagBehind(codec, links, requests, endings, i);
    CallKeepsQueue(codec, links[i], requests[i], endings[i], links[i + 1]);
    NothingLost(endings[..i]);
    assert forall j :: 0 <= j < i ==> endings[..i][j] == endings[j];
  }

  // ----- A late answer -----

  function HelloRequest(): Request { map["version" := Int(1), "operation" := Str("hello")] }
  function ResetRequest(): Request { map["version" := Int(1), "operation" := Str("reset_input")] }

  const GREETING: Response := Success(map["agent_version" := Str(AGENT_VERSION)])

  function HelloExchange(codec: Codec): Exchange {
    Exchange(RequestLine(codec, HelloRequest()), false, Reply(GREETING, false), NO_EFFECT, false)
  }

  lemma HelloIsAnswered(codec: Codec)
    requires Faithful(codec) && |RequestLine(codec, HelloRequest())| <= MAX_JSON_LINE_BYTES
    ensures Session(codec, [HelloExchange(codec)])
  {
    assert DecodeRequest(codec, RequestLine(codec, HelloRequest())) == Result.Ok(HelloRequest());
    assert ValidateEnvelope(HelloRequest()) == Result.Ok("hello");
  }

  /** An exchange in which the agent answers a reset while no device is open. */
  predicate MayAnswerReset(codec: Codec, x: Exchange) {
    Answers(codec, x) && !x.before && !x.outcome.Crashed? && x.line == RequestLine(codec, ResetRequest())
  }

  /** Without a device a reset is never answered like a hello. */
  lemma ResetIsNoGreeting(codec: Codec, x: Exchange)
    requires Faithful(codec) && MayAnswerReset(codec, x)
    ensures x.Response() != GREETING
  {
    assert DecodeRequest(codec, RequestLine(codec, ResetRequest())) == Result.Ok(ResetRequest());
    assert ValidateEnvelope(ResetRequest()) == Result.Ok("reset_input");
    assert Validate(ResetRequest(), false) == Result.Err(NOT_OPEN);
    assert Get(GREETING, "ok") == Bool(true);
    assert Get(x.Response(), "ok") == Bool(false);
  }

  /**
  A hello times out before the agent gets to it, and then a reset without a device returns normally
  with the late greeting, which no reset without a device can have for an answer.
  */
  lemma LateAnswerIsTaken(codec: Codec)
    requires Faithful(codec) && |RequestLine(codec, HelloRequest())| <= MAX_JSON_LINE_BYTES
    ensures exists links ::
      Calls(codec, links, [HelloRequest(), ResetRequest()], [Unanswered, Took(Got(GREETING))])
    ensures forall x :: MayAnswerReset(codec, x) ==> x.Response() != GREETING
  {
    forall x | MayAnswerReset(codec, x)
      ensures x.Response() != GREETING
    {
      ResetIsNoGreeting(codec, x);
    }
    LateRun(codec);
  }

  /** The hello was sent and nothing happened; then the reset was sent as well. */
  function BothSent(codec: Codec): Link {
    Submitted(codec, Submitted(codec, START, HelloRequest()), ResetRequest())
  }

  /** The agent got to the hello, and its answer arrived. */
  function GreetingArrived(codec: Codec): Link {
    BothSent(codec).(
      toAgent := RequestLine(codec, ResetRequest()),
      buffer := EncodeResponse(codec, GREETING),
      history := [HelloExchange(codec)])
  }

  lemma GreetingArrives(codec: Codec)
    requires Faithful(codec) && |RequestLine(codec, HelloRequest())| <= MAX_JSON_LINE_BYTES
    ensures Quiet(codec, BothSent(codec), GreetingArrived(codec))
  {
    hide Session, Output, IsLine, RequestLine, HelloRequest, ResetRequest, EncodeResponse, Quiet, Submitted;
    var both, x, text := BothSent(codec), HelloExchange(codec), EncodeResponse(codec, GREETING);
    HelloIsAnswered(codec);
    RequestIsLine(codec, HelloRequest());
    BothAre(codec);
    assert both.history + [x] == [x];
    QuietServe(codec, both, RequestLine(codec, HelloRequest()), RequestLine(codec, ResetRequest()), x);
    OutputSteps(codec, [], x);
    assert [] + [x] == [x] && [] + text == text && text + [] == text;
    var served := both.(toAgent := RequestLine(codec, ResetRequest()), toClient := text, history := [x]);
    QuietArrive(codec, served, text, []);
    QuietTransitive(codec, both, served, GreetingArrived(codec));
  }

  lemma BothAre(codec: Codec)
    ensures BothSent(codec) == Link(
      RequestLine(codec, HelloRequest()) + RequestLine(codec, ResetRequest()), [], [], [],
      [HelloRequest(), ResetRequest()], [])
  {
    hide RequestLine;
    assert [] + RequestLine(codec, HelloRequest()) == RequestLine(codec, HelloRequest());
  }

  lemma GreetingIsFirst(codec: Codec)
    requires Faithful(codec)
    ensures var l := GreetingArrived(codec);
      NEWLINE in l.buffer && FirstResponse(codec, l) == Got(GREETING)
  {
    hide EncodeResponse;
    var text := EncodeResponse(codec, GREETING);
    EndsInNewline(codec, GREETING);
    assert text + [] == text;
    WholeResponse(codec, GREETING, text, [], []);
  }

  lemma LateRun(codec: Codec)
    requires Faithful(codec) && |RequestLine(codec, HelloRequest())| <= MAX_JSON_LINE_BYTES
    ensures exists links ::
      Calls(codec, links, [HelloRequest(), ResetRequest()], [Unanswered, Took(Got(GREETING))])
  {
    hide Session, RequestLine, HelloRequest, ResetRequest, Quiet, FirstResponse, Consumed, GreetingArrived, Submitted;
    var hello, reset := HelloRequest(), ResetRequest();
    var waiting, atRead := Submitted(codec, START, hello), GreetingArrived(codec);
    NoSession(codec);
    QuietReflexive(codec, START);
    SubmittedKeeps(codec, START, hello);
    QuietReflexive(codec, waiting);
    assert CallVia(codec, START, hello, Unanswered, waiting, START, START);
    GreetingArrives(codec);
    GreetingIsFirst(codec);
    var last := Consumed(codec, atRead);
    assert CallVia(codec, waiting, reset, Took(Got(GREETING)), last, waiting, atRead);
    var links := [START, waiting, last];
    var requests, endings := [hello, reset], [Unanswered, Took(Got(GREETING))];
    forall i | 0 <= i < 2
      ensures endings[i] != Broken && Call(codec, links[i], requests[i], endings[i], links[i + 1])
    {
      assert i == 0 || i == 1;
    }
    assert Calls(codec, links, requests, endings);
  }

  lemma SubmittedKeeps(codec: Codec, l: Link, request: Request)
    ensures Submitted(codec, l, request).history == l.history
  {
  }

  lemma EndsInNewline(codec: Codec, response: Response)
    ensures NEWLINE in EncodeResponse(codec, response)
  {
    assert EncodeResponse(codec, response)[|codec.dumps(Obj(response))|] == NEWLINE;
  }

  lemma NoSession(codec: Codec)
    ensures Session(codec, [])
  {
  }
}
