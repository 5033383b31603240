/** Safety of a connection over every interleaving of its events. */
module ConnectionSafety {
  import opened Wrappers
  import opened Utf8
  import opened Text
  import opened Request
  import opened Response
  import opened ServerReader
  import opened Connection

  /** When the event loop can deliver an event; a closed transport delivers no more data. */
  predicate Enabled(c: Conn, e: Event) {
    match e
    case Data(data, _) => data != [] && c.connected && !c.closing
    case MiddlewareDone(_, _) => c.admissions > 0
    case HandlerDone(_) => c.replies > 0
    case Timeout => c.timerArmed
    case Lost => c.connected
  }

  function Step(parse: LineParser, middleware: bool, c: Conn, e: Event): Conn
    requires Enabled(c, e)
  {
    match e
    case Data(data, call) => DataReceived(parse, middleware, c, data, call)
    case MiddlewareDone(admission, call) => MiddlewareResult(c, admission, call)
    case HandlerDone(completion) => HandlerResult(c, completion)
    case Timeout => HandleTimeout(c)
    case Lost => ConnectionLost(c)
  }

  /** The state after a run, if every event was enabled when it came. */
  function Run(parse: LineParser, middleware: bool, events: seq<Event>): Option<Conn> {
    if events == [] then Some(OPENED)
    else
      match Run(parse, middleware, events[..|events| - 1])
      case None => None
      case Some(c) =>
        var e := events[|events| - 1];
        if Enabled(c, e) then Some(Step(parse, middleware, c, e)) else None
  }

  /** The bytes a run delivered. */
  function Stream(events: seq<Event>): seq<byte> {
    if events == [] then []
    else
      var e := events[|events| - 1];
      Stream(events[..|events| - 1]) + (if e.Data? then e.data else [])
  }

  function Writes(log: seq<Effect>): nat {
    if log == [] then 0 else Writes(log[..|log| - 1]) + Bit(log[|log| - 1].Write?)
  }

  function Handles(log: seq<Effect>): nat {
    if log == [] then 0 else Handles(log[..|log| - 1]) + Bit(log[|log| - 1].Handle?)
  }

  lemma Appended(log: seq<Effect>, e: Effect)
    ensures Writes(log + [e]) == Writes(log) + Bit(e.Write?)
    ensures Handles(log + [e]) == Handles(log) + Bit(e.Handle?)
  {
    assert (log + [e])[..|log|] == log;
  }

  /** The reader may still hand a request on. */
  predicate Undecided(r: Reader) {
    if !r.headerReceived then !r.awaitingBody
    else r.awaitingBody && r.request.Some? && |r.buffer| < r.request.value.contentLength
  }

  predicate Live(c: Conn) {
    c.connected && !c.closing && Undecided(c.reader)
  }

  /** Nothing is written before the first byte or after a loss, nothing handled after a write. */
  ghost predicate Ordered(log: seq<Effect>) {
    && (forall j | 0 <= j < |log| && log[j].Write? :: exists i | 0 <= i < j :: log[i].Received?)
    && (forall i, j | 0 <= i < j < |log| && log[i].Disconnected? :: !log[j].Write?)
    && (forall i, j | 0 <= i < j < |log| && log[i].Write? :: !log[j].Handle? && !log[j].Write?)
  }

  /**
   One response is owed for a connection that has sent a byte: it is either still to be decided, or
   with a task, or in hand, or written. One handler call is likewise to be decided, in admission,
   in hand, or made.
   */
  ghost predicate Ledger(c: Conn, response: nat, call: nat) {
    && Bit(Live(c)) + c.admissions + c.replies + response + Writes(c.log) <= 1
    && (c.connected && (c.firstByte || !c.closing) ==>
          Bit(Live(c)) + c.admissions + c.replies + response + Writes(c.log) == 1)
    && Bit(Live(c)) + c.admissions + call + Handles(c.log) <= 1
    && (c.timerArmed && c.connected && !c.closing ==> Undecided(c.reader))
    && (c.admissions + c.replies + response > 0 ==> c.firstByte)
    && (c.admissions > 0 ==> c.reader.request.Some?)
    && (c.firstByte ==> Received in c.log)
    && (c.connected ==> Disconnected !in c.log)
    && Ordered(c.log)
  }

  lemma OrderedAppend(log: seq<Effect>, e: Effect)
    requires Ordered(log)
    requires e.Write? ==> Received in log && Disconnected !in log && Writes(log) == 0
    requires e.Handle? ==> Writes(log) == 0
    ensures Ordered(log + [e])
  {
    forall i | 0 <= i < |log| && log[i].Write?
      ensures Writes(log) > 0
    {
      WriteCounted(log, i);
    }
    var after := log + [e];
    forall j | 0 <= j < |after| && after[j].Write?
      ensures exists i | 0 <= i < j :: after[i].Received?
    {
      if j < |log| {
        var i :| 0 <= i < j && log[i].Received?;
        assert after[i].Received?;
      } else {
        var i :| 0 <= i < |log| && log[i] == Received;
        assert after[i].Received?;
      }
    }
    forall i, j | 0 <= i < j < |after| && after[i].Disconnected?
      ensures !after[j].Write?
    {
      if j == |log| { assert log[i] in log; }
    }
  }

  lemma {:induction false} WriteCounted(log: seq<Effect>, i: nat)
    requires i < |log| && log[i].Write?
    ensures Writes(log) > 0
  {
    if i < |log| - 1 { WriteCounted(log[..|log| - 1], i); }
  }

  lemma {:induction false} HandleCounted(log: seq<Effect>, i: nat)
    requires i < |log| && log[i].Handle?
    ensures Handles(log) > 0
  {
    if i < |log| - 1 { HandleCounted(log[..|log| - 1], i); }
  }

  lemma SendLedger(c: Conn, r: Response)
    requires Ledger(c.(closing := true), 1, 0)
    ensures Ledger(SendResponse(c, r), 0, 0)
  {
    if c.connected {
      Appended(c.log, Write(r));
      Appended(c.log + [Write(r)], Close);
      OrderedAppend(c.log, Write(r));
      OrderedAppend(c.log + [Write(r)], Close);
    }
  }

  lemma RouteLedger(c: Conn, call: HandlerCall)
    requires Ledger(c, 1, 1) && c.reader.request.Some?
    ensures Ledger(RouteRequest(c, call), 0, 0)
  {
    var called := c.(log := c.log + [Handle(c.reader.request.value)]);
    Appended(c.log, Handle(c.reader.request.value));
    OrderedAppend(c.log, Handle(c.reader.request.value));
    match call
    case Returns(r) => SendLedger(called, r);
    case Raises(text) => SendLedger(called, Response(40, "Server error: " + text));
    case Suspends =>
  }

  lemma ProcessLedger(middleware: bool, c: Conn, call: HandlerCall)
    requires Ledger(c, 1, 1) && c.reader.request.Some?
    ensures Ledger(ProcessRequest(middleware, c, call), 0, 0)
  {
    if middleware {
      Appended(c.log, Admit(c.reader.request.value));
      OrderedAppend(c.log, Admit(c.reader.request.value));
    } else {
      RouteLedger(c, call);
    }
  }

  /** What a delivery does to a reader that has not decided yet. */
  lemma FeedUndecided(parse: LineParser, r: Reader, data: seq<byte>)
    requires Undecided(r)
    ensures var (next, verdict) := Feed(parse, r, data);
            && (verdict.Wait? ==> Undecided(next))
            && (verdict.Process? ==>
                  !Undecided(next) && next.headerReceived && next.request == Some(verdict.request))
  {
  }

  lemma ActLedger(middleware: bool, c: Conn, v: Verdict, call: HandlerCall)
    requires v.Wait? ==> Ledger(c, 0, 0)
    requires v.Reject? ==> Ledger(c.(closing := true), 1, 0)
    requires v.Process? ==> Ledger(c.(timerArmed := false), 1, 1) && c.reader.request.Some?
    ensures Ledger(Act(middleware, c, v, call), 0, 0)
  {
    match v
    case Wait =>
    case Reject(meta) => SendLedger(c, Response(59, meta));
    case Process(_) => ProcessLedger(middleware, c.(timerArmed := false), call);
  }

  /** A delivery moves the owed response from "to be decided" into hand when the reader decides. */
  lemma FedLedger(c: Conn, next: Reader, v: Verdict)
    requires Ledger(c, 0, 0) && c.connected && !c.closing
    requires v.Wait? ==> Undecided(next) == Undecided(c.reader) && (c.admissions > 0 ==> next.request.Some?)
    requires v.Process? ==> Undecided(c.reader) && !Undecided(next) && next.request.Some?
    requires v.Reject? ==> Undecided(c.reader)
    ensures var fed := c.(reader := next, firstByte := true, log := c.log + [Received]);
            && (v.Wait? ==> Ledger(fed, 0, 0))
            && (v.Reject? ==> Ledger(fed.(closing := true), 1, 0))
            && (v.Process? ==> Ledger(fed.(timerArmed := false), 1, 1))
  {
    Appended(c.log, Received);
    OrderedAppend(c.log, Received);
  }

  lemma DataLedger(parse: LineParser, middleware: bool, c: Conn, data: seq<byte>, call: HandlerCall)
    requires Ledger(c, 0, 0) && Enabled(c, Data(data, call))
    requires var (next, verdict) := Feed(parse, c.reader, data);
             Undecided(c.reader) || (verdict.Wait? && !Undecided(next) && next.request == c.reader.request)
    ensures Ledger(DataReceived(parse, middleware, c, data, call), 0, 0)
  {
    var (next, v) := Feed(parse, c.reader, data);
    if Undecided(c.reader) { FeedUndecided(parse, c.reader, data); }
    FedLedger(c, next, v);
    ActLedger(middleware, c.(reader := next, firstByte := true, log := c.log + [Received]), v, call);
  }

  lemma MiddlewareLedger(c: Conn, admission: Admission, call: HandlerCall)
    requires Ledger(c, 0, 0) && c.admissions > 0
    ensures Ledger(MiddlewareResult(c, admission, call), 0, 0)
  {
    var done := c.(admissions := c.admissions - 1);
    assert Ledger(done, 1, 1);
    match admission
    case Allowed => RouteLedger(done, call);
    case Denied(reason, retryAfter) => SendLedger(done, DenialResponse(reason, retryAfter));
    case Broken(_) => SendLedger(done, Response(40, "Middleware error"));
  }

  lemma HandlerLedger(c: Conn, completion: Completion)
    requires Ledger(c, 0, 0) && c.replies > 0
    ensures Ledger(HandlerResult(c, completion), 0, 0)
  {
    var done := c.(replies := c.replies - 1);
    assert Ledger(done, 1, 0);
    match completion
    case Completed(r) => SendLedger(done, r);
    case Crashed(text) => SendLedger(done, Response(40, "Server error: " + text));
  }

  lemma TimeoutLedger(c: Conn)
    requires Ledger(c, 0, 0) && c.timerArmed
    ensures Ledger(HandleTimeout(c), 0, 0)
  {
    if c.connected && !c.closing {
      if c.firstByte {
        SendLedger(c.(timerArmed := false), Response(59, "Request timeout"));
      } else {
        Appended(c.log, Close);
        OrderedAppend(c.log, Close);
      }
    }
  }

  lemma LostLedger(c: Conn)
    requires Ledger(c, 0, 0) && c.connected
    ensures Ledger(ConnectionLost(c), 0, 0)
  {
    Appended(c.log, Disconnected);
    OrderedAppend(c.log, Disconnected);
  }

  lemma TaskLedger(parse: LineParser, middleware: bool, c: Conn, e: Event)
    requires Ledger(c, 0, 0) && Enabled(c, e) && !e.Data?
    ensures Ledger(Step(parse, middleware, c, e), 0, 0)
  {
    match e
    case MiddlewareDone(admission, call) => MiddlewareLedger(c, admission, call);
    case HandlerDone(completion) => HandlerLedger(c, completion);
    case Timeout => TimeoutLedger(c);
    case Lost => LostLedger(c);
  }

  /** Every handler call in the log is on the request of `verdict`. */
  ghost predicate HandlesOnly(log: seq<Effect>, verdict: Verdict) {
    forall i | 0 <= i < |log| && log[i].Handle? :: verdict == Process(log[i].request)
  }

  /** The connection agrees with a reader state and a verdict. */
  ghost predicate Agrees(c: Conn, state: Reader, v: Verdict) {
    && (Live(c) ==> v.Wait? && c.reader == state)
    && (c.connected && !c.closing && !Undecided(c.reader) ==>
          v.Process? && c.reader.headerReceived && c.reader.awaitingBody == state.awaitingBody)
    && (c.admissions > 0 ==> v.Process? && c.reader.request == Some(v.request))
    && HandlesOnly(c.log, v)
  }

  /** The machine agrees with the one-shot reading of the bytes `w` received so far. */
  ghost predicate Faithful(parse: LineParser, c: Conn, w: seq<byte>) {
    Agrees(c, StateAfter(parse, w), OneShot(parse, w))
  }

  lemma SendHandlesOnly(c: Conn, r: Response, v: Verdict)
    requires HandlesOnly(c.log, v)
    ensures HandlesOnly(SendResponse(c, r).log, v)
  {
  }

  lemma RouteHandlesOnly(c: Conn, call: HandlerCall, v: Verdict)
    requires HandlesOnly(c.log, v) && (c.reader.request.Some? ==> v == Process(c.reader.request.value))
    ensures HandlesOnly(RouteRequest(c, call).log, v)
  {
    if c.reader.request.Some? {
      var called := c.(log := c.log + [Handle(c.reader.request.value)]);
      match call
      case Returns(r) => SendHandlesOnly(called, r, v);
      case Raises(text) => SendHandlesOnly(called, Response(40, "Server error: " + text), v);
      case Suspends =>
    }
  }

  lemma ActHandlesOnly(middleware: bool, c: Conn, v: Verdict, call: HandlerCall)
    requires HandlesOnly(c.log, v)
    requires v.Process? ==> c.reader.request == Some(v.request)
    ensures HandlesOnly(Act(middleware, c, v, call).log, v)
  {
    match v
    case Wait =>
    case Reject(meta) => SendHandlesOnly(c, Response(59, meta), v);
    case Process(_) =>
      if !middleware { RouteHandlesOnly(c.(timerArmed := false), call, v); }
  }

  /** Acting on a verdict never touches the reader. */
  lemma ActKeepsReader(middleware: bool, c: Conn, v: Verdict, call: HandlerCall)
    ensures var next := Act(middleware, c, v, call);
            && next.reader == c.reader && next.connected == c.connected
            && (v.Reject? && c.connected ==> next.closing)
            && (v.Wait? ==> next == c)
            && (!v.Process? ==> next.admissions == c.admissions)
  {
  }

  lemma ActAgrees(middleware: bool, c: Conn, v: Verdict, call: HandlerCall)
    requires Live(c) || !Undecided(c.reader)
    requires c.connected && HandlesOnly(c.log, Wait) && c.admissions == 0
    requires v.Wait? ==> Undecided(c.reader)
    requires v.Process? ==> !Undecided(c.reader) && c.reader.headerReceived && c.reader.request == Some(v.request)
    ensures Agrees(Act(middleware, c, v, call), c.reader, v)
  {
    ActHandlesOnly(middleware, c, v, call);
    ActKeepsReader(middleware, c, v, call);
  }

  lemma NothingHandled(log: seq<Effect>)
    requires Handles(log) == 0
    ensures HandlesOnly(log + [Received], Wait)
  {
    forall i | 0 <= i < |log| ensures !log[i].Handle? {
      if log[i].Handle? { HandleCounted(log, i); }
    }
  }

  lemma LiveDataFaithful(parse: LineParser, middleware: bool, c: Conn, w: seq<byte>, data: seq<byte>, call: HandlerCall)
    requires Live(c) && c.admissions == 0 && Handles(c.log) == 0
    requires OneShot(parse, w).Wait? && c.reader == StateAfter(parse, w)
    ensures var next := DataReceived(parse, middleware, c, data, call);
            Agrees(next, StateAfter(parse, w + data), OneShot(parse, w + data))
  {
    FeedComposes(parse, w, data);
    FeedUndecided(parse, c.reader, data);
    var (reader, v) := Feed(parse, c.reader, data);
    NothingHandled(c.log);
    ActAgrees(middleware, c.(reader := reader, firstByte := true, log := c.log + [Received]), v, call);
  }

  lemma IdleDataFaithful(parse: LineParser, middleware: bool, c: Conn, w: seq<byte>, data: seq<byte>, call: HandlerCall)
    requires Faithful(parse, c, w) && !Live(c) && Enabled(c, Data(data, call))
    requires !Surplus(parse, w + data)
    ensures var (next, verdict) := Feed(parse, c.reader, data);
            verdict.Wait? && !Undecided(next) && next.request == c.reader.request
    ensures Faithful(parse, DataReceived(parse, middleware, c, data, call), w + data)
  {
    ProcessStable(parse, w, data);
  }

  lemma TaskAgrees(parse: LineParser, middleware: bool, c: Conn, state: Reader, v: Verdict, e: Event)
    requires Ledger(c, 0, 0) && Agrees(c, state, v) && Enabled(c, e) && !e.Data?
    ensures Agrees(Step(parse, middleware, c, e), state, v)
  {
    match e
    case MiddlewareDone(admission, call) =>
      var done := c.(admissions := c.admissions - 1);
      match admission {
        case Allowed => RouteHandlesOnly(done, call, v);
        case Denied(reason, retryAfter) => SendHandlesOnly(done, DenialResponse(reason, retryAfter), v);
        case Broken(_) => SendHandlesOnly(done, Response(40, "Middleware error"), v);
      }
    case HandlerDone(completion) =>
      var done := c.(replies := c.replies - 1);
      match completion {
        case Completed(r) => SendHandlesOnly(done, r, v);
        case Crashed(text) => SendHandlesOnly(done, Response(40, "Server error: " + text), v);
      }
    case Timeout =>
    case Lost =>
  }

  ghost predicate Safe(parse: LineParser, c: Conn, w: seq<byte>) {
    Ledger(c, 0, 0) && Faithful(parse, c, w)
  }

  lemma SafeStep(parse: LineParser, middleware: bool, c: Conn, w: seq<byte>, e: Event)
    requires Safe(parse, c, w) && Enabled(c, e)
    requires e.Data? ==> !Surplus(parse, w + e.data)
    ensures Safe(parse, Step(parse, middleware, c, e), w + (if e.Data? then e.data else []))
  {
    match e
    case Data(data, call) =>
      if Live(c) {
        LiveDataFaithful(parse, middleware, c, w, data, call);
      } else {
        IdleDataFaithful(parse, middleware, c, w, data, call);
      }
      DataLedger(parse, middleware, c, data, call);
    case _ =>
      assert w + [] == w;
      TaskLedger(parse, middleware, c, e);
      TaskAgrees(parse, middleware, c, StateAfter(parse, w), OneShot(parse, w), e);
  }

  lemma {:induction false} SafeRun(parse: LineParser, middleware: bool, events: seq<Event>)
    requires Run(parse, middleware, events).Some?
    requires !Surplus(parse, Stream(events))
    ensures Safe(parse, Run(parse, middleware, events).value, Stream(events))
  {
    if events == [] {
      StartIsEmptyStream(parse);
    } else {
      var (before, e) := (events[..|events| - 1], events[|events| - 1]);
      if Surplus(parse, Stream(before)) {
        SurplusExtends(parse, Stream(before), if e.Data? then e.data else []);
      }
      SafeRun(parse, middleware, before);
      SafeStep(parse, middleware, Run(parse, middleware, before).value, Stream(before), e);
    }
  }

  /**
   Over every interleaving, for a stream without surplus bytes: at most one handler call, on exactly
   the request the whole stream denotes; at most one response; nothing handled after a denial or any
   other response; nothing written before the first byte or after the loss of the connection; and,
   once no task is running and nothing more is awaited, a connection that is still there and has
   sent a byte has been answered.
   */
  lemma SafeOverAllRuns(parse: LineParser, middleware: bool, events: seq<Event>)
    requires Run(parse, middleware, events).Some?
    requires !Surplus(parse, Stream(events))
    ensures var c := Run(parse, middleware, events).value;
            && Handles(c.log) <= 1 && Writes(c.log) <= 1 && Ordered(c.log)
            && (forall i | 0 <= i < |c.log| && c.log[i].Handle? ::
                  OneShot(parse, Stream(events)) == Process(c.log[i].request))
            && (c.connected && c.firstByte && !Live(c) && c.admissions == c.replies == 0 ==> Writes(c.log) == 1)
  {
    SafeRun(parse, middleware, events);
  }

  /** No task left that could call the handler, and no more data to come. */
  predicate Finished(c: Conn) {
    c.admissions == 0 && (!c.connected || c.closing)
  }

  lemma FinishedStep(parse: LineParser, middleware: bool, c: Conn, e: Event)
    requires Finished(c) && Enabled(c, e)
    ensures Finished(Step(parse, middleware, c, e))
    ensures Handles(Step(parse, middleware, c, e).log) == Handles(c.log)
  {
    match e
    case HandlerDone(completion) =>
      var done := c.(replies := c.replies - 1);
      SendKeepsFinished(done, match completion case Completed(r) => r
                                               case Crashed(text) => Response(40, "Server error: " + text));
    case Timeout =>
    case Lost => Appended(c.log, Disconnected);
  }

  lemma SendKeepsFinished(c: Conn, r: Response)
    requires c.admissions == 0
    ensures Finished(SendResponse(c, r)) && Handles(SendResponse(c, r).log) == Handles(c.log)
  {
    Appended(c.log, Write(r));
    Appended(c.log + [Write(r)], Close);
  }

  predicate Refuses(e: Event) {
    e.MiddlewareDone? && !e.admission.Allowed?
  }

  lemma RefusalFinishes(parse: LineParser, middleware: bool, c: Conn, e: Event)
    requires Ledger(c, 0, 0) && Enabled(c, e) && Refuses(e)
    ensures var next := Step(parse, middleware, c, e); Finished(next) && Handles(next.log) == 0
  {
    var done := c.(admissions := c.admissions - 1);
    SendKeepsFinished(done, if e.admission.Denied? then DenialResponse(e.admission.reason, e.admission.retryAfter)
                            else Response(40, "Middleware error"));
  }

  /**
   A run over a stream without surplus bytes in which the middleware denied the request, or failed,
   never calls the handler: neither before nor after, and also when the connection was lost in the
   meantime and no response was written.
   */
  lemma {:induction false} DeniedIsNeverHandled(parse: LineParser, middleware: bool, events: seq<Event>, k: nat)
    requires Run(parse, middleware, events).Some? && !Surplus(parse, Stream(events))
    requires k < |events| && Refuses(events[k])
    ensures var c := Run(parse, middleware, events).value; Finished(c) && Handles(c.log) == 0
  {
    hide Step, Enabled, DataReceived;
    var (before, e) := (events[..|events| - 1], events[|events| - 1]);
    if Surplus(parse, Stream(before)) {
      SurplusExtends(parse, Stream(before), if e.Data? then e.data else []);
    }
    if k == |events| - 1 {
      SafeRun(parse, middleware, before);
      RefusalFinishes(parse, middleware, Run(parse, middleware, before).value, e);
    } else {
      assert before[k] == events[k];
      DeniedIsNeverHandled(parse, middleware, before, k);
      FinishedStep(parse, middleware, Run(parse, middleware, before).value, e);
    }
  }

  lemma SurplusHandledTwice(parse: LineParser, stream: seq<byte>)
    requires Surplus(parse, stream)
    ensures exists events ::
              Stream(events) == stream && Run(parse, false, events).Some?
              && Handles(Run(parse, false, events).value.log) == 2
  {
    hide Feed, Run, Stream, DataReceived, Surplus, Handles;
    var a, b := CutBehindBody(parse, stream);
    var whole := OneShot(parse, a).request;
    var c := OPENED.(reader := StateAfter(parse, a), firstByte := true, timerArmed := false, replies := 1,
                     log := [] + [Received] + [Handle(whole)]);
    FirstDelivery(parse, a);
    TwoDeliveries(parse, a, b);
    HandledAgain(parse, c, b);
    Appended([], Received);
    Appended([] + [Received], Handle(whole));
    NoHandles();
  }

  lemma NoHandles()
    ensures Handles([]) == 0
  {
  }

  lemma RunAppend(parse: LineParser, middleware: bool, events: seq<Event>, e: Event)
    requires Run(parse, middleware, events).Some? && Enabled(Run(parse, middleware, events).value, e)
    ensures Run(parse, middleware, events + [e])
            == Some(Step(parse, middleware, Run(parse, middleware, events).value, e))
    ensures Stream(events + [e]) == Stream(events) + (if e.Data? then e.data else [])
  {
    assert (events + [e])[..|events|] == events;
  }

  /** A reader that hands on a request makes one more admission pending. */
  lemma AdmittedWhen(parse: LineParser, c: Conn, data: seq<byte>)
    requires Feed(parse, c.reader, data).1.Process?
    requires Feed(parse, c.reader, data).0.request.Some?
    ensures var (next, after) := (Feed(parse, c.reader, data).0, DataReceived(parse, true, c, data, Suspends));
            && after.reader == next && after.admissions == c.admissions + 1
            && after.connected == c.connected && after.closing == c.closing
  {
  }

  lemma HandledWhenAdmitted(c: Conn)
    requires c.admissions > 0 && c.reader.request.Some?
    ensures var next := MiddlewareResult(c, Allowed, Suspends);
            next.admissions == c.admissions - 1 && Handles(next.log) == Handles(c.log) + 1
  {
    Appended(c.log, Handle(c.reader.request.value));
  }

  const REFUSAL := MiddlewareDone(Denied(RateLimit, 0), Suspends)

  /** The body is complete, and the flag that awaits it is still set. */
  predicate Completed(r: Reader) {
    r.headerReceived && r.awaitingBody && r.request.Some? && |r.buffer| >= r.request.value.contentLength
  }

  lemma FedAgain(parse: LineParser, r: Reader, data: seq<byte>)
    requires Completed(r)
    ensures var (next, verdict) := Feed(parse, r, data); verdict.Process? && next.request.Some?
  {
  }

  lemma CutBehindBody(parse: LineParser, stream: seq<byte>) returns (a: seq<byte>, b: seq<byte>)
    requires Surplus(parse, stream)
    ensures a + b == stream && a != [] && b != []
    ensures OneShot(parse, a).Process? && Completed(StateAfter(parse, a))
    ensures StateAfter(parse, a).request == Some(OneShot(parse, a).request)
  {
    var p := HeaderEnd(stream);
    var k := p + 2 + parse(stream[..p]).value.contentLength;
    a, b := stream[..k], stream[k..];
    assert a + b == stream;
    assert HeaderEnd(a) == p && a[..p] == stream[..p] by {
      HeaderEndExtends(a, b);
      assert CrlfAt(a, p);
    }
    CompleteState(parse, a);
  }

  lemma NothingYet(parse: LineParser)
    ensures Run(parse, true, []) == Some(OPENED) && Stream([]) == []
  {
  }

  /** Two deliveries, the first granted and the second refused. */
  function GrantedAndRefused(a: seq<byte>, b: seq<byte>): seq<Event> {
    [Data(a, Suspends)] + [Data(b, Suspends)] + [MiddlewareDone(Allowed, Suspends)] + [REFUSAL]
  }

  lemma GrantedAndRefusedRun(parse: LineParser, a: seq<byte>, b: seq<byte>)
    requires a != [] && b != [] && OneShot(parse, a).Process? && Completed(StateAfter(parse, a))
    ensures Stream(GrantedAndRefused(a, b)) == a + b
    ensures Run(parse, true, GrantedAndRefused(a, b)).Some?
            && Handles(Run(parse, true, GrantedAndRefused(a, b)).value.log) > 0
  {
    hide DataReceived, MiddlewareResult, Feed, Run, Stream, Handles;
    var none: seq<Event> := [];
    NothingYet(parse);
    var first := [Data(a, Suspends)];
    var second := first + [Data(b, Suspends)];
    var third := second + [MiddlewareDone(Allowed, Suspends)];
    assert none + [Data(a, Suspends)] == first;
    RunAppend(parse, true, none, Data(a, Suspends));
    AdmittedWhen(parse, OPENED, a);
    var c := Run(parse, true, first).value;
    RunAppend(parse, true, first, Data(b, Suspends));
    FedAgain(parse, c.reader, b);
    AdmittedWhen(parse, c, b);
    var d := Run(parse, true, second).value;
    RunAppend(parse, true, second, MiddlewareDone(Allowed, Suspends));
    HandledWhenAdmitted(d);
    RunAppend(parse, true, third, REFUSAL);
    RefusalHandlesNothing(Run(parse, true, third).value);
    assert [] + a + b + [] + [] == a + b;
  }

  /** With a surplus two admissions can be pending at once, the first granted and the second refused. */
  lemma SurplusHandledThough(parse: LineParser, stream: seq<byte>)
    requires Surplus(parse, stream)
    ensures exists events, k: nat ::
              && Stream(events) == stream && Run(parse, true, events).Some?
              && k < |events| && Refuses(events[k]) && Handles(Run(parse, true, events).value.log) > 0
  {
    hide Stream, Run, Surplus, Handles;
    var a, b := CutBehindBody(parse, stream);
    GrantedAndRefusedRun(parse, a, b);
    assert Refuses(GrantedAndRefused(a, b)[3]);
  }

  lemma RefusalHandlesNothing(c: Conn)
    requires c.admissions > 0
    ensures Handles(MiddlewareResult(c, Denied(RateLimit, 0), Suspends).log) == Handles(c.log)
  {
    var r := DenialResponse(RateLimit, 0);
    Appended(c.log, Write(r));
    Appended(c.log + [Write(r)], Close);
  }

  /** No run over a stream that holds a refusal calls the handler, exactly when the stream has no surplus. */
  lemma DeniedExact(parse: LineParser, stream: seq<byte>)
    ensures (forall middleware, events, k: nat |
               && Stream(events) == stream && Run(parse, middleware, events).Some?
               && k < |events| && Refuses(events[k]) ::
               Handles(Run(parse, middleware, events).value.log) == 0)
            <==> !Surplus(parse, stream)
  {
    if Surplus(parse, stream) {
      SurplusHandledThough(parse, stream);
    } else {
      forall middleware, events, k: nat |
        && Stream(events) == stream && Run(parse, middleware, events).Some?
        && k < |events| && Refuses(events[k])
        ensures Handles(Run(parse, middleware, events).value.log) == 0
      {
        DeniedIsNeverHandled(parse, middleware, events, k);
      }
    }
  }

  lemma FirstDelivery(parse: LineParser, data: seq<byte>)
    requires OneShot(parse, data).Process?
    requires StateAfter(parse, data).request == Some(OneShot(parse, data).request)
    ensures DataReceived(parse, false, OPENED, data, Suspends)
            == OPENED.(reader := StateAfter(parse, data), firstByte := true, timerArmed := false, replies := 1,
                       log := [] + [Received] + [Handle(OneShot(parse, data).request)])
  {
    var (reader, v) := Feed(parse, START, data);
    ActProcesses(OPENED.(reader := reader, firstByte := true, log := [] + [Received]), v.request);
  }

  lemma ActProcesses(c: Conn, request: Request)
    requires c.reader.request == Some(request)
    ensures Act(false, c, Process(request), Suspends)
            == c.(timerArmed := false, log := c.log + [Handle(request)], replies := c.replies + 1)
  {
  }

  /** A delivery to a reader whose body is complete calls the handler once more. */
  lemma HandledAgain(parse: LineParser, c: Conn, data: seq<byte>)
    requires c.reader.headerReceived && c.reader.awaitingBody && c.reader.request.Some?
    requires |c.reader.buffer| >= c.reader.request.value.contentLength
    ensures Handles(DataReceived(parse, false, c, data, Suspends).log) == Handles(c.log) + 1
  {
    var next := DataReceived(parse, false, c, data, Suspends);
    Appended(c.log, Received);
    Appended(c.log + [Received], Handle(next.reader.request.value));
  }

  lemma TwoDeliveries(parse: LineParser, a: seq<byte>, b: seq<byte>)
    requires a != [] && b != []
    requires var c := DataReceived(parse, false, OPENED, a, Suspends); c.connected && !c.closing
    ensures var c := DataReceived(parse, false, OPENED, a, Suspends);
            var events := [Data(a, Suspends), Data(b, Suspends)];
            && Stream(events) == a + b
            && Run(parse, false, events) == Some(DataReceived(parse, false, c, b, Suspends))
  {
    hide DataReceived;
    var (first, second) := (Data(a, Suspends), Data(b, Suspends));
    var none: seq<Event> := [];
    assert [first, second][..1] == [first] && [first][..0] == none;
    assert Stream([first]) == [] + a == a;
    var c := DataReceived(parse, false, OPENED, a, Suspends);
    assert Run(parse, false, [first]) == Some(c);
  }

  /** At most one handler call in every run that delivers a stream, exactly when it has no surplus. */
  lemma SingleHandlingExact(parse: LineParser, stream: seq<byte>)
    ensures (forall middleware, events |
               Stream(events) == stream && Run(parse, middleware, events).Some? ::
               Handles(Run(parse, middleware, events).value.log) <= 1)
            <==> !Surplus(parse, stream)
  {
    if Surplus(parse, stream) {
      SurplusHandledTwice(parse, stream);
    } else {
      forall middleware, events | Stream(events) == stream && Run(parse, middleware, events).Some?
        ensures Handles(Run(parse, middleware, events).value.log) <= 1
      {
        SafeOverAllRuns(parse, middleware, events);
      }
    }
  }
}
