/** Which response a connection writes, and what has caused it. */
module ConnectionAnswers {
  import opened Utf8
  import opened Text
  import opened Response
  import opened ServerReader
  import opened Connection
  import opened ConnectionSafety

  /** What calling the handler answers at once. */
  predicate Gives(call: HandlerCall, r: Response) {
    match call
    case Returns(response) => r == response
    case Raises(text) => r == Response(40, "Server error: " + text)
    case Suspends => false
  }

  predicate RefusedWith(reason: Denial, retryAfter: nat, r: Response) {
    match reason
    case RateLimit =>
      r.status == 44 && r.meta == if retryAfter == 0 then "Slow Down"
                                  else "Slow Down. Retry after " + NatToString(retryAfter) + "s"
    case AccessDenied => r == Response(53, "Domain Not Serviced")
    case CertRequired => r == Response(60, "Certificate Required")
    case CertNotAuthorized => r == Response(61, "Unauthorized Sender")
    case OtherDenial => r == Response(40, "Temporary Failure")
  }

  /** The event, after the bytes `before`, is a reason to write the response. */
  predicate Causes(parse: LineParser, before: seq<byte>, e: Event, r: Response) {
    match e
    case Data(data, call) =>
      (match OneShot(parse, before + data)
       case Reject(meta) => r == Response(59, meta)
       case Process(_) => Gives(call, r)
       case Wait => false)
    case MiddlewareDone(admission, call) =>
      (match admission
       case Allowed => Gives(call, r)
       case Denied(reason, retryAfter) => RefusedWith(reason, retryAfter, r)
       case Broken(_) => r == Response(40, "Middleware error"))
    case HandlerDone(completion) =>
      (match completion
       case Completed(response) => r == response
       case Crashed(text) => r == Response(40, "Server error: " + text))
    case Timeout => r == Response(59, "Request timeout")
    case Lost => false
  }

  /** Everything written behind the first `from` effects is caused by the event. */
  predicate NewWritesCaused(parse: LineParser, before: seq<byte>, e: Event, log: seq<Effect>, from: nat) {
    forall i | from <= i < |log| && log[i].Write? :: Causes(parse, before, e, log[i].response)
  }

  lemma SendCaused(parse: LineParser, before: seq<byte>, e: Event, c: Conn, r: Response, from: nat)
    requires Causes(parse, before, e, r) && from <= |c.log| && NewWritesCaused(parse, before, e, c.log, from)
    ensures var next := SendResponse(c, r);
            && c.log <= next.log && NewWritesCaused(parse, before, e, next.log, from)
            && (c.connected ==> Write(r) in next.log)
  {
    hide Causes;
    if c.connected { assert SendResponse(c, r).log[|c.log|] == Write(r); }
  }

  lemma RouteCaused(parse: LineParser, before: seq<byte>, e: Event, c: Conn, call: HandlerCall, from: nat)
    requires forall r | Gives(call, r) :: Causes(parse, before, e, r)
    requires from <= |c.log| && NewWritesCaused(parse, before, e, c.log, from)
    ensures var next := RouteRequest(c, call);
            && c.log <= next.log && NewWritesCaused(parse, before, e, next.log, from)
            && (c.connected && c.reader.request.Some? && !call.Suspends? ==>
                  exists r :: Gives(call, r) && Write(r) in next.log)
  {
    hide Causes, SendResponse;
    if c.reader.request.Some? {
      var called := c.(log := c.log + [Handle(c.reader.request.value)]);
      match call
      case Returns(r) =>
        assert Gives(call, r);
        SendCaused(parse, before, e, called, r, from);
      case Raises(text) =>
        assert Gives(call, Response(40, "Server error: " + text));
        SendCaused(parse, before, e, called, Response(40, "Server error: " + text), from);
      case Suspends =>
    }
  }

  lemma ActCaused(parse: LineParser, middleware: bool, before: seq<byte>, e: Event, c: Conn, v: Verdict,
                  call: HandlerCall, from: nat)
    requires v.Reject? ==> Causes(parse, before, e, Response(59, v.meta))
    requires v.Process? ==> forall r | Gives(call, r) :: Causes(parse, before, e, r)
    requires from <= |c.log| && NewWritesCaused(parse, before, e, c.log, from)
    ensures var next := Act(middleware, c, v, call);
            c.log <= next.log && NewWritesCaused(parse, before, e, next.log, from)
  {
    hide Causes, SendResponse, RouteRequest;
    match v
    case Wait =>
    case Reject(meta) => SendCaused(parse, before, e, c, Response(59, meta), from);
    case Process(_) =>
      if !middleware { RouteCaused(parse, before, e, c.(timerArmed := false), call, from); }
  }

  lemma DataCaused(parse: LineParser, middleware: bool, c: Conn, w: seq<byte>, data: seq<byte>, call: HandlerCall)
    requires Safe(parse, c, w) && Enabled(c, Data(data, call)) && !Surplus(parse, w + data)
    ensures var next := DataReceived(parse, middleware, c, data, call);
            c.log <= next.log && NewWritesCaused(parse, w, Data(data, call), next.log, |c.log|)
  {
    hide Feed, Ledger, Act, Surplus, OneShot;
    var e := Data(data, call);
    var (reader, v) := Feed(parse, c.reader, data);
    if Live(c) {
      FeedComposes(parse, w, data) by { WaitingLive(parse, c, w); }
      VerdictOfWhole(parse, w, data);
    } else {
      IdleDataFaithful(parse, middleware, c, w, data, call);
    }
    var fed := c.(reader := reader, firstByte := true, log := c.log + [Received]);
    ActCaused(parse, middleware, w, e, fed, v, call, |c.log|);
  }

  lemma WaitingLive(parse: LineParser, c: Conn, w: seq<byte>)
    requires Safe(parse, c, w) && Live(c)
    ensures OneShot(parse, w).Wait? && c.reader == StateAfter(parse, w)
  {
  }

  lemma VerdictOfWhole(parse: LineParser, w: seq<byte>, data: seq<byte>)
    ensures Feed(parse, START, w + data).1 == OneShot(parse, w + data)
  {
  }

  /** What one event adds to the log of a connection: only what it causes, and that in any case if an answer is due. */
  lemma StepCaused(parse: LineParser, middleware: bool, c: Conn, w: seq<byte>, e: Event)
    requires Safe(parse, c, w) && Enabled(c, e) && (e.Data? ==> !Surplus(parse, w + e.data))
    ensures var next := Step(parse, middleware, c, e);
            && c.log <= next.log && NewWritesCaused(parse, w, e, next.log, |c.log|)
            && (c.connected && Answers(c, e) ==> exists r :: Causes(parse, w, e, r) && Write(r) in next.log)
  {
    hide SendResponse, RouteRequest, Surplus;
    match e
    case Data(data, call) => DataCaused(parse, middleware, c, w, data, call);
    case MiddlewareDone(admission, call) =>
      var done := c.(admissions := c.admissions - 1);
      match admission {
        case Allowed => RouteCaused(parse, w, e, done, call, |c.log|);
        case Denied(reason, retryAfter) =>
          assert Causes(parse, w, e, DenialResponse(reason, retryAfter));
          SendCaused(parse, w, e, done, DenialResponse(reason, retryAfter), |c.log|);
        case Broken(_) => SendCaused(parse, w, e, done, Response(40, "Middleware error"), |c.log|);
      }
    case HandlerDone(completion) =>
      var done := c.(replies := c.replies - 1);
      match completion {
        case Completed(r) => SendCaused(parse, w, e, done, r, |c.log|);
        case Crashed(text) => SendCaused(parse, w, e, done, Response(40, "Server error: " + text), |c.log|);
      }
    case Timeout =>
      if c.connected && !c.closing && c.firstByte {
        var r := Response(59, "Request timeout");
        assert Causes(parse, w, e, r);
        assert Step(parse, middleware, c, e).log[|c.log|] == Write(r);
      }
    case Lost =>
  }

  /** The events that are answered at once, when the connection is there. */
  predicate Answers(c: Conn, e: Event) {
    || e.HandlerDone?
    || Refuses(e)
    || (e.MiddlewareDone? && !e.call.Suspends? && c.reader.request.Some?)
    || (e.Timeout? && !c.closing && c.firstByte)
  }

  lemma RunSafe(parse: LineParser, middleware: bool, events: seq<Event>)
    requires events != [] && Run(parse, middleware, events).Some? && !Surplus(parse, Stream(events))
    ensures var (before, e) := (events[..|events| - 1], events[|events| - 1]);
            var c := Run(parse, middleware, before);
            && c.Some? && Enabled(c.value, e) && Safe(parse, c.value, Stream(before))
            && Run(parse, middleware, events).value == Step(parse, middleware, c.value, e)
            && !Surplus(parse, Stream(before)) && (e.Data? ==> !Surplus(parse, Stream(before) + e.data))
  {
    hide Step, Surplus, Safe;
    var (before, e) := (events[..|events| - 1], events[|events| - 1]);
    if Surplus(parse, Stream(before)) {
      SurplusExtends(parse, Stream(before), if e.Data? then e.data else []);
    }
    SafeRun(parse, middleware, before);
  }

  /** In every run over a stream without surplus, each response written was caused by some event of the run. */
  lemma {:induction false} RunCaused(parse: LineParser, middleware: bool, events: seq<Event>, i: nat)
    requires Run(parse, middleware, events).Some? && !Surplus(parse, Stream(events))
    requires var log := Run(parse, middleware, events).value.log; i < |log| && log[i].Write?
    ensures var r := Run(parse, middleware, events).value.log[i].response;
            exists k :: 0 <= k < |events| && Causes(parse, Stream(events[..k]), events[k], r)
  {
    hide Step, Surplus, Safe, Causes, Enabled;
    if events != [] {
      var n := |events| - 1;
      var before := events[..n];
      RunSafe(parse, middleware, events);
      var c := Run(parse, middleware, before).value;
      StepCaused(parse, middleware, c, Stream(before), events[n]);
      if i < |c.log| {
        RunCaused(parse, middleware, before, i);
        var k :| 0 <= k < n && Causes(parse, Stream(before[..k]), before[k], c.log[i].response);
        assert events[..k] == before[..k] && events[k] == before[k];
      }
    }
  }

  /** And every event that is to be answered is, if the connection is there when it comes. */
  lemma {:induction false} RunAnswered(parse: LineParser, middleware: bool, events: seq<Event>, k: nat)
    requires Run(parse, middleware, events).Some? && !Surplus(parse, Stream(events)) && k < |events|
    requires Run(parse, middleware, events[..k]).Some?
    requires var c := Run(parse, middleware, events[..k]).value; c.connected && Answers(c, events[k])
    ensures exists r :: && Causes(parse, Stream(events[..k]), events[k], r)
                        && Write(r) in Run(parse, middleware, events).value.log
    decreases |events|
  {
    hide Step, Surplus, Safe, Causes, Enabled, Answers;
    var n := |events| - 1;
    var before := events[..n];
    RunSafe(parse, middleware, events);
    var c := Run(parse, middleware, before).value;
    StepCaused(parse, middleware, c, Stream(before), events[n]);
    if k < n {
      assert before[..k] == events[..k] && before[k] == events[k];
      RunAnswered(parse, middleware, before, k);
    }
  }

  // -- Every answer closes --

  /** Each response is followed at once by closing the connection. */
  predicate ClosesBehind(log: seq<Effect>) {
    forall i | 0 <= i < |log| && log[i].Write? :: i + 1 < |log| && log[i + 1].Close?
  }

  lemma SendCloses(c: Conn, r: Response)
    requires ClosesBehind(c.log)
    ensures ClosesBehind(SendResponse(c, r).log)
    ensures c.connected ==> SendResponse(c, r).closing
  {
  }

  lemma RouteCloses(c: Conn, call: HandlerCall)
    requires ClosesBehind(c.log)
    ensures ClosesBehind(RouteRequest(c, call).log)
  {
    hide SendResponse;
    if c.reader.request.Some? {
      var called := c.(log := c.log + [Handle(c.reader.request.value)]);
      match call
      case Returns(r) => SendCloses(called, r);
      case Raises(text) => SendCloses(called, Response(40, "Server error: " + text));
      case Suspends =>
    }
  }

  lemma StepCloses(parse: LineParser, middleware: bool, c: Conn, e: Event)
    requires ClosesBehind(c.log) && Enabled(c, e)
    ensures ClosesBehind(Step(parse, middleware, c, e).log)
  {
    hide SendResponse, RouteRequest, Feed;
    match e
    case Data(data, call) =>
      var (reader, v) := Feed(parse, c.reader, data);
      var fed := c.(reader := reader, firstByte := true, log := c.log + [Received]);
      match v {
        case Wait =>
        case Reject(meta) => SendCloses(fed, Response(59, meta));
        case Process(_) => RouteCloses(fed.(timerArmed := false), call);
      }
    case MiddlewareDone(admission, call) =>
      var done := c.(admissions := c.admissions - 1);
      RouteCloses(done, call);
      match admission {
        case Allowed =>
        case Denied(reason, retryAfter) => SendCloses(done, DenialResponse(reason, retryAfter));
        case Broken(_) => SendCloses(done, Response(40, "Middleware error"));
      }
    case HandlerDone(completion) =>
      var done := c.(replies := c.replies - 1);
      match completion {
        case Completed(r) => SendCloses(done, r);
        case Crashed(text) => SendCloses(done, Response(40, "Server error: " + text));
      }
    case Timeout =>
    case Lost =>
  }

  /** In every run the connection is closed right behind each response. */
  lemma {:induction false} RunCloses(parse: LineParser, middleware: bool, events: seq<Event>)
    requires Run(parse, middleware, events).Some?
    ensures ClosesBehind(Run(parse, middleware, events).value.log)
  {
    hide Step, Enabled;
    if events != [] {
      var before := events[..|events| - 1];
      RunCloses(parse, middleware, before);
      StepCloses(parse, middleware, Run(parse, middleware, before).value, events[|events| - 1]);
    }
  }

  /** The timer closes a connection that is open, and one that has been answered stays as it is. */
  lemma TimeoutCloses(c: Conn)
    ensures c.connected && !c.closing ==> Close in HandleTimeout(c).log && HandleTimeout(c).closing
    ensures c.closing || !c.connected ==> HandleTimeout(c).log == c.log
  {
    if c.connected && !c.closing {
      var log := HandleTimeout(c).log;
      assert log[|log| - 1] == Close;
    }
  }
}
