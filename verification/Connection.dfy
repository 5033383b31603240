/**
 The states of a server connection and what each callback of `MisfinServerProtocol` does to them:
 data, the 30 second timer, the results of the middleware and handler tasks, and the loss of the
 connection.
 */
module Connection {
  import opened Utf8
  import opened Text
  import opened Request
  import opened Response
  import opened ServerReader

  /** What calling `message_handler` does: answer at once, raise, or return an awaitable. */
  datatype HandlerCall = Returns(response: Response) | Raises(text: string) | Suspends

  /** How a handler task ends. */
  datatype Completion = Completed(response: Response) | Crashed(text: string)

  datatype Denial = RateLimit | AccessDenied | CertRequired | CertNotAuthorized | OtherDenial

  /** How a middleware task ends; a `retryAfter` of 0 stands for none. */
  datatype Admission = Allowed | Denied(reason: Denial, retryAfter: nat) | Broken(text: string)

  datatype Event =
    | Data(data: seq<byte>, call: HandlerCall)
    | MiddlewareDone(admission: Admission, call: HandlerCall)
    | HandlerDone(completion: Completion)
    | Timeout
    | Lost

  /** What the outside world sees, in order. */
  datatype Effect =
    | Received
    | Admit(request: Request)
    | Handle(request: Request)
    | Write(response: Response)
    | Close
    | Disconnected

  datatype Conn = Conn(
    reader: Reader,
    firstByte: bool,
    timerArmed: bool,
    connected: bool,
    closing: bool,
    admissions: nat,  // middleware tasks not yet finished
    replies: nat,     // handler tasks not yet finished
    log: seq<Effect>)

  const OPENED := Conn(START, false, true, true, false, 0, 0, [])

  function SendResponse(c: Conn, r: Response): Conn {
    if !c.connected then c else c.(log := c.log + [Write(r)] + [Close], closing := true)
  }

  function RouteRequest(c: Conn, call: HandlerCall): Conn {
    match c.reader.request
    case None => c
    case Some(request) =>
      var called := c.(log := c.log + [Handle(request)]);
      match call {
        case Returns(r) => SendResponse(called, r)
        case Raises(text) => SendResponse(called, Response(40, "Server error: " + text))
        case Suspends => called.(replies := called.replies + 1)
      }
  }

  function ProcessRequest(middleware: bool, c: Conn, call: HandlerCall): Conn {
    match c.reader.request
    case None => c
    case Some(request) =>
      if middleware then c.(log := c.log + [Admit(request)], admissions := c.admissions + 1)
      else RouteRequest(c, call)
  }

  /** The reaction to the reader's verdict; processing a request cancels the timer. */
  function Act(middleware: bool, c: Conn, verdict: Verdict, call: HandlerCall): Conn {
    match verdict
    case Wait => c
    case Reject(meta) => SendResponse(c, Response(59, meta))
    case Process(_) => ProcessRequest(middleware, c.(timerArmed := false), call)
  }

  /** `_receive_header`, on a reader whose buffer already holds the new bytes. */
  function HeaderStep(parse: LineParser, middleware: bool, c: Conn, call: HandlerCall): Conn {
    var (reader, verdict) := ReceiveHeader(parse, c.reader);
    Act(middleware, c.(reader := reader), verdict, call)
  }

  function LineStep(parse: LineParser, middleware: bool, c: Conn, line: seq<byte>, call: HandlerCall): Conn {
    var (reader, verdict) := AcceptLine(parse, c.reader, line);
    Act(middleware, c.(reader := reader), verdict, call)
  }

  function BodyStep(middleware: bool, c: Conn, call: HandlerCall): Conn
    requires c.reader.request.Some?
  {
    var (reader, verdict) := ReceiveBody(c.reader);
    Act(middleware, c.(reader := reader), verdict, call)
  }

  function DataReceived(parse: LineParser, middleware: bool, c: Conn, data: seq<byte>, call: HandlerCall): Conn {
    var (reader, verdict) := Feed(parse, c.reader, data);
    Act(middleware, c.(reader := reader, firstByte := true, log := c.log + [Received]), verdict, call)
  }

  function DenialResponse(reason: Denial, retryAfter: nat): Response {
    match reason
    case RateLimit =>
      Response(44, if retryAfter == 0 then "Slow Down"
                   else "Slow Down. Retry after " + NatToString(retryAfter) + "s")
    case AccessDenied => Response(53, "Domain Not Serviced")
    case CertRequired => Response(60, "Certificate Required")
    case CertNotAuthorized => Response(61, "Unauthorized Sender")
    case OtherDenial => Response(40, "Temporary Failure")
  }

  function MiddlewareResult(c: Conn, admission: Admission, call: HandlerCall): Conn
    requires c.admissions > 0
  {
    var done := c.(admissions := c.admissions - 1);
    match admission
    case Allowed => RouteRequest(done, call)
    case Denied(reason, retryAfter) => SendResponse(done, DenialResponse(reason, retryAfter))
    case Broken(_) => SendResponse(done, Response(40, "Middleware error"))
  }

  function HandlerResult(c: Conn, completion: Completion): Conn
    requires c.replies > 0
  {
    var done := c.(replies := c.replies - 1);
    match completion
    case Completed(r) => SendResponse(done, r)
    case Crashed(text) => SendResponse(done, Response(40, "Server error: " + text))
  }

  function HandleTimeout(c: Conn): Conn {
    var fired := c.(timerArmed := false);
    if !c.connected || c.closing then fired
    else
      var log := if c.firstByte then c.log + [Write(Response(59, "Request timeout"))] else c.log;
      fired.(log := log + [Close], closing := true)
  }

  function ConnectionLost(c: Conn): Conn {
    c.(timerArmed := false, connected := false, log := c.log + [Disconnected])
  }
}
