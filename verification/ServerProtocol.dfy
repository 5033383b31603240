/** The protocol object: its callbacks update the fields of one connection in place. */
module ServerProtocol {
  import opened Wrappers
  import opened Utf8
  import opened Request
  import opened Response
  import opened ServerReader
  import opened Connection

  class MisfinServerProtocol {
    const parse: LineParser  // `from_header`, then `from_header_b`, with the peer's certificate attached
    const middleware: bool
    var buffer: seq<byte>
    var request: Option<Request>
    var headerReceived: bool
    var awaitingBody: bool
    var receivedFirstByte: bool
    var timeoutArmed: bool
    var connected: bool
    var closing: bool
    var admissions: nat
    var replies: nat
    var log: seq<Effect>

    ghost function View(): Conn
      reads this
    {
      Conn(Reader(buffer, request, headerReceived, awaitingBody), receivedFirstByte, timeoutArmed,
           connected, closing, admissions, replies, log)
    }

    constructor (client: Option<Identity>, middleware: bool)
      ensures View() == OPENED && parse == ParserFor(client) && this.middleware == middleware
    {
      parse, this.middleware := ParserFor(client), middleware;
      buffer, request, headerReceived, awaitingBody := [], None, false, false;
      receivedFirstByte, timeoutArmed, connected, closing := false, true, true, false;
      admissions, replies, log := 0, 0, [];
    }

    method SendResponse(r: Response)
      modifies this
      ensures View() == Connection.SendResponse(old(View()), r)
    {
      if connected {
        log := log + [Write(r)];
        log := log + [Close];
        closing := true;
      }
    }

    method RouteRequest(call: HandlerCall)
      modifies this
      ensures View() == Connection.RouteRequest(old(View()), call)
    {
      if request.Some? {
        log := log + [Handle(request.value)];
        match call
        case Returns(r) => SendResponse(r);
        case Raises(text) => SendResponse(Response(40, "Server error: " + text));
        case Suspends => replies := replies + 1;
      }
    }

    method ProcessRequest(call: HandlerCall)
      modifies this
      ensures View() == Connection.ProcessRequest(middleware, old(View()), call)
    {
      if request.Some? {
        if middleware {
          log := log + [Admit(request.value)];
          admissions := admissions + 1;
        } else {
          RouteRequest(call);
        }
      }
    }

    /** The completion test both phases end with. */
    method CompleteBody(call: HandlerCall)
      requires request.Some?
      modifies this
      ensures View() == BodyStep(middleware, old(View()), call)
    {
      var n := request.value.contentLength;
      if |buffer| >= n {
        timeoutArmed := false;
        request := Some(request.value.(rawMessage := buffer[..n]));
        ProcessRequest(call);
      }
    }

    /** Phase one, on a buffer that already holds the new bytes. */
    method ReceiveHeader(call: HandlerCall)
      requires !headerReceived
      modifies this
      ensures View() == HeaderStep(parse, middleware, old(View()), call)
    {
      hide Connection.SendResponse, Connection.ProcessRequest, ServerReader.AcceptLine, NextCrlf;
      var end := HeaderEnd(buffer);
      if end == |buffer| {
        if |buffer| > HEADER_LIMIT {
          SendResponse(Response(59, "Header exceeds maximum size (2048 bytes)"));
        }
      } else {
        var line := buffer[..end];
        buffer, headerReceived := buffer[end + 2..], true;
        AcceptLine(line, call);
      }
    }

    method AcceptLine(line: seq<byte>, call: HandlerCall)
      modifies this
      ensures View() == LineStep(parse, middleware, old(View()), line, call)
    {
      hide Connection.SendResponse, Connection.ProcessRequest;
      match parse(line)
      case Failure(meta) =>
        SendResponse(Response(59, meta));
      case Success(parsed) =>
        request := Some(parsed);
        if parsed.version.B? || parsed.contentLength == 0 {
          timeoutArmed := false;
          ProcessRequest(call);
        } else {
          awaitingBody := true;
          CompleteBody(call);
        }
    }

    method DataReceived(data: seq<byte>, call: HandlerCall)
      modifies this
      ensures View() == Connection.DataReceived(parse, middleware, old(View()), data, call)
    {
      ghost var start := View();
      receivedFirstByte := true;
      log := log + [Received];
      buffer := buffer + data;
      ghost var fed := start.reader.(buffer := start.reader.buffer + data);
      assert View() == start.(reader := fed, firstByte := true, log := start.log + [Received]);
      if !headerReceived {
        assert Feed(parse, start.reader, data) == ServerReader.ReceiveHeader(parse, fed);
        ReceiveHeader(call);
        return;
      }
      if awaitingBody && request.Some? {
        CompleteBody(call);
      }
    }

    method HandleMiddlewareResult(admission: Admission, call: HandlerCall)
      requires admissions > 0
      modifies this
      ensures View() == MiddlewareResult(old(View()), admission, call)
    {
      admissions := admissions - 1;
      match admission
      case Allowed => RouteRequest(call);
      case Denied(reason, retryAfter) => SendResponse(DenialResponse(reason, retryAfter));
      case Broken(_) => SendResponse(Response(40, "Middleware error"));
    }

    method HandleHandlerResult(completion: Completion)
      requires replies > 0
      modifies this
      ensures View() == HandlerResult(old(View()), completion)
    {
      replies := replies - 1;
      match completion
      case Completed(r) => SendResponse(r);
      case Crashed(text) => SendResponse(Response(40, "Server error: " + text));
    }

    method HandleTimeout()
      modifies this
      ensures View() == Connection.HandleTimeout(old(View()))
    {
      timeoutArmed := false;
      if connected && !closing {
        if receivedFirstByte {
          log := log + [Write(Response(59, "Request timeout"))];
        }
        log := log + [Close];
        closing := true;
      }
    }

    method ConnectionLost()
      modifies this
      ensures View() == Connection.ConnectionLost(old(View()))
    {
      timeoutArmed := false;
      connected := false;
      log := log + [Disconnected];
    }
  }
}

