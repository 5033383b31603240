/** The wire from the client's printer to the handler call, over whole runs of a connection. */
module Pipeline {
  import opened Wrappers
  import opened Constants
  import opened Utf8
  import opened Text
  import opened Request
  import opened ServerReader
  import opened Connection
  import opened ConnectionSafety

  /** The request the server is to see: the one sent, with the peer's certificate. */
  function Arrived(r: Request, client: Option<Identity>): Request {
    Request(r.mailbox, r.hostname, r.contentLength, r.rawMessage, Encode(HeaderText(r)), client, C)
  }

  /** In B form the server sees the collapsed text. */
  function ArrivedB(r: Request, client: Option<Identity>): Request
    requires CollapsedBody(r).Success?
  {
    var body := CollapsedBody(r).value;
    Request(r.mailbox, r.hostname, |Encode(body)|, Encode(body), Encode(HeaderTextB(r, body)), client, B)
  }

  predicate Sendable(r: Request) {
    && Plain(r.mailbox) && Plain(r.hostname) && '@' !in r.hostname
    && |r.rawMessage| == r.contentLength <= MAX_CONTENT_LENGTH
    && |Encode(HeaderText(r))| <= MAX_HEADER_SIZE
  }

  /**
   In every run of a connection that delivers the bytes of one printed request, however they are cut
   up and interleaved with timers, tasks and disconnection: the handler is called at most once, and
   only on that request; at most one response is written; and a connection that has gone quiet
   without being lost has been answered.
   */
  lemma OneRequestOneHandling(client: Option<Identity>, r: Request, middleware: bool, events: seq<Event>)
    requires Sendable(r)
    requires Run(ParserFor(client), middleware, events).Some? && Stream(events) == ToBytes(r)
    ensures var c := Run(ParserFor(client), middleware, events).value;
            && Handles(c.log) <= 1 && Writes(c.log) <= 1
            && (forall i | 0 <= i < |c.log| && c.log[i].Handle? :: c.log[i].request == Arrived(r, client))
            && (c.connected && c.firstByte && !Live(c) && c.admissions == c.replies == 0 ==> Writes(c.log) == 1)
  {
    var parse := ParserFor(client);
    var line := Encode(HeaderText(r));
    assert OneShot(parse, ToBytes(r)) == Process(Arrived(r, client)) by {
      EncodeCrlf(HeaderText(r));
      HeaderHasNoCr(r);
      HeaderRoundTrip(r);
      OneShotC(client, line, r.rawMessage);
    }
    assert !Surplus(parse, ToBytes(r)) by { PrintedHasNoSurplus(client, r); }
    SafeOverAllRuns(parse, middleware, events);
  }

  /** Any bytes sent behind a printed request with a body are surplus. */
  lemma SurplusAfterRequest(client: Option<Identity>, r: Request, extra: seq<byte>)
    requires Sendable(r) && r.contentLength > 0 && extra != []
    ensures Surplus(ParserFor(client), ToBytes(r) + extra)
  {
    hide FromHeader, Encode, HeaderText;
    var line := Encode(HeaderText(r));
    var stream := ToBytes(r) + extra;
    EncodeCrlf(HeaderText(r));
    HeaderHasNoCr(r);
    HeaderRoundTrip(r);
    HeaderEndAt(line, r.rawMessage + extra);
    assert stream == line + [13, 10] + (r.rawMessage + extra);
    assert stream[..|line|] == line;
  }

  const ONE_OCTET := Request("a", "h", 1, [33], [], None, C)

  /** So there are streams over which the server calls the handler twice. */
  lemma OneOctetTooMany(client: Option<Identity>)
    ensures Surplus(ParserFor(client), ToBytes(ONE_OCTET) + [33])
  {
    assert IntToString(1) == "1";
    EncodeBound(HeaderText(ONE_OCTET));
    SurplusAfterRequest(client, ONE_OCTET, [33]);
  }

  /**
   The same for a request in B form: the handler sees the collapsed text and nothing else, at most
   once, and a connection that has gone quiet without being lost has been answered.
   */
  lemma OneRequestOneHandlingB(client: Option<Identity>, r: Request, middleware: bool, events: seq<Event>)
    requires PlainB(r.mailbox) && PlainB(r.hostname) && '@' !in r.hostname
    requires ToBytesB(r).Success? && CollapsedBody(r).value != ""
    requires Run(ParserFor(client), middleware, events).Some? && Stream(events) == ToBytesB(r).value
    ensures var c := Run(ParserFor(client), middleware, events).value;
            && Handles(c.log) <= 1 && Writes(c.log) <= 1
            && (forall i | 0 <= i < |c.log| && c.log[i].Handle? :: c.log[i].request == ArrivedB(r, client))
            && (c.connected && c.firstByte && !Live(c) && c.admissions == c.replies == 0 ==> Writes(c.log) == 1)
  {
    var body := CollapsedBody(r).value;
    EncodeCrlf(HeaderTextB(r, body));
    HeaderBHasNoCrOrTab(r);
    HeaderRoundTripB(r, body);
    OneShotB(client, Encode(HeaderTextB(r, body)));
    SafeOverAllRuns(ParserFor(client), middleware, events);
  }

  lemma PrintedHasNoSurplus(client: Option<Identity>, r: Request)
    requires Sendable(r)
    ensures !Surplus(ParserFor(client), ToBytes(r))
  {
    var line := Encode(HeaderText(r));
    EncodeCrlf(HeaderText(r));
    HeaderHasNoCr(r);
    HeaderRoundTrip(r);
    HeaderEndAt(line, r.rawMessage);
    assert ToBytes(r)[..|line|] == line;
  }
}
