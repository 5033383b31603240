/**
 The two-phase buffer of `MisfinServerProtocol`: bytes arrive in chunks of any size, the header
 line ends at the first CRLF, and a C request then waits for its declared body.
 */
module ServerReader {
  import opened Wrappers
  import opened Constants
  import opened Utf8
  import opened Request

  const HEADER_LIMIT := 2048  // max(MAX_HEADER_SIZE, MAX_B_REQUEST_SIZE)

  datatype Reader = Reader(
    buffer: seq<byte>,
    request: Option<Request>,
    headerReceived: bool,
    awaitingBody: bool)

  const START := Reader([], None, false, false)

  /** What one delivery of bytes leads to: nothing yet, an error reply, or a request to process. */
  datatype Verdict = Wait | Reject(meta: string) | Process(request: Request)

  predicate CrlfAt(b: seq<byte>, i: int) {
    0 <= i && i + 1 < |b| && b[i] == 13 && b[i + 1] == 10
  }

  /** Position of the first CRLF, or |b| when there is none. */
  function HeaderEnd(b: seq<byte>): (i: nat)
    ensures i <= |b| && (i < |b| ==> CrlfAt(b, i))
    ensures forall j | 0 <= j < i :: !CrlfAt(b, j)
  {
    NextCrlf(b, 0)
  }

  function NextCrlf(b: seq<byte>, from: nat): (i: nat)
    requires from <= |b|
    ensures from <= i <= |b| && (i < |b| ==> CrlfAt(b, i))
    ensures forall j | from <= j < i :: !CrlfAt(b, j)
    decreases |b| - from
  {
    if from == |b| || CrlfAt(b, from) then from else NextCrlf(b, from + 1)
  }

  function Describe(e: HeaderError): string {
    match e
    case HeaderTooLong => "B request exceeds maximum size (2048 bytes)"
    case InvalidUtf8 => "Invalid UTF-8 in header"
    case InvalidScheme => "Invalid scheme: expected misfin://"
    case MissingSpace => "Missing space separator in B request"
    case EmptyMessage => "Empty message in B request"
    case _ => "Invalid address format"
  }

  /** C first; B only when the line holds no TAB. The client certificate is attached. */
  function ParseLine(client: Option<Identity>, line: seq<byte>): Result<Request, string> {
    match FromHeader(line)
    case Success(r) => Success(r.(client := client))
    case Failure(_) =>
      if 9 in line then Failure("Invalid request header")
      else match FromHeaderB(line) {
        case Success(r) => Success(r.(client := client))
        case Failure(e) => Failure(Describe(e))
      }
  }

  type LineParser = seq<byte> -> Result<Request, string>

  /** The header parser of a connection whose peer presented `client`. */
  function ParserFor(client: Option<Identity>): LineParser {
    line => ParseLine(client, line)
  }

  /** No accepted header line is longer than the limit on buffered header bytes. */
  ghost predicate Bounded(parse: LineParser) {
    forall line: seq<byte> :: parse(line).Success? ==> |line| <= HEADER_LIMIT
  }

  lemma ParserForBounded(client: Option<Identity>)
    ensures Bounded(ParserFor(client))
  {
  }

  /** `_receive_header`, on a buffer that already holds the new bytes. */
  function ReceiveHeader(parse: LineParser, r: Reader): (Reader, Verdict) {
    var b := r.buffer;
    var p := HeaderEnd(b);
    if p == |b| then
      (r, if |b| > HEADER_LIMIT then Reject("Header exceeds maximum size (2048 bytes)") else Wait)
    else AcceptLine(parse, r.(buffer := b[p + 2..], headerReceived := true), b[..p])
  }

  /** The second half of `_receive_header`: the line is complete, the buffer holds what follows it. */
  function AcceptLine(parse: LineParser, r: Reader, line: seq<byte>): (Reader, Verdict) {
    match parse(line)
    case Failure(meta) => (r, Reject(meta))
    case Success(request) =>
      var ready := r.(request := Some(request));
      if request.version.B? || request.contentLength == 0 then (ready, Process(request))
      else ReceiveBody(ready.(awaitingBody := true))
  }

  /** The completion test of phase two. */
  function ReceiveBody(r: Reader): (Reader, Verdict)
    requires r.request.Some?
  {
    var n := r.request.value.contentLength;
    if |r.buffer| >= n then
      var whole := r.request.value.(rawMessage := r.buffer[..n]);
      (r.(request := Some(whole)), Process(whole))
    else (r, Wait)
  }

  /** `data_received`. */
  function Feed(parse: LineParser, r: Reader, data: seq<byte>): (Reader, Verdict) {
    var fed := r.(buffer := r.buffer + data);
    if !r.headerReceived then ReceiveHeader(parse, fed)
    else if r.awaitingBody && r.request.Some? then ReceiveBody(fed)
    else (fed, Wait)
  }

  function Flatten(chunks: seq<seq<byte>>): seq<byte> {
    if chunks == [] then [] else chunks[0] + Flatten(chunks[1..])
  }

  /** The decisions taken while `chunks` arrive; an error closes the connection to further data. */
  function FeedAll(parse: LineParser, r: Reader, chunks: seq<seq<byte>>): seq<Verdict>
    decreases |chunks|
  {
    if chunks == [] then []
    else
      var (next, verdict) := Feed(parse, r, chunks[0]);
      match verdict
      case Wait => FeedAll(parse, next, chunks[1..])
      case Reject(_) => [verdict]
      case Process(_) => [verdict] + FeedAll(parse, next, chunks[1..])
  }

  ghost predicate Chunking(chunks: seq<seq<byte>>, stream: seq<byte>) {
    Flatten(chunks) == stream && forall c | c in chunks :: c != []
  }

  function OneShot(parse: LineParser, stream: seq<byte>): Verdict {
    Feed(parse, START, stream).1
  }

  function StateAfter(parse: LineParser, stream: seq<byte>): Reader {
    Feed(parse, START, stream).0
  }

  /** Bytes beyond the body an accepted C header declares. */
  predicate Surplus(parse: LineParser, stream: seq<byte>) {
    var p := HeaderEnd(stream);
    p < |stream| && parse(stream[..p]).Success? &&
    var request := parse(stream[..p]).value;
    request.version.C? && request.contentLength > 0 && |stream| > p + 2 + request.contentLength
  }

  /** An accepted header line of exactly 2048 bytes. */
  predicate BoundaryLine(parse: LineParser, stream: seq<byte>) {
    var p := HeaderEnd(stream);
    p < |stream| && p == HEADER_LIMIT && parse(stream[..p]).Success?
  }

  /** The same request is processed, or the same status is sent, or neither happens. */
  ghost predicate SameDecision(decisions: seq<Verdict>, verdict: Verdict) {
    match verdict
    case Wait => decisions == []
    case Reject(_) => |decisions| == 1 && decisions[0].Reject?
    case Process(_) => decisions == [verdict]
  }

  // -- First CRLF under extension --

  lemma HeaderEndExtends(b: seq<byte>, d: seq<byte>)
    ensures HeaderEnd(b) < |b| ==> HeaderEnd(b + d) == HeaderEnd(b)
    ensures HeaderEnd(b) == |b| ==> HeaderEnd(b + d) + 1 >= |b|
  {
    var (p, q) := (HeaderEnd(b), HeaderEnd(b + d));
    assert forall j | 0 <= j && j + 1 < |b| :: CrlfAt(b, j) <==> CrlfAt(b + d, j);
  }

  lemma HeaderEndAt(line: seq<byte>, rest: seq<byte>)
    requires 13 !in line
    ensures HeaderEnd(line + [13, 10] + rest) == |line|
  {
    var b := line + [13, 10] + rest;
    assert CrlfAt(b, |line|);
    assert forall j | 0 <= j < |line| :: b[j] == line[j] && b[j] != 13;
  }

  // -- The machine only depends on the bytes seen so far --

  lemma WholeStream(parse: LineParser, w: seq<byte>)
    ensures Feed(parse, START, w) == ReceiveHeader(parse, START.(buffer := w))
  {
    assert [] + w == w;
  }

  /** The state in which part of the body is still missing. */
  lemma AwaitingState(parse: LineParser, w: seq<byte>)
    requires OneShot(parse, w).Wait? && HeaderEnd(w) < |w|
    ensures var p := HeaderEnd(w);
            && parse(w[..p]).Success?
            && StateAfter(parse, w) == Reader(w[p + 2..], Some(parse(w[..p]).value), true, true)
  {
    WholeStream(parse, w);
  }

  lemma ExtendedStream(w: seq<byte>, d: seq<byte>)
    requires HeaderEnd(w) < |w|
    ensures var p := HeaderEnd(w);
            && HeaderEnd(w + d) == p
            && (w + d)[..p] == w[..p]
            && (w + d)[p + 2..] == w[p + 2..] + d
  {
    HeaderEndExtends(w, d);
  }

  lemma FeedComposes(parse: LineParser, w: seq<byte>, d: seq<byte>)
    requires OneShot(parse, w).Wait?
    ensures Feed(parse, StateAfter(parse, w), d) == Feed(parse, START, w + d)
  {
    WholeStream(parse, w);
    WholeStream(parse, w + d);
    if HeaderEnd(w) < |w| {
      AwaitingState(parse, w);
      ExtendedStream(w, d);
    }
  }

  lemma RejectedWhen(parse: LineParser, w: seq<byte>)
    ensures var p := HeaderEnd(w);
            OneShot(parse, w).Reject? <==> if p == |w| then |w| > HEADER_LIMIT else parse(w[..p]).Failure?
  {
    WholeStream(parse, w);
  }

  lemma RejectStable(parse: LineParser, w: seq<byte>, d: seq<byte>)
    requires Bounded(parse)
    requires OneShot(parse, w).Reject? && !BoundaryLine(parse, w + d)
    ensures OneShot(parse, w + d).Reject?
  {
    hide OneShot;
    RejectedWhen(parse, w);
    RejectedWhen(parse, w + d);
    if HeaderEnd(w) < |w| {
      ExtendedStream(w, d);
    } else {
      HeaderEndExtends(w, d);
    }
  }

  lemma ProcessStable(parse: LineParser, w: seq<byte>, d: seq<byte>)
    requires OneShot(parse, w).Process? && !Surplus(parse, w + d)
    ensures OneShot(parse, w + d) == OneShot(parse, w)
    ensures d == [] || !StateAfter(parse, w).awaitingBody
    ensures StateAfter(parse, w).headerReceived
    ensures StateAfter(parse, w + d).awaitingBody == StateAfter(parse, w).awaitingBody
  {
    hide NextCrlf;
    WholeStream(parse, w);
    WholeStream(parse, w + d);
    ExtendedStream(w, d);
    if d == [] { assert w + d == w; }
  }

  lemma SurplusExtends(parse: LineParser, w: seq<byte>, d: seq<byte>)
    requires Surplus(parse, w)
    ensures Surplus(parse, w + d)
  {
    ExtendedStream(w, d);
  }

  lemma {:induction false} IdleAfterProcessing(parse: LineParser, r: Reader, chunks: seq<seq<byte>>)
    requires r.headerReceived && !r.awaitingBody
    ensures FeedAll(parse, r, chunks) == []
    decreases |chunks|
  {
    if chunks != [] {
      IdleAfterProcessing(parse, r.(buffer := r.buffer + chunks[0]), chunks[1..]);
    }
  }

  lemma {:induction false} RunFrom(parse: LineParser, w: seq<byte>, chunks: seq<seq<byte>>)
    requires Bounded(parse)
    requires OneShot(parse, w).Wait?
    requires forall c | c in chunks :: c != []
    requires !Surplus(parse, w + Flatten(chunks)) && !BoundaryLine(parse, w + Flatten(chunks))
    ensures SameDecision(FeedAll(parse, StateAfter(parse, w), chunks), OneShot(parse, w + Flatten(chunks)))
    decreases |chunks|
  {
    if chunks == [] {
      assert w + Flatten(chunks) == w;
    } else {
      var (d, rest) := (chunks[0], chunks[1..]);
      assert forall c | c in rest :: c in chunks;
      assert w + Flatten(chunks) == (w + d) + Flatten(rest);
      FeedComposes(parse, w, d);
      match OneShot(parse, w + d)
      case Wait => RunFrom(parse, w + d, rest);
      case Reject(_) => RejectStable(parse, w + d, Flatten(rest));
      case Process(_) =>
        ProcessStable(parse, w + d, Flatten(rest));
        if rest != [] {
          assert rest[0] in rest && Flatten(rest) != [];
          IdleAfterProcessing(parse, StateAfter(parse, w + d), rest);
        }
    }
  }

  lemma StartIsEmptyStream(parse: LineParser)
    ensures StateAfter(parse, []) == START && OneShot(parse, []).Wait?
  {
  }

  lemma FragmentationIndependence(parse: LineParser, stream: seq<byte>, chunks: seq<seq<byte>>)
    requires Bounded(parse)
    requires Chunking(chunks, stream)
    requires !Surplus(parse, stream) && !BoundaryLine(parse, stream)
    ensures SameDecision(FeedAll(parse, START, chunks), OneShot(parse, stream))
  {
    StartIsEmptyStream(parse);
    assert [] + Flatten(chunks) == stream;
    RunFrom(parse, [], chunks);
  }

  lemma TwoChunks(parse: LineParser, r: Reader, a: seq<byte>, b: seq<byte>)
    ensures var (next, first) := Feed(parse, r, a);
            var second := Feed(parse, next, b).1;
            FeedAll(parse, r, [a, b])
            == if first.Reject? then [first]
               else (if first.Wait? then [] else [first]) + (if second.Wait? then [] else [second])
  {
    var next := Feed(parse, r, a).0;
    assert [a, b][1..] == [b];
    var last := Feed(parse, next, b).0;
    var none: seq<seq<byte>> := [];
    assert FeedAll(parse, last, none) == [];
    assert [b][1..] == none;
  }

  lemma TwoPieces(a: seq<byte>, b: seq<byte>)
    requires a != [] && b != []
    ensures Chunking([a, b], a + b)
  {
    assert [a, b][1..] == [b];
    var none: seq<seq<byte>> := [];
    assert [b][1..] == none && Flatten(none) == [];
  }

  /** The state in which the body has just been completed. */
  lemma CompleteState(parse: LineParser, w: seq<byte>)
    requires HeaderEnd(w) < |w| && parse(w[..HeaderEnd(w)]).Success?
    requires var request := parse(w[..HeaderEnd(w)]).value;
             request.version.C? && request.contentLength > 0
             && |w| == HeaderEnd(w) + 2 + request.contentLength
    ensures var p := HeaderEnd(w);
            var whole := parse(w[..p]).value.(rawMessage := w[p + 2..]);
            Feed(parse, START, w) == (Reader(w[p + 2..], Some(whole), true, true), Process(whole))
  {
    WholeStream(parse, w);
    var body := w[HeaderEnd(w) + 2..];
    assert body[..|body|] == body;
  }

  /** A second delivery after a complete body is handed on again: `awaiting_body` stays set. */
  lemma SurplusProcessesTwice(parse: LineParser, stream: seq<byte>)
    requires Surplus(parse, stream)
    ensures exists chunks ::
              Chunking(chunks, stream) && !SameDecision(FeedAll(parse, START, chunks), OneShot(parse, stream))
  {
    var p := HeaderEnd(stream);
    var k := p + 2 + parse(stream[..p]).value.contentLength;
    var (a, b) := (stream[..k], stream[k..]);
    assert a + b == stream;
    assert HeaderEnd(a) == p && a[..p] == stream[..p] by {
      HeaderEndExtends(a, b);
      assert CrlfAt(a, p);
    }
    CompleteState(parse, a);
    TwoChunks(parse, START, a, b);
    TwoPieces(a, b);
  }

  /** Cut between the CR and the LF, a 2048-byte line exceeds the limit that a whole one meets. */
  lemma BoundaryLineSplits(parse: LineParser, stream: seq<byte>)
    requires BoundaryLine(parse, stream)
    ensures exists chunks ::
              Chunking(chunks, stream) && !SameDecision(FeedAll(parse, START, chunks), OneShot(parse, stream))
  {
    var k := HEADER_LIMIT + 1;
    var (a, b) := (stream[..k], stream[k..]);
    assert a + b == stream;
    HeaderEndExtends(a, b);
    assert HeaderEnd(a) == |a|;
    WholeStream(parse, a);
    WholeStream(parse, stream);
    TwoChunks(parse, START, a, b);
    TwoPieces(a, b);
  }

  /** Exactly when every fragmentation of a stream leads to the decision of the whole stream. */
  lemma FragmentationExact(parse: LineParser, stream: seq<byte>)
    requires Bounded(parse)
    ensures (forall chunks | Chunking(chunks, stream) ::
               SameDecision(FeedAll(parse, START, chunks), OneShot(parse, stream)))
            <==> !Surplus(parse, stream) && !BoundaryLine(parse, stream)
  {
    if Surplus(parse, stream) {
      SurplusProcessesTwice(parse, stream);
    } else if BoundaryLine(parse, stream) {
      BoundaryLineSplits(parse, stream);
    } else {
      forall chunks | Chunking(chunks, stream)
        ensures SameDecision(FeedAll(parse, START, chunks), OneShot(parse, stream))
      {
        FragmentationIndependence(parse, stream, chunks);
      }
    }
  }

  /** A header line over 2048 bytes is refused however it arrives. */
  lemma LongHeaderRejected(parse: LineParser, stream: seq<byte>, chunks: seq<seq<byte>>)
    requires Bounded(parse)
    requires Chunking(chunks, stream)
    requires HeaderEnd(stream) > HEADER_LIMIT
    ensures var decisions := FeedAll(parse, START, chunks); |decisions| == 1 && decisions[0].Reject?
  {
    FragmentationIndependence(parse, stream, chunks);
    assert [] + stream == stream;
  }

  // -- End to end: printed by the client, cut anywhere, reassembled by the server --

  lemma OneShotC(client: Option<Identity>, line: seq<byte>, body: seq<byte>)
    requires 13 !in line && FromHeader(line).Success?
    requires |body| == FromHeader(line).value.contentLength
    ensures OneShot(ParserFor(client), line + [13, 10] + body)
            == Process(FromHeader(line).value.(client := client, rawMessage := body))
  {
    var stream := line + [13, 10] + body;
    WholeStream(ParserFor(client), stream);
    HeaderEndAt(line, body);
    assert stream[..|line|] == line && stream[|line| + 2..] == body;
    assert body[..|body|] == body;
  }

  lemma TransportC(client: Option<Identity>, r: Request, chunks: seq<seq<byte>>)
    requires Plain(r.mailbox) && Plain(r.hostname) && '@' !in r.hostname
    requires |r.rawMessage| == r.contentLength <= MAX_CONTENT_LENGTH
    requires |Encode(HeaderText(r))| <= MAX_HEADER_SIZE
    requires Chunking(chunks, ToBytes(r))
    ensures FeedAll(ParserFor(client), START, chunks)
            == [Process(Request(r.mailbox, r.hostname, r.contentLength, r.rawMessage,
                                Encode(HeaderText(r)), client, C))]
  {
    hide Bounded;
    var line := Encode(HeaderText(r));
    EncodeCrlf(HeaderText(r));
    HeaderHasNoCr(r);
    HeaderRoundTrip(r);
    ParserForBounded(client);
    OneShotC(client, line, r.rawMessage);
    assert !Surplus(ParserFor(client), ToBytes(r)) by {
      HeaderEndAt(line, r.rawMessage);
      assert ToBytes(r)[..|line|] == line;
    }
    assert !BoundaryLine(ParserFor(client), ToBytes(r)) by { HeaderEndAt(line, r.rawMessage); }
    FragmentationIndependence(ParserFor(client), ToBytes(r), chunks);
  }

  lemma OneShotB(client: Option<Identity>, line: seq<byte>)
    requires 13 !in line && 9 !in line && FromHeaderB(line).Success?
    ensures var stream := line + [13, 10];
            && OneShot(ParserFor(client), stream) == Process(FromHeaderB(line).value.(client := client))
            && !Surplus(ParserFor(client), stream)
            && HeaderEnd(stream) == |line|
  {
    var stream := line + [13, 10];
    assert stream == line + [13, 10] + [];
    HeaderEndAt(line, []);
    assert stream[..|line|] == line;
    NoTabIsNotC(line);
    WholeStream(ParserFor(client), stream);
  }

  lemma TransportB(client: Option<Identity>, r: Request, chunks: seq<seq<byte>>)
    requires PlainB(r.mailbox) && PlainB(r.hostname) && '@' !in r.hostname
    requires ToBytesB(r).Success? && CollapsedBody(r).value != ""
    requires |ToBytesB(r).value| < MAX_B_REQUEST_SIZE + 2
    requires Chunking(chunks, ToBytesB(r).value)
    ensures var body := CollapsedBody(r).value;
            FeedAll(ParserFor(client), START, chunks)
            == [Process(Request(r.mailbox, r.hostname, |Encode(body)|, Encode(body),
                                Encode(HeaderTextB(r, body)), client, B))]
  {
    hide Bounded;
    var body := CollapsedBody(r).value;
    EncodeCrlf(HeaderTextB(r, body));
    HeaderBHasNoCrOrTab(r);
    HeaderRoundTripB(r, body);
    ParserForBounded(client);
    OneShotB(client, Encode(HeaderTextB(r, body)));
    FragmentationIndependence(ParserFor(client), ToBytesB(r).value, chunks);
  }

  /** A B line that fills the limit. */
  function FullLine(): string {
    "misfin://a@h " + seq(2035, _ => 'x')
  }

  lemma FullLineIsBoundary(client: Option<Identity>)
    ensures BoundaryLine(ParserFor(client), Encode(FullLine()) + [13, 10])
  {
    hide FromHeader, FromHeaderB, Encode;
    var line := Encode(FullLine());
    var body := seq(2035, _ => 'x');
    var r := Request("a", "h", 0, [], [], None, B);
    AsciiLength(FullLine());
    AsciiTransparent(FullLine(), 9);
    AsciiTransparent(FullLine(), 13);
    assert HeaderTextB(r, body) == FullLine();
    HeaderRoundTripB(r, body);
    NoTabIsNotC(line);
    assert line + [13, 10] == line + [13, 10] + [];
    HeaderEndAt(line, []);
    assert (line + [13, 10])[..|line|] == line;
  }

  lemma NoTabIsNotC(line: seq<byte>)
    requires 9 !in line
    ensures FromHeader(line).Failure?
  {
    if Decode(line).Some? {
      EncodeDecode(line);
      AsciiTransparent(Decode(line).value, 9);
    }
  }
}
