/** `MisfinClientProtocol`: one response line, collected from chunks, completes a future. */
module ClientProtocol {
  import opened Wrappers
  import opened Constants
  import opened Text
  import opened Utf8
  import opened Response
  import opened ServerReader
  import Request

  /** The state of the response future. */
  datatype Future = Pending | Resolved(response: Response) | Failed(reason: FailureReason)

  datatype FailureReason = BadLine | TooLarge | Dropped | Unanswered

  type ResponseParser = seq<byte> -> Option<Response>

  function ParseResponse(line: seq<byte>): Option<Response> {
    match Decode(line)
    case None => None
    case Some(text) => FromLine(text)
  }

  datatype Client = Client(buffer: seq<byte>, headerReceived: bool, future: Future, closed: bool)

  const FRESH := Client([], false, Pending, false)

  function Settle(f: Future, outcome: Future): Future {
    if f.Pending? then outcome else f
  }

  function LineOutcome(parse: ResponseParser, line: seq<byte>): Future {
    match parse(line)
    case Some(r) => Resolved(r)
    case None => Failed(BadLine)
  }

  /** `data_received`: the line first, then the size limit on everything received. */
  function Deliver(parse: ResponseParser, c: Client, data: seq<byte>): Client {
    CheckSize(TakeLine(parse, c.(buffer := c.buffer + data)))
  }

  function TakeLine(parse: ResponseParser, c: Client): Client {
    var end := HeaderEnd(c.buffer);
    if c.headerReceived || end == |c.buffer| then c
    else c.(headerReceived := true, future := Settle(c.future, LineOutcome(parse, c.buffer[..end])), closed := true)
  }

  function CheckSize(c: Client): Client {
    if |c.buffer| <= MAX_RESPONSE_SIZE then c
    else c.(future := Settle(c.future, Failed(TooLarge)), closed := true)
  }

  /** The future once `chunks` have arrived; a closed connection delivers nothing more. */
  function Outcome(parse: ResponseParser, c: Client, chunks: seq<seq<byte>>): Future
    decreases |chunks|
  {
    if chunks == [] || c.closed then c.future else Outcome(parse, Deliver(parse, c, chunks[0]), chunks[1..])
  }

  class MisfinClientProtocol {
    const parse: ResponseParser
    var buffer: seq<byte>
    var headerReceived: bool
    var future: Future
    var closed: bool

    ghost function View(): Client
      reads this
    {
      Client(buffer, headerReceived, future, closed)
    }

    constructor ()
      ensures View() == FRESH && parse == ParseResponse
    {
      parse := ParseResponse;
      buffer, headerReceived, future, closed := [], false, Pending, false;
    }

    method DataReceived(data: seq<byte>)
      modifies this
      ensures View() == Deliver(parse, old(View()), data)
    {
      buffer := buffer + data;
      var end := HeaderEnd(buffer);
      if !headerReceived && end < |buffer| {
        headerReceived := true;
        match parse(buffer[..end]) {
          case Some(r) =>
            if future.Pending? { future := Resolved(r); }
          case None =>
            if future.Pending? { future := Failed(BadLine); }
        }
        closed := true;
      }
      if |buffer| > MAX_RESPONSE_SIZE {
        if future.Pending? { future := Failed(TooLarge); }
        closed := true;
      }
    }

    /** A future that is still pending fails; one that is done stays as it is. */
    method ConnectionLost(error: bool)
      modifies `future
      ensures old(future) != Pending ==> future == old(future)
      ensures old(future) == Pending && error ==> future == Failed(Dropped)
      ensures old(future) == Pending && !error ==>
                future == if headerReceived then Pending else Failed(Unanswered)
    {
      if future.Pending? {
        if error {
          future := Failed(Dropped);
        } else if !headerReceived {
          future := Failed(Unanswered);
        }
      }
    }
  }

  /** The same response, or some failure on both sides, or nothing yet on both sides. */
  predicate SameOutcome(a: Future, b: Future) {
    a == b || (a.Failed? && b.Failed?)
  }

  /** A readable response line too long to be buffered without its line feed. */
  predicate OverlongLine(parse: ResponseParser, stream: seq<byte>) {
    var end := HeaderEnd(stream);
    MAX_RESPONSE_SIZE <= end < |stream| && parse(stream[..end]).Some?
  }

  /** The future that the bytes of a whole stream lead to. */
  function StreamOutcome(parse: ResponseParser, stream: seq<byte>): Future {
    var end := HeaderEnd(stream);
    if end < |stream| then LineOutcome(parse, stream[..end])
    else if |stream| > MAX_RESPONSE_SIZE then Failed(TooLarge)
    else Pending
  }

  /**
   What the bytes of a whole stream lead to: the response its first line is read as, or a failure if it is
   not; without a line, a failure once there are more than 2048 octets.
   */
  lemma StreamExact(line: seq<byte>, rest: seq<byte>)
    requires forall i :: !CrlfAt(line + [13], i)
    ensures var outcome := StreamOutcome(ParseResponse, line + [13, 10] + rest);
            match ParseResponse(line)
            case Some(r) => outcome == Resolved(r)
            case None => outcome.Failed?
    ensures var outcome := StreamOutcome(ParseResponse, line);
            if |line| > 2048 then outcome.Failed? else outcome == Pending
  {
    hide ParseResponse;
    var stream := line + [13, 10] + rest;
    assert HeaderEnd(stream) == |line| by {
      assert CrlfAt(stream, |line|);
      forall j | 0 <= j < |line| ensures !CrlfAt(stream, j) {
        assert !CrlfAt(line + [13], j);
        assert stream[j] == (line + [13])[j] && stream[j + 1] == (line + [13])[j + 1];
      }
    }
    assert stream[..|line|] == line;
    assert HeaderEnd(line) == |line| by {
      forall j | 0 <= j < |line| ensures !CrlfAt(line, j) {
        assert !CrlfAt(line + [13], j);
        assert j + 1 < |line| ==> line[j + 1] == (line + [13])[j + 1];
      }
    }
  }

  lemma DeliverWhole(parse: ResponseParser, w: seq<byte>, d: seq<byte>)
    ensures var c := Deliver(parse, FRESH.(buffer := w), d);
            && c.future == StreamOutcome(parse, w + d)
            && (c.future.Pending? ==> c == FRESH.(buffer := w + d))
            && (!c.future.Pending? ==> c.closed)
  {
  }

  lemma StreamOutcomeExtends(parse: ResponseParser, w: seq<byte>, d: seq<byte>)
    requires !StreamOutcome(parse, w).Pending? && !OverlongLine(parse, w + d)
    ensures SameOutcome(StreamOutcome(parse, w), StreamOutcome(parse, w + d))
  {
    HeaderEndExtends(w, d);
    var end := HeaderEnd(w);
    if end < |w| { assert (w + d)[..end] == w[..end]; }
  }

  lemma {:induction false} OutcomeFrom(parse: ResponseParser, w: seq<byte>, chunks: seq<seq<byte>>)
    requires StreamOutcome(parse, w).Pending? && !OverlongLine(parse, w + Flatten(chunks))
    ensures SameOutcome(Outcome(parse, FRESH.(buffer := w), chunks), StreamOutcome(parse, w + Flatten(chunks)))
    decreases |chunks|
  {
    if chunks == [] {
      assert w + Flatten(chunks) == w;
    } else {
      var (d, rest) := (chunks[0], chunks[1..]);
      assert w + Flatten(chunks) == (w + d) + Flatten(rest);
      DeliverWhole(parse, w, d);
      if StreamOutcome(parse, w + d).Pending? {
        OutcomeFrom(parse, w + d, rest);
      } else {
        StreamOutcomeExtends(parse, w + d, Flatten(rest));
      }
    }
  }

  /** Exactly when every fragmentation of the response bytes has the outcome of the whole. */
  lemma OutcomeExact(parse: ResponseParser, stream: seq<byte>)
    ensures (forall chunks | Chunking(chunks, stream) ::
               SameOutcome(Outcome(parse, FRESH, chunks), StreamOutcome(parse, stream)))
            <==> !OverlongLine(parse, stream)
  {
    if OverlongLine(parse, stream) {
      OverlongLineSplits(parse, stream);
    } else {
      forall chunks | Chunking(chunks, stream)
        ensures SameOutcome(Outcome(parse, FRESH, chunks), StreamOutcome(parse, stream))
      {
        assert [] + Flatten(chunks) == stream;
        OutcomeFrom(parse, [], chunks);
      }
    }
  }

  lemma OverlongLineSplits(parse: ResponseParser, stream: seq<byte>)
    requires OverlongLine(parse, stream)
    ensures exists chunks ::
              Chunking(chunks, stream)
              && !SameOutcome(Outcome(parse, FRESH, chunks), StreamOutcome(parse, stream))
  {
    var k := HeaderEnd(stream) + 1;
    var (a, b) := (stream[..k], stream[k..]);
    assert a + b == stream;
    HeaderEndExtends(a, b);
    assert HeaderEnd(a) == |a|;
    assert [] + a == a;
    DeliverWhole(parse, [], a);
    TwoPieces(a, b);
    var c := Deliver(parse, FRESH, a);
    assert Outcome(parse, FRESH, [a, b]) == Outcome(parse, c, [a, b][1..]) == c.future;
  }

  /** The printed line ends at the first CRLF and reads back as the response. */
  lemma PrintedLine(r: Response)
    requires '\r' !in r.meta
    ensures var line := Encode(LineText(r));
            && HeaderEnd(ToBytes(r)) == |line| < |ToBytes(r)|
            && ToBytes(r)[..|line|] == line && ParseResponse(line) == Some(r)
  {
    var line := Encode(LineText(r));
    EncodeConcat(LineText(r), "\r\n");
    Request.EncodeCrlf("");
    assert ToBytes(r) == line + [13, 10] + [];
    assert 13 !in line by {
      if '\r' in IntToString(r.status) { IntTextCharacters(r.status, '\r'); }
      AsciiTransparent(LineText(r), 13);
    }
    HeaderEndAt(line, []);
    DecodeEncode(LineText(r));
    LineRoundTrip(r);
  }

  /** A printed response resolves the client's future to itself, however it is cut up. */
  lemma ResponseTransport(r: Response, chunks: seq<seq<byte>>)
    requires '\r' !in r.meta && |Encode(LineText(r))| < MAX_RESPONSE_SIZE
    requires Chunking(chunks, ToBytes(r))
    ensures Outcome(ParseResponse, FRESH, chunks) == Resolved(r)
  {
    PrintedLine(r);
    assert StreamOutcome(ParseResponse, ToBytes(r)) == Resolved(r);
    assert !OverlongLine(ParseResponse, ToBytes(r));
    OutcomeExact(ParseResponse, ToBytes(r));
  }

  const LONG_RESPONSE := Response(20, seq(2045, _ => 'x'))

  /** One octet more and the response is lost in some fragmentation. */
  lemma LongResponseIsOverlong()
    ensures OverlongLine(ParseResponse, ToBytes(LONG_RESPONSE))
  {
    hide Encode, IntToString;
    assert IntToString(20) == "20" by { TwentyText(); }
    PrintedLine(LONG_RESPONSE);
    AsciiLength(LineText(LONG_RESPONSE));
  }

  lemma TwentyText()
    ensures IntToString(20) == "20"
  {
    assert NatToString(2) == "2";
  }
}
