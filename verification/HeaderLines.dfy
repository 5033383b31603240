/** Exactly which header lines the server accepts, and what it makes of the others. */
module HeaderLines {
  import opened Wrappers
  import opened Text
  import opened Utf8
  import opened Request
  import opened ServerReader

  predicate Names(mailbox: string, hostname: string, end: char) {
    && mailbox != "" && hostname != "" && '@' !in hostname
    && end !in mailbox && end !in hostname
  }

  /** The line reads `misfin://`, an address, TAB and a length, in at most 1024 octets. */
  predicate CLine(line: seq<byte>, mailbox: string, hostname: string, length: string, n: int) {
    && |line| <= 1024
    && Decode(line) == Some("misfin://" + mailbox + "@" + hostname + "\t" + length)
    && Names(mailbox, hostname, '\t')
    && ParseInt(length) == Some(n) && 0 <= n <= 16384
  }

  /** The line reads `misfin://`, an address, a space and a message, in at most 2048 octets. */
  predicate BLine(line: seq<byte>, mailbox: string, hostname: string, message: string) {
    && |line| <= 2048
    && Decode(line) == Some("misfin://" + mailbox + "@" + hostname + " " + message)
    && Names(mailbox, hostname, ' ') && message != ""
  }

  lemma CLineAccepted(line: seq<byte>, mailbox: string, hostname: string, length: string, n: int)
    requires CLine(line, mailbox, hostname, length, n)
    ensures FromHeader(line) == Success(Request(mailbox, hostname, n, [], line, None, C))
  {
    hide SplitAddress, ParseInt;
    var address := mailbox + "@" + hostname;
    var uri := "misfin://" + address;
    SplitJoinedAddress(mailbox, hostname);
    assert uri[|SCHEME|..] == address && SCHEME <= uri;
    assert '\t' !in uri by { assert forall c | c in uri :: c in SCHEME || c in mailbox || c == '@' || c in hostname; }
    ParseHeaderParts(uri, length);
    assert uri + ['\t'] + length == "misfin://" + mailbox + "@" + hostname + "\t" + length;
  }

  const SCHEME := "misfin://"

  /** A C header is accepted exactly when it has this form, and then with these fields. */
  lemma HeaderExact(line: seq<byte>, mailbox: string, hostname: string, n: nat)
    ensures FromHeader(line) == Success(Request(mailbox, hostname, n, [], line, None, C))
            <==> exists length :: CLine(line, mailbox, hostname, length, n)
  {
    if FromHeader(line) == Success(Request(mailbox, hostname, n, [], line, None, C)) {
      var length := AcceptedParts(line);
      assert CLine(line, mailbox, hostname, length, n);
    }
    if length :| CLine(line, mailbox, hostname, length, n) {
      CLineAccepted(line, mailbox, hostname, length, n);
    }
  }

  /** The parts of a line, put together in the two ways that it is read and written. */
  lemma Assembled(mailbox: string, hostname: string, end: char, rest: string)
    ensures "misfin://" + mailbox + "@" + hostname + [end] + rest
            == ("misfin://" + (mailbox + "@" + hostname)) + [end] + rest
            == "misfin://" + ((mailbox + "@" + hostname) + [end] + rest)
  {
  }

  lemma TextParts(text: string) returns (length: string)
    requires ParseHeaderText(text).Success?
    ensures var (mailbox, hostname, n) := ParseHeaderText(text).value;
            && text == "misfin://" + mailbox + "@" + hostname + "\t" + length
            && Names(mailbox, hostname, '\t') && ParseInt(length) == Some(n) && 0 <= n <= 16384
  {
    hide ParseInt, IndexOf, SplitAddress;
    var (mailbox, hostname, n) := ParseHeaderText(text).value;
    var tab := IndexOf(text, '\t');
    var uri := text[..tab];
    length := text[tab + 1..];
    var address := uri[|SCHEME|..];
    assert text == uri + ['\t'] + length && uri == SCHEME + address;
    assert address == mailbox + "@" + hostname;
    Assembled(mailbox, hostname, '\t', length);
    forall c | c in mailbox || c in hostname ensures c != '\t' {
      assert c in address && c in uri;
    }
  }

  lemma AcceptedParts(line: seq<byte>) returns (length: string)
    requires FromHeader(line).Success?
    ensures var r := FromHeader(line).value;
            && CLine(line, r.mailbox, r.hostname, length, r.contentLength)
            && r == Request(r.mailbox, r.hostname, r.contentLength, [], line, None, C)
  {
    hide ParseHeaderText, Decode, ParseInt, Names;
    length := TextParts(Decode(line).value);
  }

  /** A B line is accepted exactly when it has this form, and then with these fields. */
  lemma HeaderExactB(line: seq<byte>, mailbox: string, hostname: string, message: string)
    ensures FromHeaderB(line)
            == Success(Request(mailbox, hostname, |Encode(message)|, Encode(message), line, None, B))
            <==> BLine(line, mailbox, hostname, message)
  {
    if BLine(line, mailbox, hostname, message) {
      BLineAccepted(line, mailbox, hostname, message);
    }
    if FromHeaderB(line) == Success(Request(mailbox, hostname, |Encode(message)|, Encode(message), line, None, B)) {
      var found := AcceptedPartsB(line);
      DecodeEncode(found);
      DecodeEncode(message);
    }
  }

  lemma BLineAccepted(line: seq<byte>, mailbox: string, hostname: string, message: string)
    requires BLine(line, mailbox, hostname, message)
    ensures FromHeaderB(line)
            == Success(Request(mailbox, hostname, |Encode(message)|, Encode(message), line, None, B))
  {
    hide ParseHeaderTextB, Encode, Decode;
    TextOfB(mailbox, hostname, message);
  }

  lemma TextOfB(mailbox: string, hostname: string, message: string)
    requires Names(mailbox, hostname, ' ') && message != ""
    ensures ParseHeaderTextB("misfin://" + mailbox + "@" + hostname + " " + message)
            == Success((mailbox, hostname, message))
  {
    hide SplitAddress, IndexOf;
    var address := mailbox + "@" + hostname;
    var remainder := address + [' '] + message;
    var text := SCHEME + remainder;
    Assembled(mailbox, hostname, ' ', message);
    assert text[|SCHEME|..] == remainder && text[..|SCHEME|] == SCHEME;
    assert ' ' !in address by { assert forall c | c in address :: c in mailbox || c == '@' || c in hostname; }
    IndexOfAt(address, ' ', message);
    assert remainder[|address|] == ' ' && remainder[..|address|] == address && remainder[|address| + 1..] == message;
    SplitJoinedAddress(mailbox, hostname);
  }

  lemma TextPartsB(text: string)
    requires ParseHeaderTextB(text).Success?
    ensures var (mailbox, hostname, message) := ParseHeaderTextB(text).value;
            && text == "misfin://" + mailbox + "@" + hostname + " " + message
            && Names(mailbox, hostname, ' ') && message != ""
  {
    hide IndexOf, SplitAddress;
    var (mailbox, hostname, message) := ParseHeaderTextB(text).value;
    var remainder := text[|SCHEME|..];
    var space := IndexOf(remainder, ' ');
    var address := remainder[..space];
    assert text == SCHEME + remainder && remainder == address + [' '] + message;
    assert address == mailbox + "@" + hostname;
    Assembled(mailbox, hostname, ' ', message);
    forall c | c in mailbox || c in hostname ensures c != ' ' {
      assert c in address;
    }
  }

  lemma AcceptedPartsB(line: seq<byte>) returns (message: string)
    requires FromHeaderB(line).Success?
    ensures var r := FromHeaderB(line).value;
            && BLine(line, r.mailbox, r.hostname, message)
            && r == Request(r.mailbox, r.hostname, |Encode(message)|, Encode(message), line, None, B)
  {
    hide ParseHeaderTextB, Encode, Decode, Names;
    TextPartsB(Decode(line).value);
    message := ParseHeaderTextB(Decode(line).value).value.2;
  }

  /** The server's parser accepts exactly the lines of either form, the second without a TAB, for its peer. */
  lemma AcceptedExact(client: Option<Identity>, line: seq<byte>, q: Request)
    ensures ParserFor(client)(line) == Success(q)
            <==> || (exists length ::
                       && CLine(line, q.mailbox, q.hostname, length, q.contentLength)
                       && q == Request(q.mailbox, q.hostname, q.contentLength, [], line, client, C))
                 || (exists message ::
                       && 9 !in line && BLine(line, q.mailbox, q.hostname, message)
                       && q == Request(q.mailbox, q.hostname, |Encode(message)|, Encode(message), line, client, B))
  {
    hide FromHeader, FromHeaderB, CLine, BLine, Encode;
    if length :| CLine(line, q.mailbox, q.hostname, length, q.contentLength) {
      CLineAccepted(line, q.mailbox, q.hostname, length, q.contentLength);
    }
    if message :|
      && BLine(line, q.mailbox, q.hostname, message)
      && q == Request(q.mailbox, q.hostname, |Encode(message)|, Encode(message), line, client, B)
    {
      BLineAccepted(line, q.mailbox, q.hostname, message);
    }
    if FromHeader(line).Success? {
      var length := AcceptedParts(line);
      TabInLine(line);
    } else if FromHeaderB(line).Success? {
      var message := AcceptedPartsB(line);
      assert FromHeaderB(line).value.(client := client)
             == Request(FromHeaderB(line).value.mailbox, FromHeaderB(line).value.hostname,
                        |Encode(message)|, Encode(message), line, client, B);
    }
  }

  lemma TabInLine(line: seq<byte>)
    requires FromHeader(line).Success?
    ensures 9 in line
  {
    hide FromHeader;
    if 9 !in line { NoTabIsNotC(line); }
  }

  /** What the server decides on a whole stream: it depends on the line before the first CRLF. */
  lemma DecisionExact(client: Option<Identity>, line: seq<byte>, rest: seq<byte>)
    requires forall i :: !CrlfAt(line + [13], i)
    ensures var parsed := ParserFor(client)(line);
            match OneShot(ParserFor(client), line + [13, 10] + rest)
            case Reject(_) => parsed.Failure?
            case Wait => parsed.Success? && parsed.value.version.C? && |rest| < parsed.value.contentLength
            case Process(q) =>
              parsed.Success?
              && if parsed.value.version.B? || parsed.value.contentLength == 0 then q == parsed.value
                 else |rest| >= parsed.value.contentLength
                      && q == parsed.value.(rawMessage := rest[..parsed.value.contentLength])
  {
    hide FromHeader, FromHeaderB;
    var stream := line + [13, 10] + rest;
    assert HeaderEnd(stream) == |line| by {
      assert CrlfAt(stream, |line|);
      forall j | 0 <= j < |line| ensures !CrlfAt(stream, j) {
        assert !CrlfAt(line + [13], j);
        assert stream[j] == (line + [13])[j] && stream[j + 1] == (line + [13])[j + 1];
      }
    }
    WholeStream(ParserFor(client), stream);
    assert stream[..|line|] == line && stream[|line| + 2..] == rest;
  }

  /** Without a CRLF the server waits, until more than 2048 octets have come. */
  lemma UnfinishedExact(client: Option<Identity>, stream: seq<byte>)
    requires forall i :: !CrlfAt(stream, i)
    ensures var verdict := OneShot(ParserFor(client), stream);
            if |stream| > 2048 then verdict.Reject? else verdict.Wait?
  {
    WholeStream(ParserFor(client), stream);
  }

  /** A printed request whose message is over 16384 octets is rejected, however it is cut. */
  lemma LongMessageRejected(client: Option<Identity>, r: Request, chunks: seq<seq<byte>>)
    requires Plain(r.mailbox) && Plain(r.hostname) && '@' !in r.hostname && r.contentLength > 16384
    requires Chunking(chunks, ToBytes(r))
    ensures var decisions := FeedAll(ParserFor(client), START, chunks); |decisions| == 1 && decisions[0].Reject?
  {
    hide Bounded, FromHeader, FromHeaderB;
    var parse := ParserFor(client);
    var line := Encode(HeaderText(r));
    EncodeCrlf(HeaderText(r));
    HeaderHasNoCr(r);
    HeaderEndAt(line, r.rawMessage);
    assert ToBytes(r) == line + [13, 10] + r.rawMessage && ToBytes(r)[..|line|] == line;
    PrintedTab(r);
    LongLengthRefused(r);
    assert parse(line).Failure?;
    ParserForBounded(client);
    WholeStream(parse, ToBytes(r));
    FragmentationIndependence(parse, ToBytes(r), chunks);
  }

  lemma PrintedTab(r: Request)
    ensures 9 in Encode(HeaderText(r))
  {
    AsciiTransparent(HeaderText(r), 9);
    assert HeaderText(r)[|Uri(r)|] == '\t';
  }

  lemma LongLengthRefused(r: Request)
    requires Plain(r.mailbox) && Plain(r.hostname) && '@' !in r.hostname && r.contentLength > 16384
    ensures FromHeader(Encode(HeaderText(r))).Failure?
  {
    hide FromHeader, ParseInt, IntToString;
    var line := Encode(HeaderText(r));
    if FromHeader(line).Success? {
      var q := FromHeader(line).value;
      var length := AcceptedParts(line);
      DecodeEncode(HeaderText(r));
      var printed := IntToString(r.contentLength);
      var (a, b) := ("misfin://" + q.mailbox + "@" + q.hostname, Uri(r));
      assert '\t' !in a;
      assert '\t' !in b by { if '\t' in b { UriCharacters(r, '\t'); } }
      assert HeaderText(r) == a + ['\t'] + length == b + ['\t'] + printed;
      IndexOfAt(a, '\t', length);
      IndexOfAt(b, '\t', printed);
      assert length == HeaderText(r)[|a| + 1..] == printed;
      ParsePrintedInt(r.contentLength);
    }
  }
}
