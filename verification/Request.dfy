/** The constants of protocol/constants.py. */
module Constants {
  const MAX_HEADER_SIZE := 1024
  const MAX_CONTENT_LENGTH := 16384
  const MAX_METADATA_LINE_SIZE := 1024
  const MAX_RESPONSE_SIZE := 2048
  const MAX_B_REQUEST_SIZE := 2048
  const MAX_REDIRECTS := 5
  const SCHEME_PREFIX := "misfin://"
}

/** Misfin(C) and Misfin(B) request lines: parsers, printers and their round trips. */
module Request {
  import opened Wrappers
  import opened Constants
  import opened Text
  import opened Utf8

  datatype Version = B | C

  /** The identity a client certificate carries, with its normalized fingerprint. */
  datatype Identity = Identity(mailbox: string, hostname: string, blurb: string, fingerprint: string)

  datatype Request = Request(
    mailbox: string,
    hostname: string,
    contentLength: nat,
    rawMessage: seq<byte>,
    rawHeader: seq<byte>,
    client: Option<Identity>,
    version: Version)

  datatype HeaderError =
    | HeaderTooLong | InvalidUtf8 | MissingTab | InvalidScheme | InvalidAddress
    | InvalidLength | NegativeLength | LengthTooLarge | MissingSpace | EmptyMessage

  /** `address.rsplit("@", 1)` with both parts required. */
  function SplitAddress(address: string): (r: Result<(string, string), HeaderError>)
    ensures r.Success? ==>
              && r.value.0 != "" && r.value.1 != "" && '@' !in r.value.1
              && address == r.value.0 + "@" + r.value.1
  {
    if '@' !in address then Failure(InvalidAddress)
    else
      var i := LastIndexOf(address, '@');
      if i == 0 || i + 1 == |address| then Failure(InvalidAddress)
      else
        assert address == address[..i] + [address[i]] + address[i + 1..];
        Success((address[..i], address[i + 1..]))
  }

  lemma SplitJoinedAddress(mailbox: string, hostname: string)
    requires mailbox != "" && hostname != "" && '@' !in hostname
    ensures SplitAddress(mailbox + "@" + hostname) == Success((mailbox, hostname))
  {
    LastIndexOfAt(mailbox, '@', hostname);
    var address := mailbox + "@" + hostname;
    assert address[..|mailbox|] == mailbox && address[|mailbox| + 1..] == hostname;
  }

  function ParseLength(length: string): (r: Result<nat, HeaderError>)
    ensures r.Success? ==> r.value <= MAX_CONTENT_LENGTH
  {
    match ParseInt(length)
    case None => Failure(InvalidLength)
    case Some(n) =>
      if n < 0 then Failure(NegativeLength)
      else if n > MAX_CONTENT_LENGTH then Failure(LengthTooLarge)
      else Success(n)
  }

  /** Mailbox, hostname and content length of a decoded C header line. */
  function ParseHeaderText(text: string): (r: Result<(string, string, nat), HeaderError>)
    ensures r.Success? ==> r.value.2 <= MAX_CONTENT_LENGTH
  {
    if '\t' !in text then Failure(MissingTab)
    else
      var tab := IndexOf(text, '\t');
      var (uri, length) := (text[..tab], text[tab + 1..]);
      if !(SCHEME_PREFIX <= uri) then Failure(InvalidScheme)
      else
        var (mailbox, hostname) :- SplitAddress(uri[|SCHEME_PREFIX|..]);
        var n :- ParseLength(length);
        Success((mailbox, hostname, n))
  }

  function FromHeader(line: seq<byte>): (r: Result<Request, HeaderError>)
    ensures r.Success? ==>
              && |line| <= MAX_HEADER_SIZE && r.value.version.C?
              && r.value.contentLength <= MAX_CONTENT_LENGTH && r.value.rawMessage == []
  {
    if |line| > MAX_HEADER_SIZE then Failure(HeaderTooLong)
    else match Decode(line) {
      case None => Failure(InvalidUtf8)
      case Some(text) =>
        var (mailbox, hostname, n) :- ParseHeaderText(text);
        Success(Request(mailbox, hostname, n, [], line, None, C))
    }
  }

  /** Mailbox, hostname and message text of a decoded B line. */
  function ParseHeaderTextB(text: string): (r: Result<(string, string, string), HeaderError>)
    ensures r.Success? ==> r.value.2 != ""
  {
    if !(SCHEME_PREFIX <= text) then Failure(InvalidScheme)
    else
      var remainder := text[|SCHEME_PREFIX|..];
      if ' ' !in remainder then Failure(MissingSpace)
      else
        var space := IndexOf(remainder, ' ');
        var message := remainder[space + 1..];
        var (mailbox, hostname) :- SplitAddress(remainder[..space]);
        if message == "" then Failure(EmptyMessage) else Success((mailbox, hostname, message))
  }

  function FromHeaderB(line: seq<byte>): (r: Result<Request, HeaderError>)
    ensures r.Success? ==> |line| <= MAX_B_REQUEST_SIZE && r.value.version.B?
  {
    if |line| > MAX_B_REQUEST_SIZE then Failure(HeaderTooLong)
    else match Decode(line) {
      case None => Failure(InvalidUtf8)
      case Some(text) =>
        var (mailbox, hostname, message) :- ParseHeaderTextB(text);
        var raw := Encode(message);
        Success(Request(mailbox, hostname, |raw|, raw, line, None, B))
    }
  }

  function Uri(r: Request): string {
    SCHEME_PREFIX + (r.mailbox + "@" + r.hostname)
  }

  /** The header text of `to_bytes`, without the CRLF that ends it. */
  function HeaderText(r: Request): string {
    Uri(r) + "\t" + IntToString(r.contentLength)
  }

  function ToBytes(r: Request): seq<byte> {
    Encode(HeaderText(r) + "\r\n") + r.rawMessage
  }

  /** The message body without its three metadata lines, newlines collapsed to spaces. */
  function CollapsedBody(r: Request): Result<string, HeaderError> {
    if r.rawMessage == [] then Success("")
    else match Decode(r.rawMessage) {
      case None => Failure(InvalidUtf8)
      case Some(text) =>
        var lines := Split(text, '\n');
        Success(Collapse(if |lines| >= 4 then Join(lines[3..], "\n") else text))
    }
  }

  /** What a B request carries: behind three lines the rest, with single spaces between its words. */
  lemma CollapsedExact(r: Request, a: string, b: string, c: string, rest: string)
    requires '\n' !in a && '\n' !in b && '\n' !in c
    requires r.rawMessage == Encode(a + "\n" + (b + "\n" + (c + "\n" + rest)))
    ensures CollapsedBody(r) == Success(Join(Words(rest), " "))
  {
    hide Split, Encode, Words, Decode;
    var text := a + "\n" + (b + "\n" + (c + "\n" + rest));
    DecodeEncode(text);
    EncodeNonEmpty(text);
    ThreeLines(a, b, c, rest);
    JoinSplit(rest, '\n');
  }

  /** Without three lines in front, it is the whole text. */
  lemma ShortCollapsedExact(r: Request, text: string, a: string, b: string, c: string)
    requires '\n' !in a && '\n' !in b && '\n' !in c && r.rawMessage == Encode(text)
    requires text == a || text == a + "\n" + b || text == a + "\n" + (b + "\n" + c)
    ensures CollapsedBody(r) == Success(Join(Words(text), " "))
  {
    hide Split, Encode, Words, Decode;
    DecodeEncode(text);
    ThreeLines(a, b, c, "");
    EncodeNonEmpty(text);
    if r.rawMessage == [] { NoWords(); }
  }

  lemma ThreeLines(a: string, b: string, c: string, rest: string)
    requires '\n' !in a && '\n' !in b && '\n' !in c
    ensures Split(a, '\n') == [a] && Split(a + "\n" + b, '\n') == [a, b]
    ensures Split(a + "\n" + (b + "\n" + c), '\n') == [a, b, c]
    ensures Split(a + "\n" + (b + "\n" + (c + "\n" + rest)), '\n') == [a, b, c] + Split(rest, '\n')
  {
    hide Split;
    SplitWhole(a, '\n');
    SplitWhole(b, '\n');
    SplitWhole(c, '\n');
    SplitStep(a, '\n', b);
    assert a + "\n" + b == a + ['\n'] + b;
    SplitStep(b, '\n', c);
    SplitStep(a, '\n', b + ['\n'] + c);
    assert a + "\n" + (b + "\n" + c) == a + ['\n'] + (b + ['\n'] + c);
    SplitStep(c, '\n', rest);
    SplitStep(b, '\n', c + ['\n'] + rest);
    SplitStep(a, '\n', b + ['\n'] + (c + ['\n'] + rest));
    assert a + "\n" + (b + "\n" + (c + "\n" + rest)) == a + ['\n'] + (b + ['\n'] + (c + ['\n'] + rest));
  }

  function HeaderTextB(r: Request, body: string): string {
    Uri(r) + " " + body
  }

  function ToBytesB(r: Request): Result<seq<byte>, HeaderError> {
    var body :- CollapsedBody(r);
    var bytes := Encode(HeaderTextB(r, body) + "\r\n");
    if |bytes| > MAX_B_REQUEST_SIZE + 2 then Failure(HeaderTooLong) else Success(bytes)
  }

  predicate Plain(s: string) {
    s != "" && '\t' !in s && '\r' !in s && '\n' !in s
  }

  predicate PlainB(s: string) {
    Plain(s) && ' ' !in s
  }

  lemma EncodeCrlf(s: string)
    ensures Encode(s + "\r\n") == Encode(s) + [13, 10]
  {
    EncodeConcat(s, "\r\n");
    assert "\r\n"[1..] == "\n" && "\n"[1..] == "";
    assert Encode("\n") == [10];
    assert Encode("\r\n") == [13, 10];
  }

  lemma UriCharacters(r: Request, c: char)
    requires c in Uri(r)
    ensures c in r.mailbox || c in r.hostname || c in "misfin:/@"
  {
  }

  lemma UriAddress(r: Request)
    ensures SCHEME_PREFIX <= Uri(r) && Uri(r)[|SCHEME_PREFIX|..] == r.mailbox + "@" + r.hostname
  {
  }

  lemma ParseHeaderParts(uri: string, length: string)
    requires '\t' !in uri && SCHEME_PREFIX <= uri
    requires SplitAddress(uri[|SCHEME_PREFIX|..]).Success? && ParseLength(length).Success?
    ensures var address := SplitAddress(uri[|SCHEME_PREFIX|..]).value;
            ParseHeaderText(uri + ['\t'] + length) == Success((address.0, address.1, ParseLength(length).value))
  {
    var text := uri + ['\t'] + length;
    IndexOfAt(uri, '\t', length);
    assert text[|uri|] == '\t';
    assert text[..|uri|] == uri && text[|uri| + 1..] == length;
  }

  lemma ParsePrintedHeader(r: Request)
    requires Plain(r.mailbox) && Plain(r.hostname) && '@' !in r.hostname
    requires r.contentLength <= MAX_CONTENT_LENGTH
    ensures ParseHeaderText(HeaderText(r)) == Success((r.mailbox, r.hostname, r.contentLength))
  {
    var length := IntToString(r.contentLength);
    assert '\t' !in Uri(r) by { if '\t' in Uri(r) { UriCharacters(r, '\t'); } }
    assert ParseLength(length) == Success(r.contentLength) by { ParsePrintedInt(r.contentLength); }
    assert SCHEME_PREFIX <= Uri(r) && SplitAddress(Uri(r)[|SCHEME_PREFIX|..]) == Success((r.mailbox, r.hostname)) by {
      UriAddress(r);
      SplitJoinedAddress(r.mailbox, r.hostname);
    }
    ParseHeaderParts(Uri(r), length);
  }

  /** A printed C header parses back to the request it came from, body still to come. */
  lemma HeaderRoundTrip(r: Request)
    requires Plain(r.mailbox) && Plain(r.hostname) && '@' !in r.hostname
    requires r.contentLength <= MAX_CONTENT_LENGTH
    requires |Encode(HeaderText(r))| <= MAX_HEADER_SIZE
    ensures var line := Encode(HeaderText(r));
            FromHeader(line) == Success(Request(r.mailbox, r.hostname, r.contentLength, [], line, None, C))
  {
    DecodeEncode(HeaderText(r));
    ParsePrintedHeader(r);
  }

  lemma ParsePrintedHeaderB(r: Request, body: string)
    requires PlainB(r.mailbox) && PlainB(r.hostname) && '@' !in r.hostname
    requires body != ""
    ensures ParseHeaderTextB(HeaderTextB(r, body)) == Success((r.mailbox, r.hostname, body))
  {
    hide SplitAddress;
    var text := HeaderTextB(r, body);
    var address := r.mailbox + "@" + r.hostname;
    UriAddress(r);
    var remainder := text[|SCHEME_PREFIX|..];
    assert text[..|SCHEME_PREFIX|] == SCHEME_PREFIX;
    assert remainder == address + [' '] + body;
    assert remainder[|address|] == ' ';
    IndexOfAt(address, ' ', body);
    assert remainder[..|address|] == address && remainder[|address| + 1..] == body;
    SplitJoinedAddress(r.mailbox, r.hostname);
  }

  /** A printed B line parses back to the collapsed text, addressed as before. */
  lemma HeaderRoundTripB(r: Request, body: string)
    requires PlainB(r.mailbox) && PlainB(r.hostname) && '@' !in r.hostname
    requires body != ""
    requires |Encode(HeaderTextB(r, body))| <= MAX_B_REQUEST_SIZE
    ensures var line := Encode(HeaderTextB(r, body));
            FromHeaderB(line)
            == Success(Request(r.mailbox, r.hostname, |Encode(body)|, Encode(body), line, None, B))
  {
    DecodeEncode(HeaderTextB(r, body));
    ParsePrintedHeaderB(r, body);
  }

  /** The printer's limit counts the CRLF, the parser's does not: they admit the same lines. */
  lemma LimitsAgreeB(r: Request)
    requires CollapsedBody(r).Success?
    ensures var line := Encode(HeaderTextB(r, CollapsedBody(r).value));
            && (ToBytesB(r).Success? <==> FromHeaderB(line) != Failure(HeaderTooLong))
            && (ToBytesB(r).Success? ==> ToBytesB(r).value == line + [13, 10])
  {
    EncodeCrlf(HeaderTextB(r, CollapsedBody(r).value));
  }

  lemma HeaderHasNoCr(r: Request)
    requires Plain(r.mailbox) && Plain(r.hostname)
    ensures 13 !in Encode(HeaderText(r))
  {
    if '\r' in Uri(r) { UriCharacters(r, '\r'); }
    AsciiTransparent(HeaderText(r), 13);
  }

  lemma CollapsedBodySpaces(r: Request, c: char)
    requires CollapsedBody(r).Success? && c in CollapsedBody(r).value && IsSpace(c)
    ensures c == ' '
  {
    if r.rawMessage != [] {
      var whole := Decode(r.rawMessage).value;
      var lines := Split(whole, '\n');
      CollapseSpaces(if |lines| >= 4 then Join(lines[3..], "\n") else whole, c);
    }
  }

  lemma HeaderBHasNoCrOrTab(r: Request)
    requires PlainB(r.mailbox) && PlainB(r.hostname) && CollapsedBody(r).Success?
    ensures var line := Encode(HeaderTextB(r, CollapsedBody(r).value)); 13 !in line && 9 !in line
  {
    var body := CollapsedBody(r).value;
    if '\r' in body { CollapsedBodySpaces(r, '\r'); }
    if '\t' in body { CollapsedBodySpaces(r, '\t'); }
    if '\r' in Uri(r) { UriCharacters(r, '\r'); }
    if '\t' in Uri(r) { UriCharacters(r, '\t'); }
    AsciiTransparent(HeaderTextB(r, body), 13);
    AsciiTransparent(HeaderTextB(r, body), 9);
  }
}
