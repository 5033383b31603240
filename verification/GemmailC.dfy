/** The C message: three metadata lines, then the body. Printing and re-reading it. */
module GemmailC {
  import opened Wrappers
  import opened Constants
  import opened Text
  import opened Utf8
  import opened Calendar
  import opened Gemmail

  function SenderLine(m: Message): string {
    PrintLine(PrintAddress, m.senders)
  }

  function RecipientLine(m: Message): string {
    PrintLine(PrintAddress, m.recipients)
  }

  function TimestampLine(m: Message): string {
    PrintLine(Stamp, m.timestamps)
  }

  /** The text `to_bytes` encodes. */
  function MessageText(m: Message): string {
    SenderLine(m) + "\n" + (RecipientLine(m) + "\n" + (TimestampLine(m) + "\n" + m.body))
  }

  function ToBytes(m: Message): seq<byte> {
    Encode(MessageText(m))
  }

  predicate LineFits(line: string) {
    |Encode(line + "\n")| <= MAX_METADATA_LINE_SIZE
  }

  lemma ShortLineFits(line: string)
    requires |line| <= 200
    ensures LineFits(line)
  {
    EncodeBound(line + "\n");
  }

  function ParseMetadata(lines: seq<string>): Result<Message, FormatError>
    requires |lines| >= 4
  {
    if !(LineFits(lines[0]) && LineFits(lines[1]) && LineFits(lines[2])) then Failure(LineTooLong)
    else
      var senders :- ParseLine(ParseAddress, lines[0]);
      var recipients :- ParseLine(ParseAddress, lines[1]);
      var timestamps :- ParseLine(ParseTimestamp, lines[2]);
      Success(Message(senders, recipients, timestamps, Join(lines[3..], "\n")))
  }

  function ParseText(text: string): Result<Message, FormatError> {
    if !CrOnlyBeforeLf(text) then Failure(StrayCr)
    else
      var lines := Split(NormalizeNewlines(text), '\n');
      if |lines| < 4 then Failure(TooFewLines) else ParseMetadata(lines)
  }

  /** `GemmailMessage.from_bytes`. */
  function FromBytes(data: seq<byte>): Result<Message, FormatError> {
    match Decode(data)
    case None => Failure(InvalidUtf8)
    case Some(text) => ParseText(text)
  }

  // -- What a parsed message looks like --

  predicate LineFree(s: string) {
    '\n' !in s && '\r' !in s
  }

  /** An address that a metadata line can hold. */
  predicate ListSafe(a: Address) {
    && Canonical(a) && ',' !in a.mailbox && ',' !in a.hostname
    && LineFree(a.mailbox) && LineFree(a.hostname) && LineFree(a.blurb)
  }

  /** Addresses that a metadata line can hold, and real times. */
  ghost predicate SafeMetadata(m: Message) {
    && (forall a | a in m.senders :: ListSafe(a))
    && (forall a | a in m.recipients :: ListSafe(a))
    && (forall t | t in m.timestamps :: Valid(t))
  }

  /** A message whose text can be read back: safe addresses, real times, no CR in the body. */
  ghost predicate Printable(m: Message) {
    SafeMetadata(m) && '\r' !in m.body
  }

  predicate Fits(m: Message) {
    LineFits(SenderLine(m)) && LineFits(RecipientLine(m)) && LineFits(TimestampLine(m))
  }

  /** The message with every timestamp cut to the second, as `strftime` prints it. */
  function Truncated(m: Message): Message {
    m.(timestamps := Map(WholeSecond, m.timestamps))
  }

  function Same<T>(): T -> T {
    x => x
  }

  lemma {:induction false} MapSame<T>(xs: seq<T>)
    ensures Map(Same<T>(), xs) == xs
  {
    if xs != [] { MapSame(xs[1..]); }
  }

  lemma AddressCharacters(a: Address, c: char)
    requires ListSafe(a) && c in a.Print()
    ensures c != ',' && c != '\n' && c != '\r'
  {
  }

  lemma AddressListable(a: Address)
    requires ListSafe(a)
    ensures Listable(ParseAddress, PrintAddress, Same<Address>(), a)
  {
    PrintIsTrimmed(a);
    ParsePrintedAddress(a);
    if ',' in a.Print() { AddressCharacters(a, ','); }
  }

  lemma StampListable(t: DateTime)
    requires Valid(t)
    ensures Listable(ParseTimestamp, Stamp, WholeSecond, t)
  {
    var s := Stamp(t);
    StampRoundTrip(t);
    assert s[0] in s && s[|s| - 1] in s;
    StampCharacters(t, s[0]);
    StampCharacters(t, s[|s| - 1]);
    if ',' in s { StampCharacters(t, ','); }
  }

  lemma AddressesReadBack(xs: seq<Address>)
    requires forall a | a in xs :: ListSafe(a)
    ensures ParseLine(ParseAddress, PrintLine(PrintAddress, xs)) == Success(xs)
  {
    forall a | a in xs ensures Listable(ParseAddress, PrintAddress, Same<Address>(), a) {
      AddressListable(a);
    }
    LineRoundTrip(ParseAddress, PrintAddress, Same<Address>(), xs);
    MapSame(xs);
  }

  lemma StampsReadBack(ts: seq<DateTime>)
    requires forall t | t in ts :: Valid(t)
    ensures ParseLine(ParseTimestamp, PrintLine(Stamp, ts)) == Success(Map(WholeSecond, ts))
  {
    forall t | t in ts ensures Listable(ParseTimestamp, Stamp, WholeSecond, t) {
      StampListable(t);
    }
    LineRoundTrip(ParseTimestamp, Stamp, WholeSecond, ts);
  }

  lemma PrintedLineFree(xs: seq<Address>)
    requires forall a | a in xs :: LineFree(a.Print())
    ensures LineFree(PrintLine(PrintAddress, xs))
  {
    var line := PrintLine(PrintAddress, xs);
    forall c | c in line ensures c != '\n' && c != '\r' {
      LineCharacters(PrintAddress, xs, c);
      if c != ',' && c != ' ' {
        var a :| a in xs && c in PrintAddress(a);
        assert LineFree(a.Print());
      }
    }
  }

  lemma AddressLineFree(xs: seq<Address>)
    requires forall a | a in xs :: ListSafe(a)
    ensures LineFree(PrintLine(PrintAddress, xs))
  {
    PrintedLineFree(xs);
  }

  lemma StampLineFree(ts: seq<DateTime>)
    ensures LineFree(PrintLine(Stamp, ts))
  {
    var line := PrintLine(Stamp, ts);
    forall c | c in line ensures c != '\n' && c != '\r' {
      LineCharacters(Stamp, ts, c);
      if c != ',' && c != ' ' {
        var t :| t in ts && c in Stamp(t);
        StampCharacters(t, c);
      }
    }
  }

  /** Four texts joined by line feeds split into the first three and the lines of the last. */
  lemma SplitFour(a: string, b: string, c: string, body: string)
    requires '\n' !in a && '\n' !in b && '\n' !in c
    ensures var lines := Split(a + "\n" + (b + "\n" + (c + "\n" + body)), '\n');
            && |lines| >= 4 && lines[0] == a && lines[1] == b && lines[2] == c
            && lines[3..] == Split(body, '\n')
  {
    hide Split;
    var third := c + ['\n'] + body;
    var second := b + ['\n'] + third;
    SplitStep(c, '\n', body);
    SplitStep(b, '\n', third);
    SplitStep(a, '\n', second);
    assert a + "\n" + (b + "\n" + (c + "\n" + body)) == a + ['\n'] + second;
  }

  /**
   What reading a printed message gives: the message with whole-second timestamps, or, when a
   metadata line has outgrown the limit, that error.
   */
  lemma Reparse(m: Message)
    requires Printable(m)
    ensures FromBytes(ToBytes(m)) == if Fits(m) then Success(Truncated(m)) else Failure(LineTooLong)
  {
    hide Split, Join, NormalizeNewlines, PrintLine, ParseLine, LineFits, Map;
    var text := MessageText(m);
    AddressLineFree(m.senders);
    AddressLineFree(m.recipients);
    StampLineFree(m.timestamps);
    assert '\r' !in text;
    NormalizeCrFree(text);
    DecodeEncode(text);
    SplitFour(SenderLine(m), RecipientLine(m), TimestampLine(m), m.body);
    JoinSplit(m.body, '\n');
    AddressesReadBack(m.senders);
    AddressesReadBack(m.recipients);
    StampsReadBack(m.timestamps);
  }

  // -- Reading back any message, whatever its addresses hold --

  /** The lines that the three metadata lines of a printed message read back as. */
  function HeadLines(m: Message): (lines: seq<string>)
    ensures |lines| >= 3
  {
    FieldLines(SenderLine(m)) + FieldLines(RecipientLine(m)) + [TimestampLine(m)]
  }

  predicate HeadReads(lines: seq<string>)
    requires |lines| >= 3
  {
    && LineFits(lines[0]) && LineFits(lines[1]) && LineFits(lines[2])
    && ParseLine(ParseAddress, lines[0]).Success? && ParseLine(ParseAddress, lines[1]).Success?
    && ParseLine(ParseTimestamp, lines[2]).Success?
  }

  /** No CR of the addresses or the body is stray in the printed message. */
  predicate NothingStray(m: Message) {
    Sturdy(SenderLine(m)) && Sturdy(RecipientLine(m)) && CrOnlyBeforeLf(m.body)
  }

  lemma ReadBackLines(m: Message)
    ensures FromBytes(ToBytes(m))
            == if !NothingStray(m) then Failure(StrayCr)
               else ParseMetadata(HeadLines(m) + Split(NormalizeNewlines(m.body), '\n'))
  {
    hide Split, PrintLine, FieldLines, Sturdy, CrOnlyBeforeLf, NormalizeNewlines, ParseMetadata;
    var stamps := TimestampLine(m) + "\n" + m.body;
    var recipients := RecipientLine(m) + "\n" + stamps;
    var text := SenderLine(m) + "\n" + recipients;
    DecodeEncode(text);
    assert MessageText(m) == text;
    FieldSplit(SenderLine(m), recipients);
    FieldSplit(RecipientLine(m), stamps);
    FieldSplit(TimestampLine(m), m.body);
    StampLineFree(m.timestamps);
    FieldIsLine(TimestampLine(m));
    var body := Split(NormalizeNewlines(m.body), '\n');
    var (a, b, c) := (FieldLines(SenderLine(m)), FieldLines(RecipientLine(m)), [TimestampLine(m)]);
    assert a + (b + (c + body)) == HeadLines(m) + body;
  }

  /**
   What any printed message reads back as: the first three of its lines are the metadata, and what
   line breaks in an address have pushed behind them comes in front of the body.
   */
  lemma ReadBack(m: Message)
    ensures var (back, head) := (FromBytes(ToBytes(m)), HeadLines(m));
            && (back.Success? <==> NothingStray(m) && HeadReads(head))
            && (back.Success? ==>
                  && back.value.senders == ParseLine(ParseAddress, head[0]).value
                  && back.value.recipients == ParseLine(ParseAddress, head[1]).value
                  && Split(back.value.body, '\n') == head[3..] + Split(NormalizeNewlines(m.body), '\n')
                  && (|head| == 3 ==> back.value.body == NormalizeNewlines(m.body)))
  {
    hide Split, FieldLines, NormalizeNewlines, LineFits, ParseLine, Join, NothingStray, FromBytes, ToBytes;
    ReadBackLines(m);
    var (head, body) := (HeadLines(m), Split(NormalizeNewlines(m.body), '\n'));
    var lines := head + body;
    assert lines[3..] == head[3..] + body;
    forall p | p in lines[3..] ensures '\n' !in p {
      HeadLinesAreLines(m);
      if p in body { SplitPieces(NormalizeNewlines(m.body), '\n', p); }
    }
    SplitJoin(lines[3..], '\n');
    JoinSplit(NormalizeNewlines(m.body), '\n');
    if |head| == 3 { assert lines[3..] == body; }
  }

  lemma HeadLinesAreLines(m: Message)
    ensures forall p | p in HeadLines(m) :: '\n' !in p
  {
    hide Split, PrintLine;
    StampLineFree(m.timestamps);
    forall p | p in HeadLines(m) ensures '\n' !in p {
      if p in FieldLines(SenderLine(m)) {
        FieldLinesAreLines(SenderLine(m), p);
      } else if p in FieldLines(RecipientLine(m)) {
        FieldLinesAreLines(RecipientLine(m), p);
      }
    }
  }

  lemma FieldLinesAreLines(field: string, p: string)
    requires p in FieldLines(field)
    ensures '\n' !in p
  {
    hide Split, NormalizeNewlines;
    EndedInLf(field);
    SplitPieces(Ended(field)[..|Ended(field)| - 1], '\n', p);
  }

  /** Exactly when the body of a message survives: when no address line has brought in a line feed. */
  lemma BodySurvivesExact(m: Message)
    requires '\r' !in m.body && FromBytes(ToBytes(m)).Success?
    ensures FromBytes(ToBytes(m)).value.body == m.body <==> '\n' !in SenderLine(m) && '\n' !in RecipientLine(m)
  {
    hide FromBytes, ToBytes, FieldLines, Split, PrintLine, NormalizeNewlines, HeadReads, NothingStray;
    ReadBack(m);
    NormalizeCrFree(m.body);
    FieldLinesCount(SenderLine(m));
    FieldLinesCount(RecipientLine(m));
    var (head, body) := (HeadLines(m), Split(m.body, '\n'));
    if |head| > 3 { assert |head[3..] + body| > |body|; }
  }

  /** A stray CR in the body makes a printed message unreadable, whatever its metadata. */
  lemma StrayCrUnreadable(m: Message)
    requires !CrOnlyBeforeLf(m.body)
    ensures FromBytes(ToBytes(m)) == Failure(StrayCr)
  {
    hide FromBytes, ToBytes, ParseMetadata, HeadLines, CrOnlyBeforeLf;
    ReadBackLines(m);
  }

  /** A body with CRLF line ends reads back with LF line ends. */
  lemma ReparseNormalized(m: Message)
    requires SafeMetadata(m) && CrOnlyBeforeLf(m.body)
    ensures FromBytes(ToBytes(m))
            == if Fits(m) then Success(Truncated(m.(body := NormalizeNewlines(m.body)))) else Failure(LineTooLong)
  {
    hide FromBytes, ToBytes, ParseMetadata, FieldLines, Sturdy, Split, NormalizeNewlines, PrintLine, LineFits, ListSafe;
    var clean := m.(body := NormalizeNewlines(m.body));
    NormalizedIsCrFree(m.body);
    NormalizeCrFree(clean.body);
    ReadBackLines(m);
    ReadBackLines(clean);
    AddressLineFree(m.senders);
    AddressLineFree(m.recipients);
    FieldIsLine(SenderLine(m));
    FieldIsLine(RecipientLine(m));
    Reparse(clean);
  }

  // -- Parsed messages are printable --

  lemma {:induction false} ItemsOrigin<T>(parse: ItemParser<T>, items: seq<string>, x: T) returns (item: string)
    requires ParseItems(parse, items).Success? && x in ParseItems(parse, items).value
    ensures item in items && parse(Strip(item)) == Success(x)
  {
    var first := Strip(items[0]);
    if first != "" && parse(first) == Success(x) {
      item := items[0];
    } else {
      item := ItemsOrigin(parse, items[1..], x);
    }
  }

  /** Each item of a list line comes from a comma-free piece of the line. */
  lemma LineOrigin<T>(parse: ItemParser<T>, line: string, x: T) returns (item: string)
    requires ParseLine(parse, line).Success? && x in ParseLine(parse, line).value
    ensures parse(item) == Success(x)
    ensures forall c | c in item :: c in line && c != ','
  {
    var t := Strip(line);
    var piece := ItemsOrigin(parse, Split(t, ','), x);
    item := Strip(piece);
    SplitPieces(t, ',', piece);
    forall c | c in item ensures c in line && c != ',' {
      StripCharacters(piece, c);
      StripCharacters(line, c);
    }
  }

  lemma ParsedAddressesSafe(line: string, a: Address)
    requires LineFree(line)
    requires ParseLine(ParseAddress, line).Success? && a in ParseLine(ParseAddress, line).value
    ensures ListSafe(a)
  {
    hide ParseAddress, Canonical, ParseLine;
    var item := LineOrigin(ParseAddress, line, a);
    ParsedIsCanonical(item);
    forall c | c in a.mailbox || c in a.hostname || c in a.blurb ensures c in item {
      ParsedCharacters(item, c);
    }
    assert ListSafe(a) by { SafeFrom(a, item, line); }
  }

  lemma SafeFrom(a: Address, item: string, line: string)
    requires Canonical(a) && LineFree(line)
    requires forall c | c in item :: c in line && c != ','
    requires forall c | c in a.mailbox || c in a.hostname || c in a.blurb :: c in item
    ensures ListSafe(a)
  {
  }

  lemma ParsedStampsValid(line: string, t: DateTime)
    requires ParseLine(ParseTimestamp, line).Success? && t in ParseLine(ParseTimestamp, line).value
    ensures Valid(t)
  {
    var item := LineOrigin(ParseTimestamp, line, t);
  }

  lemma {:induction false} JoinPieces(parts: seq<string>, c: char)
    requires c in Join(parts, "\n") && c != '\n'
    ensures exists p :: p in parts && c in p
  {
    JoinCharacters(parts, "\n", c);
  }

  lemma ParsedIsPrintable(data: seq<byte>)
    requires FromBytes(data).Success?
    ensures Printable(FromBytes(data).value)
  {
    hide Split, NormalizeNewlines, ParseLine, LineFits, Join, ListSafe;
    var m := FromBytes(data).value;
    var source := Decode(data).value;
    var text := NormalizeNewlines(source);
    NormalizedIsCrFree(source);
    var lines := Split(text, '\n');
    forall p | p in lines ensures LineFree(p) {
      SplitPieces(text, '\n', p);
    }
    forall a | a in m.senders ensures ListSafe(a) { ParsedAddressesSafe(lines[0], a); }
    forall a | a in m.recipients ensures ListSafe(a) { ParsedAddressesSafe(lines[1], a); }
    forall t | t in m.timestamps ensures Valid(t) { ParsedStampsValid(lines[2], t); }
    forall c | c in m.body && c != '\n' ensures c != '\r' {
      JoinPieces(lines[3..], c);
      var p :| p in lines[3..] && c in p;
      assert LineFree(p);
    }
  }

  predicate WholeSeconds(m: Message) {
    forall t | t in m.timestamps :: t.micro == 0
  }

  lemma {:induction false} TruncationExact(ts: seq<DateTime>)
    ensures Map(WholeSecond, ts) == ts <==> forall t | t in ts :: t.micro == 0
  {
    if ts != [] {
      TruncationExact(ts[1..]);
      assert ts == [ts[0]] + ts[1..];
      assert forall t | t in ts :: t == ts[0] || t in ts[1..];
      assert ts[0] in ts && forall t | t in ts[1..] :: t in ts;
    }
  }

  /** A well-formed message is what its printed form reads back as. */
  lemma MessageRoundTrip(m: Message)
    requires Printable(m) && WholeSeconds(m) && Fits(m)
    ensures FromBytes(ToBytes(m)) == Success(m)
  {
    Reparse(m);
    TruncationExact(m.timestamps);
  }

  /** Exactly when a printed message reads back as what it was, up to fractions of a second. */
  lemma ReadBackExact(m: Message)
    requires forall t | t in m.timestamps :: Valid(t)
    ensures FromBytes(ToBytes(m)) == Success(Truncated(m)) <==> Printable(m) && Fits(m)
  {
    hide FromBytes, ToBytes, ListSafe, Fits;
    if FromBytes(ToBytes(m)) == Success(Truncated(m)) {
      ParsedIsPrintable(ToBytes(m));
    }
    if Printable(m) { Reparse(m); }
  }

  /**
   Any bytes that parse are in normal form after one round of printing and parsing, exactly when the
   timestamps have no fraction of a second and the re-printed metadata lines still fit.
   */
  lemma NormalFormExact(data: seq<byte>)
    requires FromBytes(data).Success?
    ensures var m := FromBytes(data).value;
            FromBytes(ToBytes(m)) == FromBytes(data) <==> WholeSeconds(m) && Fits(m)
  {
    hide FromBytes;
    var m := FromBytes(data).value;
    ParsedIsPrintable(data);
    Reparse(m);
    TruncationExact(m.timestamps);
  }

  /** `from_bytes` as the source runs it, calling the two list loops. */
  method ReadMessage(data: seq<byte>) returns (r: Result<Message, FormatError>)
    ensures r == FromBytes(data)
  {
    hide Split, NormalizeNewlines, ParseLine, Join, Decode, Encode;
    var decoded := Decode(data);
    if decoded.None? {
      return Failure(InvalidUtf8);
    }
    var text := decoded.value;
    for i := 0 to |text|
      invariant forall j | 0 <= j < i && text[j] == '\r' :: j + 1 < |text| && text[j + 1] == '\n'
    {
      if text[i] == '\r' && (i + 1 >= |text| || text[i + 1] != '\n') {
        return Failure(StrayCr);
      }
    }
    var lines := Split(NormalizeNewlines(text), '\n');
    if |lines| < 4 {
      return Failure(TooFewLines);
    }
    for i := 0 to 3
      invariant forall j | 0 <= j < i :: LineFits(lines[j])
    {
      if |Encode(lines[i] + "\n")| > MAX_METADATA_LINE_SIZE {
        return Failure(LineTooLong);
      }
    }
    var senders := ParseAddressLine(lines[0]);
    if senders.Failure? {
      return Failure(senders.error);
    }
    var recipients := ParseAddressLine(lines[1]);
    if recipients.Failure? {
      return Failure(recipients.error);
    }
    var timestamps := ParseTimestampLine(lines[2]);
    if timestamps.Failure? {
      return Failure(timestamps.error);
    }
    return Success(Message(senders.value, recipients.value, timestamps.value, Join(lines[3..], "\n")));
  }
}
