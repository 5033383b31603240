/** How the server rewrites an accepted message before storing it: stamping, and B turned into C. */
module Preparation {
  import opened Wrappers
  import opened Text
  import opened Utf8
  import opened Calendar
  import opened Gemmail
  import opened GemmailC
  import opened GemmailB
  import Request

  /** `parse_message`: the version decides the form. */
  function ParseMessage(r: Request.Request): Result<Message, FormatError> {
    if r.version.B? then FromBytesB(r.rawMessage) else FromBytes(r.rawMessage)
  }

  /** The address in the client certificate, when it has both parts. */
  function CertificateSender(r: Request.Request): Option<Address> {
    SenderOf(r.client)
  }

  function SenderOf(client: Option<Request.Identity>): Option<Address> {
    match client
    case None => None
    case Some(id) =>
      if id.mailbox != "" && id.hostname != "" then Some(Address(id.mailbox, id.hostname, id.blurb)) else None
  }

  /** The sender a certificate speaks for, if any. */
  function OwnSenders(client: Option<Request.Identity>): seq<Address> {
    match SenderOf(client)
    case Some(a) => [a]
    case None => []
  }

  /** The current time in front of the timestamps, the certificate's address in front of the senders. */
  function Stamped(m: Message, now: DateTime, sender: Option<Address>): Message {
    m.(timestamps := [now] + m.timestamps, senders := if sender.Some? then [sender.value] + m.senders else m.senders)
  }

  /** Without recipients, the mailbox addressed by the request is the recipient. */
  function Addressed(m: Message, r: Request.Request): Message {
    if m.recipients == [] then m.(recipients := [Address(r.mailbox, r.hostname, "")]) else m
  }

  /** `decode("utf-8", errors="replace")`. */
  function LossyDecode(b: seq<byte>): string {
    if b == [] then ""
    else match DecodeChar(b) {
      case Some((c, n)) => [c] + LossyDecode(b[n..])
      case None => ['\U{FFFD}'] + LossyDecode(b[1..])
    }
  }

  /** An unreadable B message becomes a body without metadata. */
  function PlainBody(raw: seq<byte>): Message {
    var text := LossyDecode(raw);
    Message([], [], [], if text != "" && text[|text| - 1] == '\n' then text else text + "\n")
  }

  /** The message `_prepare_message` prints; none when a C message does not parse. */
  function PreparedMessage(r: Request.Request, now: DateTime): Option<Message> {
    match ParseMessage(r)
    case Success(m) =>
      var stamped := Stamped(m, now, CertificateSender(r));
      Some(if r.version.B? then Addressed(stamped, r) else stamped)
    case Failure(_) =>
      if r.version.B? then Some(Addressed(Stamped(PlainBody(r.rawMessage), now, CertificateSender(r)), r)) else None
  }

  function Prepare(r: Request.Request, now: DateTime): Option<seq<byte>> {
    match PreparedMessage(r, now)
    case None => None
    case Some(m) => Some(ToBytes(m))
  }

  /** What the reader should find in the stored message. */
  function StampedContent(r: Request.Request, m: Message, now: DateTime): Message {
    var stamped := Stamped(m, now, CertificateSender(r));
    if r.version.B? then Addressed(stamped, r) else stamped
  }

  predicate SafeSender(r: Request.Request) {
    CertificateSender(r).Some? ==> ListSafe(CertificateSender(r).value)
  }

  /** A certificate speaks for the address made of its parts, if it has a mailbox and a host. */
  lemma OwnExact(client: Option<Request.Identity>)
    ensures client == None ==> OwnSenders(client) == []
    ensures client.Some? ==>
              var id := client.value;
              OwnSenders(client) == if id.mailbox == "" || id.hostname == "" then []
                                    else [Address(id.mailbox, id.hostname, id.blurb)]
  {
  }

  lemma OwnInFront(r: Request.Request, m: Message, now: DateTime)
    ensures StampedContent(r, m, now).senders == OwnSenders(r.client) + m.senders
  {
    assert [] + m.senders == m.senders;
  }

  lemma StampedTimes(m: Message, now: DateTime)
    ensures Map(WholeSecond, [now] + m.timestamps) == [WholeSecond(now)] + Map(WholeSecond, m.timestamps)
  {
    assert ([now] + m.timestamps)[1..] == m.timestamps;
  }

  /**
   A prepared C message reads back as the original recipients and body, the senders with the
   certificate's address in front, and the timestamps, cut to the second, with the current one in
   front, exactly when a metadata line can hold the certificate's address and the stamped lines fit;
   lines that do not fit are the only other outcome for such an address.
   */
  lemma StampingC(r: Request.Request, now: DateTime)
    requires r.version.C? && FromBytes(r.rawMessage).Success? && Valid(now)
    ensures Prepare(r, now).Some?
    ensures var m := FromBytes(r.rawMessage).value;
            var stamped := StampedContent(r, m, now);
            var content := Message(OwnSenders(r.client) + m.senders, m.recipients,
                                   [WholeSecond(now)] + Map(WholeSecond, m.timestamps), m.body);
            && (FromBytes(Prepare(r, now).value) == Success(content) <==> SafeSender(r) && Fits(stamped))
            && (SafeSender(r) && !Fits(stamped) ==> FromBytes(Prepare(r, now).value) == Failure(LineTooLong))
  {
    hide FromBytes, FromBytesB, Fits, CertificateSender, ToBytes, ListSafe;
    var m := FromBytes(r.rawMessage).value;
    ParsedIsPrintable(r.rawMessage);
    OwnInFront(r, m, now);
    StampedTimes(m, now);
    var stamped := StampedContent(r, m, now);
    assert Printable(stamped) <==> SafeSender(r);
    ReadBackExact(stamped);
    if SafeSender(r) { Reparse(stamped); }
  }

  /** Every address of the stamped message can stand in a metadata line. */
  predicate SafeAddresses(m: Message) {
    (forall a | a in m.senders :: ListSafe(a)) && (forall a | a in m.recipients :: ListSafe(a))
  }

  /**
   A readable B message becomes a C message with the same content, the stamps, and the default
   recipient, exactly when metadata lines can hold all its addresses and its lines fit. Of the
   addresses it was sent with, those are the ones without a comma.
   */
  lemma StampingB(r: Request.Request, now: DateTime)
    requires r.version.B? && FromBytesB(r.rawMessage).Success? && Valid(now)
    ensures Prepare(r, now).Some?
    ensures var m := FromBytesB(r.rawMessage).value;
            var stamped := StampedContent(r, m, now);
            var content := Message(OwnSenders(r.client) + m.senders,
                                   if m.recipients == [] then [Address(r.mailbox, r.hostname, "")] else m.recipients,
                                   [WholeSecond(now)] + Map(WholeSecond, m.timestamps), m.body);
            && (FromBytes(Prepare(r, now).value) == Success(content) <==> SafeAddresses(stamped) && Fits(stamped))
            && (SafeAddresses(stamped) && !Fits(stamped) ==> FromBytes(Prepare(r, now).value) == Failure(LineTooLong))
            && (forall a | a in m.senders || a in m.recipients :: ListSafe(a) <==> CommaFree(a))
  {
    hide FromBytes, FromBytesB, Fits, CertificateSender, ListSafe, ToBytes, CommaFree;
    var m := FromBytesB(r.rawMessage).value;
    ScannedIsPrintable(r.rawMessage);
    OwnInFront(r, m, now);
    StampedTimes(m, now);
    var stamped := StampedContent(r, m, now);
    assert Printable(stamped) <==> SafeAddresses(stamped);
    ReadBackExact(stamped);
    if SafeAddresses(stamped) { Reparse(stamped); }
  }

  /** A sender line whose address holds a comma is read, but the prepared message is not read back as it was. */
  lemma CommaIsNotReadBack(r: Request.Request, now: DateTime)
    requires r.version.B? && r.rawMessage == Encode("< a,b@host") && r.client == None && Valid(now)
    ensures FromBytesB(r.rawMessage) == Success(Message([Address("a,b", "host", "")], [], [], ""))
    ensures var m := FromBytesB(r.rawMessage).value;
            FromBytes(Prepare(r, now).value) != Success(Truncated(StampedContent(r, m, now)))
  {
    hide FromBytes, FromBytesB, Fits, ToBytes, Encode, ParseAddress, ListSafe;
    var line := "< a,b@host";
    var a := Address("a,b", "host", "");
    assert ParseAddress(line[2..]) == Success(a) by {
      assert Canonical(a);
      ParsePrintedAddress(a);
      assert a.Print() == line[2..];
    }
    OneSenderLine(line, a);
    var m := FromBytesB(r.rawMessage).value;
    assert !ListSafe(a) by { CommaIsUnsafe(a); }
    assert a in StampedContent(r, m, now).senders;
    StampedTimes(m, now);
    OwnInFront(r, m, now);
    StampingB(r, now);
  }

  lemma CommaIsUnsafe(a: Address)
    requires ',' in a.mailbox
    ensures !ListSafe(a)
  {
  }

  lemma OneSenderLine(line: string, a: Address)
    requires '\r' !in line && '\n' !in line
    requires SENDER_MARK <= line && ParseAddress(line[2..]) == Success(a)
    ensures FromBytesB(Encode(line)) == Success(Message([a], [], [], ""))
  {
    hide Split, Encode, ScanLines, ParseAddress;
    DecodeEncode(line);
    NormalizeCrFree(line);
    SplitWhole(line, '\n');
    OneSenderScanned(line, a);
  }

  lemma OneSenderScanned(line: string, a: Address)
    requires SENDER_MARK <= line && ParseAddress(line[2..]) == Success(a)
    ensures ScanLines([line]) == Message([a], [], [], "")
  {
    hide ParseAddress;
    var lines := [line];
    assert PlaceOf(lines, 0) == AsSender(a);
    assert SendersTo(lines, 1) == [] + [a] && RecipientsTo(lines, 1) == [];
    assert StampsTo(lines, 1) == [];
    var none: seq<string> := [];
    assert BodyTo(lines, 0) == none && BodyTo(lines, 1) == none + none;
  }

  // -- B messages that cannot be read --

  lemma {:induction false} LossyIsDecode(b: seq<byte>)
    requires Decode(b).Some?
    ensures LossyDecode(b) == Decode(b).value
  {
    if b != [] { LossyIsDecode(b[DecodeChar(b).value.1..]); }
  }

  /** The message of a request in B form that came over the wire decodes: only a stray CR makes it unreadable. */
  lemma WireMessageDecodes(line: seq<byte>)
    requires Request.FromHeaderB(line).Success?
    ensures var raw := Request.FromHeaderB(line).value.rawMessage;
            && Decode(raw).Some? && LossyDecode(raw) == Decode(raw).value
            && (FromBytesB(raw).Failure? <==> !CrOnlyBeforeLf(Decode(raw).value))
  {
    hide ScanLines, Decode, LossyDecode, Request.SplitAddress;
    var text := Decode(line).value;
    var message := Request.ParseHeaderTextB(text).value.2;
    DecodeEncode(message);
    LossyIsDecode(Encode(message));
  }

  /** What an unreadable B message is stored as. */
  function Salvaged(r: Request.Request, now: DateTime): Message {
    StampedContent(r, PlainBody(r.rawMessage), now)
  }

  /** The text of an unreadable message is kept as the body, with a final newline, and nothing else. */
  lemma PlainBodyExact(raw: seq<byte>)
    requires Decode(raw).Some?
    ensures var text := Decode(raw).value;
            PlainBody(raw) == Message([], [], [], if text != "" && text[|text| - 1] == '\n' then text else text + "\n")
  {
    hide Decode, LossyDecode;
    LossyIsDecode(raw);
  }

  lemma SalvagedIsStored(r: Request.Request, now: DateTime)
    requires r.version.B? && FromBytesB(r.rawMessage).Failure?
    ensures Prepare(r, now) == Some(ToBytes(Salvaged(r, now)))
    ensures Salvaged(r, now).body == PlainBody(r.rawMessage).body
  {
    hide ToBytes, FromBytesB, LossyDecode;
  }

  /**
   When an unreadable B message is stored in a form that can be read: when its CR was stray only for
   want of the final newline, and what the certificate and the host name make of the metadata lines
   reads. If metadata lines can hold both, that is the message with its line ends normalized.
   */
  lemma SalvagedReadsBack(r: Request.Request, now: DateTime)
    requires r.version.B? && FromBytesB(r.rawMessage).Failure? && Valid(now)
    ensures var m := Salvaged(r, now);
            && (FromBytes(Prepare(r, now).value).Success? <==> NothingStray(m) && HeadReads(HeadLines(m)))
            && (!CrOnlyBeforeLf(m.body) ==> FromBytes(Prepare(r, now).value) == Failure(StrayCr))
            && (CrOnlyBeforeLf(m.body) && SafeAddresses(m) && !Fits(m) ==>
                  FromBytes(Prepare(r, now).value) == Failure(LineTooLong))
            && (CrOnlyBeforeLf(m.body) && SafeAddresses(m) && Fits(m) ==>
                  FromBytes(Prepare(r, now).value) == Success(Truncated(m.(body := NormalizeNewlines(m.body)))))
  {
    hide FromBytes, FromBytesB, ToBytes, Fits, LossyDecode, CertificateSender, ListSafe, NormalizeNewlines;
    hide HeadReads, HeadLines, NothingStray;
    var m := Salvaged(r, now);
    SalvagedIsStored(r, now);
    ReadBack(m);
    if !CrOnlyBeforeLf(m.body) {
      StrayCrUnreadable(m);
    } else if SafeAddresses(m) {
      ReparseNormalized(m);
    }
  }
}
