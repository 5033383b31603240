/** `VerifyingHandler` around the mailbox handler, and what its required mode guarantees. */
module Verifying {
  import opened Wrappers
  import opened Text
  import opened Utf8
  import opened Calendar
  import opened Response
  import opened Gemmail
  import opened GemmailC
  import opened GemmailB
  import opened Preparation
  import opened ServerReader
  import opened Delivery
  import Request

  datatype Mode = Off | Optional | Required

  const NO_SENDER := Response(61, "Sender required for verification")

  /** What the verifier says about a sender. */
  datatype Verification = Accepted | Declined(reason: string)

  type Verifier = Address -> Verification

  function Rejection(reason: string): Response {
    Response(61, "Sender verification failed: " + reason)
  }

  /** `VerifyingHandler.handle_message`; `verify` is what the verifier says in this call. */
  function Verified(mode: Mode, verify: Verifier, cfg: Config, boxes: Mailboxes, r: Request.Request, now: DateTime)
    : Disposition
  {
    if mode.Off? || r.contentLength == 0 then Dispose(cfg, boxes, r, now)
    else match ParseMessage(r) {
      case Failure(_) => Dispose(cfg, boxes, r, now)
      case Success(m) =>
        if m.senders == [] then (if mode.Required? then Answer(NO_SENDER) else Dispose(cfg, boxes, r, now))
        else match verify(m.senders[0]) {
          case Accepted => Dispose(cfg, boxes, r, now)
          case Declined(reason) => if mode.Required? then Answer(Rejection(reason)) else Dispose(cfg, boxes, r, now)
        }
    }
  }

  /**
   In required mode a non-empty C request reaches storage, forwarding or a list command only if it
   parses and the verifier accepted the first sender it names, and then it is treated as without
   verification; in particular the parse-failure path ends in a refusal.
   */
  lemma RequiredMode(verify: Verifier, cfg: Config, boxes: Mailboxes, r: Request.Request, now: DateTime)
    requires r.version.C? && r.contentLength > 0
    requires !Verified(Required, verify, cfg, boxes, r, now).Answer?
    ensures ParseMessage(r).Success?
    ensures var m := ParseMessage(r).value; m.senders != [] && verify(m.senders[0]).Accepted?
    ensures Verified(Required, verify, cfg, boxes, r, now) == Dispose(cfg, boxes, r, now)
  {
    hide FromBytes, DisposePrepared, CollectSenders;
  }

  /** Off and optional mode never change what becomes of a request, whatever the verifier says. */
  lemma OtherModesPass(mode: Mode, verify: Verifier, cfg: Config, boxes: Mailboxes, r: Request.Request, now: DateTime)
    requires mode != Required
    ensures Verified(mode, verify, cfg, boxes, r, now) == Dispose(cfg, boxes, r, now)
  {
    hide Dispose, ParseMessage;
  }

  /** A probe, and a message that does not parse, is left to the mailbox handler in every mode. */
  lemma UnparsedPass(mode: Mode, verify: Verifier, cfg: Config, boxes: Mailboxes, r: Request.Request, now: DateTime)
    requires r.contentLength == 0 || ParseMessage(r).Failure?
    ensures Verified(mode, verify, cfg, boxes, r, now) == Dispose(cfg, boxes, r, now)
  {
    hide Dispose, ParseMessage;
  }

  /** The mailbox handler never answers in the words of the verifying one. */
  lemma DisposeIsNoRefusal(cfg: Config, boxes: Mailboxes, r: Request.Request, now: DateTime, reason: string)
    requires r.contentLength > 0
    ensures Dispose(cfg, boxes, r, now) != Answer(Response(61, "Sender required for verification"))
    ensures Dispose(cfg, boxes, r, now) != Answer(Response(61, "Sender verification failed: " + reason))
  {
    hide Prepare, CollectSenders, ValidMailbox, ActiveList, CommandIn, Loops, MayPost;
    var failed := "Sender verification failed: " + reason;
    assert failed[7] == 'v' && failed[0] == 'S';
    assert "Sender required for verification"[7] == 'r' && "Sender blocked"[7] == 'b';
    assert "Only subscribers may post to this list"[0] == 'O';
  }

  /**
   In required mode a message that parses is treated as without verification exactly when it names a
   sender and the verifier accepts the first one; otherwise it is refused with status 61.
   */
  lemma RequiredExact(verify: Verifier, cfg: Config, boxes: Mailboxes, r: Request.Request, now: DateTime)
    requires r.contentLength > 0 && ParseMessage(r).Success?
    ensures var senders := ParseMessage(r).value.senders;
            var d := Verified(Required, verify, cfg, boxes, r, now);
            && (d == Dispose(cfg, boxes, r, now) <==> senders != [] && verify(senders[0]) == Accepted)
            && (senders == [] ==> d == Answer(Response(61, "Sender required for verification")))
            && (senders != [] && verify(senders[0]).Declined? ==>
                  d == Answer(Response(61, "Sender verification failed: " + verify(senders[0]).reason)))
  {
    hide Dispose, ParseMessage;
    var senders := ParseMessage(r).value.senders;
    DisposeIsNoRefusal(cfg, boxes, r, now,
                       if senders != [] && verify(senders[0]).Declined? then verify(senders[0]).reason else "");
  }

  predicate ReadableText(raw: seq<byte>) {
    Decode(raw).Some? && CrOnlyBeforeLf(Decode(raw).value)
  }

  /** The list's own address among those a line names. */
  predicate NamesList(cfg: Config, mailbox: string, line: string) {
    match Gemmail.ParseLine(ParseAddress, line)
    case Success(found) =>
      var list := Lower(mailbox + "@" + cfg.hostname);
      exists i | 0 <= i < |found| :: Lower(found[i].Text()) == list
    case Failure(_) => false
  }

  /**
   When an active list refuses a B message that cannot be read. As long as a CR is stray in what is
   stored, or the lines that the certificate and the host name make do not read as metadata, neither the
   command nor the loop check can read it, and only the posting restriction remains. Otherwise the CR
   was the last character and the final newline has mended it: then the message is refused unless it is
   a command, which a line break in the certificate prevents, or is not addressed to the list itself
   and comes from a subscriber.
   */
  predicate ListRefuses(cfg: Config, box: Mailbox, r: Request.Request, now: DateTime) {
    && ActiveList(cfg, box)
    && var m := Salvaged(r, now);
       var head := HeadLines(m);
       var posting := MayPost(OwnSenders(r.client), box.subscribers.value);
       if !NothingStray(m) || !HeadReads(head) then !posting
       else
         && !(cfg.tokens && |head| == 3 && ParseCommand(NormalizeNewlines(m.body)).Some?)
         && (NamesList(cfg, r.mailbox, head[1]) || !posting)
  }

  lemma UnreadableOnList(cfg: Config, box: Mailbox, r: Request.Request, now: DateTime)
    requires r.version.B? && FromBytesB(r.rawMessage).Failure?
    ensures Prepare(r, now) == Some(GemmailC.ToBytes(Salvaged(r, now)))
    ensures DisposePrepared(cfg, box, r.mailbox, OwnSenders(r.client), GemmailC.ToBytes(Salvaged(r, now))).Answer?
            <==> ListRefuses(cfg, box, r, now)
  {
    hide FromBytes, FromBytesB, GemmailC.ToBytes, Salvaged, HeadLines, HeadReads, Gemmail.ParseLine, NothingStray;
    hide NormalizeNewlines, ParseCommand, MayPost, OwnSenders, Split;
    var m := Salvaged(r, now);
    SalvagedIsStored(r, now);
    ReadBack(m);
    var back := FromBytes(GemmailC.ToBytes(m));
    if back.Success? {
      ReadRecipients(m);
      if |HeadLines(m)| > 3 { StampedIsNoCommand(r, now, back.value.body); }
    }
  }

  lemma ReadRecipients(m: Message)
    requires HeadReads(HeadLines(m))
    ensures Gemmail.ParseLine(ParseAddress, HeadLines(m)[1]).Success?
  {
  }

  /** When metadata lines can hold the certificate's address and the host, a mended message names the list. */
  lemma SafeIsAddressed(cfg: Config, r: Request.Request, now: DateTime)
    requires r.version.B? && r.hostname == cfg.hostname && SafeAddresses(Salvaged(r, now))
    ensures var head := HeadLines(Salvaged(r, now)); |head| == 3 && NamesList(cfg, r.mailbox, head[1])
  {
    hide ListSafe, FieldLines, PrintLine, PlainBody, Gemmail.ParseLine;
    var m := Salvaged(r, now);
    AddressLineFree(m.senders);
    AddressLineFree(m.recipients);
    FieldIsLine(SenderLine(m));
    FieldIsLine(RecipientLine(m));
    AddressesReadBack(m.recipients);
    assert m.recipients == [Address(r.mailbox, r.hostname, "")] by { SalvagedRecipients(r, now); }
    assert m.recipients[0].Text() == r.mailbox + "@" + cfg.hostname;
  }

  /** A body into which the line of the timestamp has slipped is no command. */
  lemma StampedIsNoCommand(r: Request.Request, now: DateTime, body: string)
    requires |HeadLines(Salvaged(r, now))| > 3
    requires Split(body, '\n')
             == HeadLines(Salvaged(r, now))[3..] + Split(NormalizeNewlines(Salvaged(r, now).body), '\n')
    ensures ParseCommand(body) == None
  {
    hide Split, FieldLines, NormalizeNewlines, ParseCommand, Stamp, PlainBody, PrintLine;
    var m := Salvaged(r, now);
    assert m.timestamps == [now] by { SalvagedTimes(r, now); }
    SingleItem(Stamp, m.timestamps);
    var head := HeadLines(m);
    assert head[3..][|head| - 4] == Stamp(now) && Stamp(now) in head[3..];
    assert Stamp(now) in Split(body, '\n');
    StampIsNoCommand(body, now);
  }

  lemma SalvagedRecipients(r: Request.Request, now: DateTime)
    requires r.version.B?
    ensures Salvaged(r, now).recipients == [Address(r.mailbox, r.hostname, "")]
  {
  }

  lemma SalvagedTimes(r: Request.Request, now: DateTime)
    ensures Salvaged(r, now).timestamps == [now]
  {
    hide LossyDecode;
    assert [now] + [] == [now];
  }

  /** The words of a text hold every line that is a word. */
  lemma {:induction false} WordLine(s: string, line: string)
    requires line in Split(s, '\n') && line != "" && SpaceFree(line)
    ensures line in Words(s)
    decreases |s|
  {
    hide Words, IsSpace;
    var i := IndexOf(s, '\n');
    if i == |s| {
      OneWord(line);
    } else {
      var (first, rest) := (s[..i], s[i + 1..]);
      assert s == first + ['\n'] + rest;
      assert IsSpace('\n') by { LfIsSpace(); }
      WordsConcat(first, '\n', rest);
      if line == first { OneWord(line); } else { WordLine(rest, line); }
    }
  }

  lemma LfIsSpace()
    ensures IsSpace('\n')
  {
  }

  lemma StampIsWord(now: DateTime)
    ensures |Stamp(now)| == 20 && SpaceFree(Stamp(now)) && IsDigit(Stamp(now)[0])
  {
    hide Fixed;
    forall c | c in Stamp(now) ensures !IsSpace(c) { StampCharacters(now, c); }
    assert AllDigits(Fixed(now.year, 4)) && Stamp(now)[0] == Fixed(now.year, 4)[0];
  }

  /** A line of a body that is a timestamp keeps the body from being a command. */
  lemma StampIsNoCommand(body: string, now: DateTime)
    requires Stamp(now) in Split(body, '\n')
    ensures ParseCommand(body) == None
  {
    hide Stamp, Words, Strip, IsSpace, Split, IsToken;
    var stamp := Stamp(now);
    StampIsWord(now);
    WordLine(body, stamp);
    WordsStripped(body);
    var stripped := Strip(body);
    if "# " <= stripped {
      var rest := stripped[2..];
      assert stripped == "#" + [' '] + rest;
      assert SpaceFree("#") && IsSpace(' ') by { HashIsWord(); }
      WordsStep("#", ' ', rest);
      WordIsNoCommand(Words(rest), stamp);
    } else {
      WordIsNoCommand(Words(stripped), stamp);
    }
  }

  lemma HashIsWord()
    ensures SpaceFree("#") && IsSpace(' ')
  {
  }

  lemma WordIsNoCommand(words: seq<string>, stamp: string)
    requires stamp in words && |stamp| == 20 && IsDigit(stamp[0])
    ensures !(|words| == 1 && (Lower(words[0]) == "subscribe" || Lower(words[0]) == "unsubscribe"))
    ensures !(|words| == 2 && Lower(words[0]) == "confirm" && IsToken(words[1]))
  {
  }

  /**
   Exactly when a verifier that accepts nobody keeps a non-empty request from going any further: when
   the request is in C form, or its B text decodes and has no stray CR, or it is refused for its host,
   its mailbox, the certificate's address, or by a list.
   */
  lemma RequiredModeExact(reason: string, cfg: Config, boxes: Mailboxes, r: Request.Request, now: DateTime)
    requires r.contentLength > 0
    ensures Verified(Required, _ => Declined(reason), cfg, boxes, r, now).Answer?
            <==> || r.version.C? || ReadableText(r.rawMessage)
                 || r.hostname != cfg.hostname || !ValidMailbox(r.mailbox) || r.mailbox !in boxes
                 || AnyBlocked(OwnSenders(r.client), boxes[r.mailbox].blocked)
                 || ListRefuses(cfg, boxes[r.mailbox], r, now)
  {
    hide FromBytes, DisposePrepared, ListRefuses, ScanLines, CertificateSender, ValidMailbox, AnyBlocked;
    hide GemmailC.ToBytes, Salvaged, CrOnlyBeforeLf, NormalizeNewlines;
    if r.version.B? && FromBytesB(r.rawMessage).Failure? {
      assert CollectSenders(r) == OwnSenders(r.client) by { UnreadableSenders(r); }
      if r.hostname == cfg.hostname && r.mailbox in boxes {
        UnreadableOnList(cfg, boxes[r.mailbox], r, now);
      }
    }
  }

  lemma UnreadableSenders(r: Request.Request)
    requires r.version.B? && FromBytesB(r.rawMessage).Failure?
    ensures CollectSenders(r) == OwnSenders(r.client)
  {
    hide FromBytesB;
  }

  // -- A request that goes past the verifier --

  const LONE_CR := "misfin://b@h a\rb"

  function LoneCrRequest(client: Option<Request.Identity>): Request.Request {
    Request.Request("b", "h", 3, Encode("a\rb"), Encode(LONE_CR), client, Request.B)
  }

  /** The line of a B request is accepted with a lone CR in its message. */
  lemma LoneCrAccepted(client: Option<Request.Identity>)
    ensures var line := Encode(LONE_CR);
            && HeaderEnd(line + [13, 10]) == |line|
            && ParserFor(client)(line) == Success(LoneCrRequest(client))
    ensures FromBytesB(LoneCrRequest(client).rawMessage).Failure?
  {
    hide FromBytes, FromBytesB, Encode, Decode, Request.FromHeaderB, Request.FromHeader;
    var line := Encode(LONE_CR);
    var raw := Encode("a\rb");
    AsciiTransparent(LONE_CR, 9);
    AsciiTransparent(LONE_CR, 10);
    AsciiLength(LONE_CR);
    AsciiLength("a\rb");
    var b := Request.Request("b", "h", 3, raw, [], client, Request.B);
    assert Request.HeaderTextB(b, "a\rb") == LONE_CR;
    Request.HeaderRoundTripB(b, "a\rb");
    NoTabIsNotC(line);
    LoneCrUnreadable();
    FirstBreak(line);
  }

  lemma LoneCrUnreadable()
    ensures FromBytesB(Encode("a\rb")) == Failure(StrayCr)
  {
    hide Encode, ScanLines;
    DecodeEncode("a\rb");
    assert "a\rb"[1] == '\r' && "a\rb"[2] != '\n';
  }

  /** Without an LF in the line, the CRLF behind it is the first. */
  lemma FirstBreak(line: seq<byte>)
    requires 10 !in line
    ensures HeaderEnd(line + [13, 10]) == |line|
  {
    var b := line + [13, 10];
    assert CrlfAt(b, |line|);
    assert forall j | 0 <= j < |line| :: b[j] == line[j] && b[j] != 10;
  }

  /** That request is stored in required mode, although the verifier accepts nobody. */
  lemma LoneCrIsDelivered(reason: string, cfg: Config, boxes: Mailboxes, now: DateTime)
    requires Valid(now) && cfg.hostname == "h" && "b" in boxes && !ActiveList(cfg, boxes["b"])
    ensures var r := LoneCrRequest(None);
            var d := Verified(Required, _ => Declined(reason), cfg, boxes, r, now);
            d.Deliver? && d.stored && Prepare(r, now) == Some(d.data)
  {
    hide FromBytesB, Encode, GemmailC.ToBytes, FromBytes, PlainBody;
    LoneCrAccepted(None);
    var r := LoneCrRequest(None);
    SalvagedIsStored(r, now);
    assert ValidMailbox("b") by { OneLetter(); }
    UnreadableSenders(r);
    assert CertificateSender(r) == None;
    assert !AnyBlocked(CollectSenders(r), boxes["b"].blocked);
  }

  class VerifyingHandler {
    const wrapped: FileMailboxHandler
    const mode: Mode

    constructor (wrapped: FileMailboxHandler, mode: Mode)
      ensures this.wrapped == wrapped && this.mode == mode
    {
      this.wrapped, this.mode := wrapped, mode;
    }

    method HandleMessage(r: Request.Request, now: DateTime, id: string, verify: Verifier)
      returns (d: Disposition, response: Option<Response>, replyTo: Option<Address>)
      modifies wrapped, wrapped.responder
      ensures d == Verified(mode, verify, wrapped.cfg, old(wrapped.mailboxes), r, now)
      ensures wrapped.mailboxes == AfterDelivery(old(wrapped.mailboxes), d, wrapped.encrypt, now, id)
      ensures response == ResponseTo(wrapped.cfg, d)
      ensures d.Deliver? ==>
                replyTo == ReplyTarget(wrapped.cfg, old(wrapped.mailboxes)[r.mailbox], old(wrapped.responder.lastSent),
                                       wrapped.responder.interval, d.data, Instant(now))
      ensures !d.Deliver? ==> replyTo == None
      ensures wrapped.responder.lastSent == RecordedReply(old(wrapped.responder.lastSent), replyTo, Instant(now))
    {
      hide Dispose, AfterDelivery, Instant;
      if mode != Off && r.contentLength != 0 {
        var parsed := ParseMessage(r);
        if parsed.Success? {
          var senders := parsed.value.senders;
          if senders == [] {
            if mode == Required {
              AnswersStoreNothing(wrapped.mailboxes, NO_SENDER, wrapped.encrypt, now, id);
              return Answer(NO_SENDER), Some(NO_SENDER), None;
            }
          } else {
            var result := verify(senders[0]);
            if result.Declined? && mode == Required {
              var rejection := Rejection(result.reason);
              AnswersStoreNothing(wrapped.mailboxes, rejection, wrapped.encrypt, now, id);
              return Answer(rejection), Some(rejection), None;
            }
          }
        }
      }
      d, response, replyTo := wrapped.HandleMessage(r, now, id);
    }
  }

  lemma AnswersStoreNothing(boxes: Mailboxes, a: Response, encrypt: seq<byte> -> seq<byte>, now: DateTime, id: string)
    ensures AfterDelivery(boxes, Answer(a), encrypt, now, id) == boxes
  {
  }
}
