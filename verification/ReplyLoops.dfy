/**
 Automatic replies are answered automatically only if a certificate disguises them: the printed address
 of the certificate goes in front of the message, and may hold line breaks.
 */
module ReplyLoops {
  import opened Wrappers
  import opened Text
  import opened Utf8
  import opened Calendar
  import opened Gemmail
  import opened GemmailC
  import opened GemmailB
  import opened GemmailLimits
  import opened Preparation
  import opened AutoReply
  import opened Delivery
  import Request
  import Sending

  // -- The reply --

  /** The reply as the client composes it for the address of the original sender. */
  function ReplyMessage(to: string, text: string, now: DateTime): Message
    requires '@' in to
  {
    Sending.Compose(to, text, AUTO_REPLY, now)
  }

  /** What follows the heading in the composed body. */
  lemma ReplyBody(text: string) returns (rest: string)
    ensures Sending.ComposeBody(text, AUTO_REPLY) == "# [Auto-Reply]" + ['\n'] + rest
    ensures '\r' !in text ==> '\r' !in Sending.ComposeBody(text, AUTO_REPLY)
  {
    var body := Sending.ComposeBody(text, AUTO_REPLY);
    var heading := "# [Auto-Reply]";
    var full := ("# " + AUTO_REPLY + "\n\n") + text;
    assert full == heading + ['\n'] + ("\n" + text);
    rest := body[|heading| + 1..];
    assert body == heading + ['\n'] + rest;
  }

  lemma HeadingSubject(rest: string)
    ensures Subject("# [Auto-Reply]" + ['\n'] + rest) == Some(AUTO_REPLY)
  {
    hide Strip, DropHashes, Split;
    var heading := "# [Auto-Reply]";
    SplitStep(heading, '\n', rest);
    assert heading == "# " + AUTO_REPLY + "" && AUTO_REPLY + "" == AUTO_REPLY;
    HeadingText("");
  }

  /** A trimmed line that starts with the marker has a subject that starts with it. */
  lemma HeadingText(tail: string)
    requires Trimmed(AUTO_REPLY + tail)
    ensures var t := "# " + AUTO_REPLY + tail;
            Strip(t) == t && t[0] == '#' && Strip(DropHashes(t)) == AUTO_REPLY + tail
  {
    var marker := AUTO_REPLY + tail;
    var t := "# " + AUTO_REPLY + tail;
    StripTrimmed(t);
    assert t[1..] == [' '] + marker;
    assert DropHashes(t) == [' '] + marker;
    StripLeading(' ', marker);
    StripTrimmed(marker);
  }

  lemma ContainsPrefix(s: string, t: string)
    requires t <= s
    ensures Contains(s, t)
  {
    assert s[0..] == s;
  }

  lemma LineFreeText(a: Address)
    requires LineFree(a.Text()) && a.blurb == ""
    ensures LineFree(a.Print())
  {
  }

  lemma ReplyIsMarked(text: string)
    requires '\r' !in text
    ensures var body := Sending.ComposeBody(text, AUTO_REPLY);
            '\r' !in body && IsAutoReply(Message([], [], [], body))
  {
    hide Contains, FirstHeading, Split, Sending.ComposeBody;
    var rest := ReplyBody(text);
    HeadingSubject(rest);
    ContainsPrefix(AUTO_REPLY, AUTO_REPLY);
  }

  lemma TargetLine(to: string)
    requires '@' in to && LineFree(to)
    ensures var i := LastIndexOf(to, '@');
            LineFree(PrintLine(PrintAddress, [Address(to[..i], to[i + 1..], "")]))
  {
    hide LineFree;
    var i := LastIndexOf(to, '@');
    var a := Address(to[..i], to[i + 1..], "");
    assert a.Text() == to by { assert to == to[..i] + [to[i]] + to[i + 1..]; }
    LineFreeText(a);
    PrintedLineFree([a]);
  }

  lemma NobodyLine()
    ensures PrintLine(PrintAddress, []) == "" && LineFree("")
  {
  }

  /** The message text of a reply keeps to the shape of a gemmail, whatever the reply text is. */
  lemma ReplyLines(to: string, text: string, now: DateTime)
    requires '@' in to && LineFree(to) && '\r' !in text
    ensures var m := ReplyMessage(to, text, now);
            && SenderLine(m) == "" && LineFree(SenderLine(m)) && LineFree(RecipientLine(m)) && '\r' !in m.body
            && IsAutoReply(m) && m.recipients != []
  {
    hide IsAutoReply, LineFree, Sending.ComposeBody, PrintLine;
    var m := ReplyMessage(to, text, now);
    ReplyIsMarked(text);
    SameSubject(m, Message([], [], [], m.body));
    TargetLine(to);
    NobodyLine();
  }

  // -- What an automatic reply reads back as --

  /** The message is one that a reply may be due for. */
  predicate Answerable(m: Message) {
    m.senders != [] && !IsAutoReply(m)
  }

  predicate Unmarked(heading: Option<string>) {
    heading.Some? && !Contains(heading.value, AUTO_REPLY)
  }

  /** Three lines that read as metadata naming a sender. */
  predicate NamesSender(lines: seq<string>) {
    |lines| >= 3 && HeadReads(lines) && ParseLine(ParseAddress, lines[0]).value != []
  }

  /** Lines that read as metadata, and have a heading of their own behind them. */
  predicate Disguise(lines: seq<string>) {
    NamesSender(lines) && Unmarked(FirstHeading(lines[3..]))
  }

  lemma {:induction false} FirstHeadingConcat(a: seq<string>, b: seq<string>)
    ensures FirstHeading(a + b) == if FirstHeading(a).Some? then FirstHeading(a) else FirstHeading(b)
  {
    hide Strip;
    if a == [] {
      assert a + b == b;
    } else {
      assert (a + b)[1..] == a[1..] + b;
      FirstHeadingConcat(a[1..], b);
    }
  }

  /** A message with the marker in its subject is answerable after storage exactly when its addresses disguise it. */
  lemma MarkedExact(m: Message)
    requires '\r' !in m.body && IsAutoReply(m)
    ensures var back := FromBytes(ToBytes(m));
            && (back.Success? && Answerable(back.value) <==> NothingStray(m) && Disguise(HeadLines(m)))
            && (back.Success? ==> ParseLine(ParseAddress, HeadLines(m)[0]) == Success(back.value.senders))
  {
    hide FromBytes, ToBytes, HeadLines, LineFits, NothingStray, Split, FirstHeading, Contains, ParseLine;
    ReadBack(m);
    NormalizeCrFree(m.body);
    var head := HeadLines(m);
    FirstHeadingConcat(head[3..], Split(m.body, '\n'));
    var back := FromBytes(ToBytes(m));
    if back.Success? {
      assert Split(back.value.body, '\n') == head[3..] + Split(m.body, '\n');
      assert IsAutoReply(back.value) <==> !Unmarked(FirstHeading(head[3..]));
      assert NamesSender(head) <==> back.value.senders != [];
    }
  }

  // -- The part of the certificate --

  /** The sender line of a message whose only sender is the one in the certificate. */
  function CertificateLine(client: Option<Request.Identity>): string {
    match SenderOf(client)
    case Some(a) => a.Print()
    case None => ""
  }

  lemma CertificateHead(m: Message, client: Option<Request.Identity>)
    requires m.senders == OwnSenders(client) && LineFree(RecipientLine(m)) && '\r' !in m.body
    ensures SenderLine(m) == CertificateLine(client)
    ensures HeadLines(m) == FieldLines(CertificateLine(client)) + [RecipientLine(m), TimestampLine(m)]
    ensures NothingStray(m) <==> Sturdy(CertificateLine(client))
  {
    hide FieldLines, Sturdy, CrOnlyBeforeLf;
    if SenderOf(client).Some? { SingleItem(PrintAddress, m.senders); }
    FieldIsLine(RecipientLine(m));
    NormalizeCrFree(m.body);
  }

  lemma StampsHaveNoHash(ts: seq<DateTime>)
    ensures '#' !in PrintLine(Stamp, ts)
  {
    if '#' in PrintLine(Stamp, ts) {
      LineCharacters(Stamp, ts, '#');
      var t :| t in ts && '#' in Stamp(t);
      StampCharacters(t, '#');
    }
  }

  lemma NoHashNoHeading(line: string)
    requires '#' !in line
    ensures FirstHeading([line]) == None
  {
    if Strip(line) != "" && Strip(line)[0] == '#' { StripCharacters(line, '#'); }
    assert [line][1..] == [];
  }

  /** Behind the lines of the certificate come the recipients and the timestamps. */
  lemma DisguiseSplit(p: seq<string>, recipients: string, stamps: string)
    requires |p| >= 1 && '#' !in stamps
    ensures Disguise(p + [recipients, stamps])
            <==> NamesSender(p) && Unmarked(FirstHeading(p[3..] + [recipients]))
  {
    hide HeadReads, FirstHeading, Unmarked, ParseLine;
    var head := p + [recipients, stamps];
    NoHashNoHeading(stamps);
    NoHeadings();
    if |p| == 1 {
      assert head[3..] == [];
    } else if |p| == 2 {
      assert head[3..] == [stamps];
    } else {
      assert head[3..] == (p[3..] + [recipients]) + [stamps];
      FirstHeadingConcat(p[3..] + [recipients], [stamps]);
      SameHead(p, head);
    }
    NotUnmarked();
  }

  lemma NoHeadings()
    ensures FirstHeading([]) == None
  {
  }

  lemma NotUnmarked()
    ensures !Unmarked(None)
  {
  }

  lemma SameHead(p: seq<string>, head: seq<string>)
    requires 3 <= |p| && p <= head
    ensures NamesSender(p) <==> NamesSender(head)
  {
  }

  // -- Over C --

  /** The request carries an automatic reply; its text and the address it goes to were read from files. */
  ghost predicate ReplyOverC(to: string, text: string, sent: DateTime, r: Request.Request) {
    && '@' in to && LineFree(to) && '\r' !in text
    && r.version.C? && r.rawMessage == ToBytes(ReplyMessage(to, text, sent))
  }

  lemma ReceivedC(to: string, text: string, sent: DateTime, r: Request.Request)
    requires ReplyOverC(to, text, sent, r) && FromBytes(r.rawMessage).Success?
    ensures var m := FromBytes(r.rawMessage).value;
            m.senders == [] && '\r' !in m.body && IsAutoReply(m) && LineFree(PrintLine(PrintAddress, m.recipients))
  {
    hide FromBytes, ToBytes, FieldLines, HeadLines, ReplyMessage, LineFree, IsAutoReply, ListSafe, HeadReads;
    hide PrintLine, NothingStray, ParseLine;
    var reply := ReplyMessage(to, text, sent);
    ReplyLines(to, text, sent);
    ReadBack(reply);
    PlainHead(reply);
    SameSubject(reply, FromBytes(r.rawMessage).value);
    ParsedIsPrintable(r.rawMessage);
    AddressLineFree(FromBytes(r.rawMessage).value.recipients);
    BlankLine();
  }

  /** Address lines without line breaks are read back as they are. */
  lemma PlainHead(m: Message)
    requires LineFree(SenderLine(m)) && LineFree(RecipientLine(m))
    ensures HeadLines(m) == [SenderLine(m), RecipientLine(m), TimestampLine(m)]
    ensures '\r' !in m.body ==> NormalizeNewlines(m.body) == m.body && NothingStray(m)
  {
    hide FieldLines, Sturdy, PrintLine;
    FieldIsLine(SenderLine(m));
    FieldIsLine(RecipientLine(m));
    if '\r' !in m.body { NormalizeCrFree(m.body); }
  }

  lemma SameSubject(m: Message, n: Message)
    ensures m.body == n.body ==> IsAutoReply(m) == IsAutoReply(n)
  {
  }

  lemma BlankLine()
    ensures ParseLine(ParseAddress, "") == Success([])
  {
  }

  /** The certificate names a sender and brings in three metadata lines, and no heading with the marker. */
  predicate ForgesC(line: string) {
    && Sturdy(line) && NamesSender(FieldLines(line))
    && var own := FirstHeading(FieldLines(line)[3..]); own == None || Unmarked(own)
  }

  /**
   A reply over C is read back as a message that can be answered exactly when the certificate's lines
   read as metadata, name a sender, and are followed by a heading without the marker before the
   reply's own; the recipients of the reply come in between.
   */
  lemma AnswerableC(to: string, text: string, sent: DateTime, r: Request.Request, now: DateTime)
    requires ReplyOverC(to, text, sent, r) && FromBytes(r.rawMessage).Success?
    ensures Prepare(r, now).Some?
    ensures var back := FromBytes(Prepare(r, now).value);
            var line := CertificateLine(r.client);
            var recipients := PrintLine(PrintAddress, FromBytes(r.rawMessage).value.recipients);
            && (back.Success? && Answerable(back.value)
                <==> Sturdy(line) && NamesSender(FieldLines(line))
                     && Unmarked(FirstHeading(FieldLines(line)[3..] + [recipients])))
            && (back.Success? && NamesSender(FieldLines(line))
                ==> ParseLine(ParseAddress, FieldLines(line)[0]) == Success(back.value.senders))
  {
    hide FromBytes, ToBytes, FieldLines, Sturdy, HeadReads, ParseLine, FirstHeading, Unmarked, IsAutoReply, LineFree;
    hide NothingStray, PrintLine, SenderOf;
    ReceivedC(to, text, sent, r);
    var received := FromBytes(r.rawMessage).value;
    var m := Stamped(received, now, CertificateSender(r));
    assert m.senders == OwnSenders(r.client) && m.body == received.body;
    SameSubject(received, m);
    CertificateHead(m, r.client);
    MarkedExact(m);
    StampsHaveNoHash(m.timestamps);
    DisguiseSplit(FieldLines(CertificateLine(r.client)), RecipientLine(m), TimestampLine(m));
  }

  /** A reply is due for a reply: some server, in some state, at some time. */
  ghost predicate AnsweredOverC(cfg: Config, box: Mailbox, last: LastSent, interval: int, now: DateTime,
                                to: string, text: string, sent: DateTime, r: Request.Request)
  {
    && ReplyOverC(to, text, sent, r) && Prepare(r, now).Some?
    && ReplyTarget(cfg, box, last, interval, Prepare(r, now).value, Instant(now)).Some?
  }

  lemma TargetIsAnswerable(cfg: Config, box: Mailbox, last: LastSent, interval: int, data: seq<byte>, now: int)
    ensures ReplyTarget(cfg, box, last, interval, data, now).Some?
            ==> FromBytes(data).Success? && Answerable(FromBytes(data).value)
    ensures FromBytes(data).Success? && Answerable(FromBytes(data).value)
            && cfg.autoReply && box.autoReplies && last == map[]
            ==> ReplyTarget(cfg, box, last, interval, data, now) == Some(FromBytes(data).value.senders[0])
  {
    hide FromBytes, IsAutoReply;
  }

  lemma AnsweredOnlyForgedC(cfg: Config, box: Mailbox, last: LastSent, interval: int, now: DateTime,
                            to: string, text: string, sent: DateTime, r: Request.Request)
    requires AnsweredOverC(cfg, box, last, interval, now, to, text, sent, r)
    ensures ForgesC(CertificateLine(r.client))
  {
    hide FromBytes, ToBytes, FieldLines, Sturdy, HeadReads, ParseLine, FirstHeading, Answerable, ReplyTarget, PrintLine;
    hide Instant, ReplyOverC, ReplyMessage, CertificateLine, Contains;
    ReplyIsC(to, text, sent, r);
    PreparedParses(r, now);
    TargetIsAnswerable(cfg, box, last, interval, Prepare(r, now).value, Instant(now));
    AnswerableC(to, text, sent, r, now);
    var p := FieldLines(CertificateLine(r.client));
    FirstHeadingConcat(p[3..], [PrintLine(PrintAddress, FromBytes(r.rawMessage).value.recipients)]);
  }

  lemma PreparedParses(r: Request.Request, now: DateTime)
    requires r.version.C? && Prepare(r, now).Some?
    ensures FromBytes(r.rawMessage).Success?
  {
  }

  lemma ReplyIsC(to: string, text: string, sent: DateTime, r: Request.Request)
    requires ReplyOverC(to, text, sent, r)
    ensures r.version.C?
  {
  }

  /** The reply that goes to an address parses on arrival. */
  lemma SentReplyParses(a: Address, text: string, sent: DateTime)
    requires ListSafe(a) && a.blurb == "" && |a.Text()| <= 100 && '\r' !in text && Valid(sent)
    ensures '@' in a.Text() && LineFree(a.Text())
    ensures var reply := ReplyMessage(a.Text(), text, sent);
            reply.recipients == [a] && FromBytes(ToBytes(reply)) == Success(Truncated(reply))
  {
    hide FromBytes, ToBytes, Valid, Stamp, IsAutoReply, LineFits, Sending.ComposeBody, Canonical;
    var reply := ReplyMessage(a.Text(), text, sent);
    assert '@' !in a.hostname by { SafeHost(a); }
    assert a.Text() == a.mailbox + ['@'] + a.hostname;
    LastIndexOfAt(a.mailbox, '@', a.hostname);
    assert a.Text()[..|a.mailbox|] == a.mailbox && a.Text()[|a.mailbox| + 1..] == a.hostname;
    assert LineFree(a.Text()) by { AddressLines(a); }
    ReplyLines(a.Text(), text, sent);
    SingleItem(PrintAddress, reply.recipients);
    SingleItem(Stamp, reply.timestamps);
    assert Fits(reply) by {
      StampLength(sent);
      ShortLineFits(SenderLine(reply));
      ShortLineFits(RecipientLine(reply));
      ShortLineFits(TimestampLine(reply));
    }
    Reparse(reply);
  }

  lemma SafeHost(a: Address)
    requires ListSafe(a)
    ensures '@' !in a.hostname
  {
  }

  lemma AddressLines(a: Address)
    requires ListSafe(a)
    ensures LineFree(a.Text())
  {
  }

  lemma StampLength(t: DateTime)
    ensures |Stamp(t)| == 20
  {
  }

  /** A request as it arrives with a reply, from a peer with the given certificate. */
  function ReplyRequest(to: string, text: string, sent: DateTime, client: Option<Request.Identity>): Request.Request
    requires '@' in to
  {
    var raw := ToBytes(ReplyMessage(to, text, sent));
    Request.Request("b", "h", |raw|, raw, [], client, Request.C)
  }

  const EPOCH := DateTime(2000, 1, 1, 0, 0, 0, 0)
  const ANSWERING := Config("h", "", map[], true, false, false, false)
  const BOX := Mailbox(map[], {}, None, true, false)

  /** An address whose text is a heading. */
  const HASHED := Address("#x", "h", "")

  function HashedReply(client: Option<Request.Identity>): (r: Request.Request)
    ensures r.client == client
  {
    ReplyRequest("#x@h", "", EPOCH, client)
  }

  lemma HashedAddress()
    ensures ListSafe(HASHED) && HASHED.Text() == "#x@h" && PrintLine(PrintAddress, [HASHED]) == "#x@h"
  {
    hide Contains;
    SingleItem(PrintAddress, [HASHED]);
  }

  lemma HashedHeading()
    ensures FirstHeading(["#x@h"]) == Some("x@h") && !Contains("x@h", AUTO_REPLY)
  {
    hide Strip;
    StripTrimmed("#x@h");
    StripTrimmed("x@h");
    assert "#x@h"[1..] == "x@h";
  }

  /**
   Over all senders of replies, texts, times, servers and their states: no automatic reply that arrives
   over C with a certificate is answered, exactly when the certificate does not forge.
   */
  lemma RepliesExactC(client: Option<Request.Identity>)
    ensures (forall cfg, box, last, interval, now, to, text, sent, r: Request.Request | r.client == client ::
               !AnsweredOverC(cfg, box, last, interval, now, to, text, sent, r))
            <==> !ForgesC(CertificateLine(client))
  {
    hide AnsweredOverC, ForgesC, CertificateLine, HashedReply;
    if ForgesC(CertificateLine(client)) {
      ForgedIsAnswered(client);
    } else {
      forall cfg, box, last, interval, now, to, text, sent, r: Request.Request | r.client == client
        ensures !AnsweredOverC(cfg, box, last, interval, now, to, text, sent, r)
      {
        if AnsweredOverC(cfg, box, last, interval, now, to, text, sent, r) {
          AnsweredOnlyForgedC(cfg, box, last, interval, now, to, text, sent, r);
        }
      }
    }
  }

  lemma ForgedIsAnswered(client: Option<Request.Identity>)
    requires ForgesC(CertificateLine(client))
    ensures AnsweredOverC(ANSWERING, BOX, map[], 0, EPOCH, "#x@h", "", EPOCH, HashedReply(client))
  {
    hide FromBytes, ToBytes, FieldLines, Sturdy, HeadReads, ParseLine, FirstHeading, Contains, Answerable, ReplyTarget;
    hide CertificateLine, ReplyMessage, PrintLine, ListSafe, Instant, Prepare;
    var r := HashedReply(client);
    HashedAddress();
    HashedHeading();
    SentReplyParses(HASHED, "", EPOCH);
    AnswerableC("#x@h", "", EPOCH, r, EPOCH);
    var p := FieldLines(CertificateLine(client));
    FirstHeadingConcat(p[3..], ["#x@h"]);
    TargetIsAnswerable(ANSWERING, BOX, map[], 0, Prepare(r, EPOCH).value, Instant(EPOCH));
  }

  // -- A certificate that forges --

  /** A common name with a blank recipient line, a blank timestamp line and a heading of its own. */
  const FORGED := Request.Identity("m", "k", "x\n\n\n# Hi", "")

  const CLAIMED := Address("m", "k", "x")

  lemma ForgedLines()
    ensures FieldLines("m@k x\n\n\n# Hi") == ["m@k x", "", "", "# Hi"]
    ensures Sturdy("m@k x\n\n\n# Hi")
  {
    hide FieldLines, Split;
    var (a, tail) := ("m@k x", "# Hi");
    var line := a + "\n" + ("" + "\n" + ("" + "\n" + tail));
    assert line == "m@k x\n\n\n# Hi";
    NormalizeCrFree(line + "\n");
    assert Ended(line)[..|Ended(line)| - 1] == line;
    FieldLinesAre(line);
    SplitFour(a, "", "", tail);
    SplitWhole(tail, '\n');
    var lines := Split(line, '\n');
    assert lines == lines[..3] + lines[3..] == [a, "", "", tail];
  }

  lemma FieldLinesAre(field: string)
    requires '\r' !in field
    ensures FieldLines(field) == Split(field, '\n')
  {
    hide Split;
    NormalizeCrFree(field + "\n");
    assert Ended(field)[..|Ended(field)| - 1] == field;
  }

  lemma ForgedNamesSender()
    ensures var p := ["m@k x", "", "", "# Hi"];
            && NamesSender(p) && ParseLine(ParseAddress, p[0]) == Success([CLAIMED])
            && FirstHeading(p[3..]) == Some("Hi") && !Contains("Hi", AUTO_REPLY)
  {
    hide ParseLine, LineFits, Strip, Contains;
    var p := ["m@k x", "", "", "# Hi"];
    assert p[3..] == ["# Hi"];
    ClaimedRead();
    EmptyLine(ParseAddress);
    EmptyLine(ParseTimestamp);
    ShortLineFits(p[0]);
    HiHeading();
  }

  lemma ClaimedRead()
    ensures ParseLine(ParseAddress, "m@k x") == Success([CLAIMED])
  {
    hide ParseLine, PrintLine;
    assert ListSafe(CLAIMED) && CLAIMED.Print() == "m@k x";
    SingleItem(PrintAddress, [CLAIMED]);
    AddressesReadBack([CLAIMED]);
  }

  lemma HiHeading()
    ensures FirstHeading(["# Hi"]) == Some("Hi") && !Contains("Hi", AUTO_REPLY)
  {
    hide Strip;
    StripTrimmed("# Hi");
    StripTrimmed("Hi");
    assert "# Hi"[1..] == [' '] + "Hi";
    assert DropHashes("# Hi") == [' '] + "Hi";
    StripLeading(' ', "Hi");
  }

  /** The automatic reply to `b@h`, whatever its text, gets one itself when it comes with this certificate. */
  lemma ForgedReplyIsAnswered(
      cfg: Config, box: Mailbox, interval: int, text: string, sent: DateTime, now: DateTime)
    requires cfg.autoReply && box.autoReplies && '\r' !in text && Valid(sent)
    ensures '@' in "b@h"
    ensures var r := ReplyRequest("b@h", text, sent, Some(FORGED));
            && Prepare(r, now).Some?
            && ReplyTarget(cfg, box, map[], interval, Prepare(r, now).value, Instant(now)) == Some(CLAIMED)
  {
    hide FromBytes, ToBytes, FieldLines, Sturdy, HeadReads, ParseLine, FirstHeading, Contains, Answerable, ReplyTarget;
    hide ReplyMessage, PrintLine, ListSafe, Instant, Prepare;
    var r := ReplyRequest("b@h", text, sent, Some(FORGED));
    var to := Address("b", "h", "");
    assert ListSafe(to) && to.Text() == "b@h" by { SmallTarget(); }
    SentReplyParses(to, text, sent);
    AnswerableC("b@h", text, sent, r, now);
    assert CertificateLine(r.client) == "m@k x\n\n\n# Hi";
    ForgedLines();
    ForgedNamesSender();
    SingleItem(PrintAddress, [to]);
    var p := FieldLines(CertificateLine(r.client));
    assert p[3..] == ["# Hi"];
    FirstHeadingConcat(["# Hi"], ["b@h"]);
    TargetIsAnswerable(cfg, box, map[], interval, Prepare(r, now).value, Instant(now));
  }

  lemma SmallTarget()
    ensures ListSafe(Address("b", "h", "")) && Address("b", "h", "").Text() == "b@h"
  {
  }

  // -- Over B --

  lemma {:induction false} JoinedWordsTrimmed(ws: seq<string>)
    requires forall w | w in ws :: w != "" && SpaceFree(w)
    ensures Trimmed(Join(ws, " ")) && (ws != [] ==> Join(ws, " ") != "")
  {
    if ws != [] {
      assert ws[0] in ws;
      assert ws[0][0] in ws[0] && ws[0][|ws[0]| - 1] in ws[0];
      if |ws| > 1 {
        assert forall w | w in ws[1..] :: w in ws;
        JoinedWordsTrimmed(ws[1..]);
      }
    }
  }

  /** The collapsed body of a reply starts with the heading and is trimmed. */
  lemma CollapsedReply(text: string) returns (tail: string)
    ensures Collapse(Sending.ComposeBody(text, AUTO_REPLY)) == "# " + AUTO_REPLY + tail
    ensures Trimmed(AUTO_REPLY + tail)
  {
    hide Words, IsSpace, Sending.ComposeBody;
    var rest := ReplyBody(text);
    var body := Sending.ComposeBody(text, AUTO_REPLY);
    var after := AUTO_REPLY + ['\n'] + rest;
    assert body == "#" + [' '] + after;
    MarkersAreWords();
    WordsStep("#", ' ', after);
    WordsStep(AUTO_REPLY, '\n', rest);
    var ws := [AUTO_REPLY] + Words(rest);
    assert Words(body) == ["#"] + ws;
    assert (["#"] + ws)[1..] == ws;
    assert Collapse(body) == "#" + " " + Join(ws, " ");
    assert ws[1..] == Words(rest);
    tail := Join(ws, " ")[|AUTO_REPLY|..];
    assert AUTO_REPLY <= Join(ws, " ");
    assert Join(ws, " ") == AUTO_REPLY + tail;
    JoinedWordsTrimmed(ws);
  }

  lemma MarkersAreWords()
    ensures SpaceFree("#") && SpaceFree(AUTO_REPLY) && IsSpace(' ') && IsSpace('\n')
  {
  }

  /** The text a B request carries for a message in C form is the collapsed body of the message. */
  lemma CollapsedBodyOf(r: Request.Request, m: Message)
    requires r.rawMessage == ToBytes(m)
    requires LineFree(SenderLine(m)) && LineFree(RecipientLine(m))
    ensures Request.CollapsedBody(r) == Success(Collapse(m.body))
  {
    hide Split, Join, Collapse, PrintLine, Encode;
    StampLineFree(m.timestamps);
    DecodeEncode(MessageText(m));
    SplitFour(SenderLine(m), RecipientLine(m), TimestampLine(m), m.body);
    JoinSplit(m.body, '\n');
    assert r.rawMessage != [] by { NonEmptyText(m); }
  }

  lemma NonEmptyText(m: Message)
    ensures ToBytes(m) != []
  {
    EncodeNonEmpty(MessageText(m));
  }

  /** A collapsed line without a metadata mark is read as a body and nothing else. */
  lemma CollapsedLineRead(line: string)
    requires line != "" && line[0] == '#'
    requires '\r' !in line && '\n' !in line
    ensures FromBytesB(Encode(line)) == Success(Message([], [], [], line))
  {
    hide Split, ScanLines, Encode;
    DecodeEncode(line);
    NormalizeCrFree(line);
    SplitWhole(line, '\n');
    assert line[0] != SENDER_MARK[0] && line[0] != RECIPIENTS_MARK[0] && line[0] != STAMP_MARK[0];
    UnmarkedLine(line);
  }

  lemma CollapsedHasNoBreaks(s: string)
    ensures '\r' !in Collapse(s) && '\n' !in Collapse(s)
  {
    if '\r' in Collapse(s) { CollapseSpaces(s, '\r'); }
    if '\n' in Collapse(s) { CollapseSpaces(s, '\n'); }
  }

  /** The same over the B fallback: the message the client collapsed, sent to a mailbox of the server. */
  ghost predicate ReplyOverB(hostname: string, to: string, text: string, sent: DateTime, r: Request.Request) {
    && '@' in to && LineFree(to) && '\r' !in text
    && r.version.B? && r.hostname == hostname && LineFree(hostname) && ValidMailbox(r.mailbox)
    && var collapsed := Request.CollapsedBody(Sending.MakeRequest(to, ToBytes(ReplyMessage(to, text, sent))));
       collapsed.Success? && r.rawMessage == Encode(collapsed.value)
  }

  /** A collapsed reply is its marked line and nothing else. */
  lemma ReceivedB(hostname: string, to: string, text: string, sent: DateTime, r: Request.Request) returns (line: string)
    requires ReplyOverB(hostname, to, text, sent, r)
    ensures FromBytesB(r.rawMessage) == Success(Message([], [], [], line))
    ensures '\r' !in line && IsAutoReply(Message([], [], [], line))
  {
    hide FromBytesB, ToBytes, LineFree, Sending.ComposeBody, Collapse, Strip, IsSpace, Contains, ValidMailbox;
    var reply := ReplyMessage(to, text, sent);
    ReplyLines(to, text, sent);
    CollapsedBodyOf(Sending.MakeRequest(to, ToBytes(reply)), reply);
    var tail := CollapsedReply(text);
    line := Collapse(reply.body);
    assert line == "# " + AUTO_REPLY + tail;
    CollapsedHasNoBreaks(reply.body);
    CollapsedLineRead(line);
    HeadingText(tail);
    SplitWhole(line, '\n');
    ContainsPrefix(AUTO_REPLY + tail, AUTO_REPLY);
  }

  /** The certificate brings in metadata and a heading of its own; a mailbox of the server is no heading. */
  predicate ForgesB(line: string) {
    Sturdy(line) && Disguise(FieldLines(line))
  }

  lemma MailboxIsNoHeading(mailbox: string, hostname: string)
    requires ValidMailbox(mailbox) && LineFree(hostname)
    ensures var a := Address(mailbox, hostname, "");
            LineFree(PrintLine(PrintAddress, [a])) && FirstHeading([PrintLine(PrintAddress, [a])]) == None
  {
    hide Strip;
    var a := Address(mailbox, hostname, "");
    SingleItem(PrintAddress, [a]);
    var line := a.Print();
    assert mailbox[0] in mailbox;
    assert forall c | c in mailbox :: c != '\n' && c != '\r';
    FirstKept(line);
    assert [line][1..] == [];
  }

  lemma FirstKept(line: string)
    requires line != "" && !IsSpace(line[0])
    ensures Strip(line) != "" && Strip(line)[0] == line[0]
  {
    StripBlank(line);
    assert line[0] in line;
  }

  /** A reply over B can be answered, once stored, exactly when the certificate forges. */
  lemma AnswerableB(hostname: string, to: string, text: string, sent: DateTime, r: Request.Request, now: DateTime)
    requires ReplyOverB(hostname, to, text, sent, r)
    ensures Prepare(r, now).Some?
    ensures var back := FromBytes(Prepare(r, now).value);
            back.Success? && Answerable(back.value) <==> ForgesB(CertificateLine(r.client))
  {
    hide FromBytes, FromBytesB, ToBytes, FieldLines, Sturdy, HeadReads, ParseLine, FirstHeading, IsAutoReply;
    hide NothingStray, PrintLine, SenderOf, ReplyMessage, Request.CollapsedBody, ValidMailbox, LineFree, Contains;
    var line := ReceivedB(hostname, to, text, sent, r);
    var received := Message([], [], [], line);
    var m := Addressed(Stamped(received, now, CertificateSender(r)), r);
    assert m.senders == OwnSenders(r.client) && m.body == line;
    SameSubject(received, m);
    MailboxIsNoHeading(r.mailbox, r.hostname);
    CertificateHead(m, r.client);
    MarkedExact(m);
    StampsHaveNoHash(m.timestamps);
    var p := FieldLines(CertificateLine(r.client));
    DisguiseSplit(p, RecipientLine(m), TimestampLine(m));
    if |p| >= 3 { FirstHeadingConcat(p[3..], [RecipientLine(m)]); }
  }

  ghost predicate AnsweredOverB(cfg: Config, box: Mailbox, last: LastSent, interval: int, now: DateTime,
                                to: string, text: string, sent: DateTime, r: Request.Request)
  {
    && ReplyOverB(cfg.hostname, to, text, sent, r) && Prepare(r, now).Some?
    && ReplyTarget(cfg, box, last, interval, Prepare(r, now).value, Instant(now)).Some?
  }

  lemma AnsweredOnlyForgedB(cfg: Config, box: Mailbox, last: LastSent, interval: int, now: DateTime,
                            to: string, text: string, sent: DateTime, r: Request.Request)
    requires AnsweredOverB(cfg, box, last, interval, now, to, text, sent, r)
    ensures ForgesB(CertificateLine(r.client))
  {
    hide FromBytes, Answerable, ReplyTarget, Instant, ReplyOverB, ForgesB, CertificateLine, Prepare;
    TargetIsAnswerable(cfg, box, last, interval, Prepare(r, now).value, Instant(now));
    AnswerableB(cfg.hostname, to, text, sent, r, now);
  }

  function CollapsedReplyTo(client: Option<Request.Identity>): (r: Request.Request)
    ensures r.client == client
  {
    var outgoing := Sending.MakeRequest("b@h", ToBytes(ReplyMessage("b@h", "", EPOCH)));
    var body := Request.CollapsedBody(outgoing);
    var raw := if body.Success? then Encode(body.value) else [];
    Request.Request("b", "h", |raw|, raw, [], client, Request.B)
  }

  lemma CollapsedReplyIsOne(client: Option<Request.Identity>)
    ensures ReplyOverB("h", "b@h", "", EPOCH, CollapsedReplyTo(client))
  {
    hide ToBytes, Encode, Collapse, LineFree, ReplyMessage, Request.CollapsedBody, ValidMailbox;
    assert LineFree("b@h") && LineFree("h") by { ShortNames(); }
    ReplyLines("b@h", "", EPOCH);
    var reply := ReplyMessage("b@h", "", EPOCH);
    CollapsedBodyOf(Sending.MakeRequest("b@h", ToBytes(reply)), reply);
    OneLetter();
  }

  lemma ShortNames()
    ensures LineFree("b@h") && LineFree("h")
  {
  }

  /**
   Over all of them again: no automatic reply that arrives collapsed is answered, exactly when the
   certificate does not forge.
   */
  lemma RepliesExactB(client: Option<Request.Identity>)
    ensures (forall cfg, box, last, interval, now, to, text, sent, r: Request.Request | r.client == client ::
               !AnsweredOverB(cfg, box, last, interval, now, to, text, sent, r))
            <==> !ForgesB(CertificateLine(client))
  {
    hide AnsweredOverB, ForgesB, CertificateLine, CollapsedReplyTo;
    if ForgesB(CertificateLine(client)) {
      ForgedIsAnsweredB(client);
    } else {
      forall cfg, box, last, interval, now, to, text, sent, r: Request.Request | r.client == client
        ensures !AnsweredOverB(cfg, box, last, interval, now, to, text, sent, r)
      {
        if AnsweredOverB(cfg, box, last, interval, now, to, text, sent, r) {
          AnsweredOnlyForgedB(cfg, box, last, interval, now, to, text, sent, r);
        }
      }
    }
  }

  /** Without a line feed in it, a certificate forges nothing, in either form. */
  lemma OneLineForgesNothing(line: string)
    requires '\n' !in line
    ensures !ForgesC(line) && !ForgesB(line)
  {
    FieldLinesCount(line);
  }

  lemma ForgedIsAnsweredB(client: Option<Request.Identity>)
    requires ForgesB(CertificateLine(client))
    ensures AnsweredOverB(ANSWERING, BOX, map[], 0, EPOCH, "b@h", "", EPOCH, CollapsedReplyTo(client))
  {
    hide FromBytes, Answerable, ReplyTarget, Instant, ReplyOverB, ForgesB, CertificateLine, Prepare, CollapsedReplyTo;
    var r := CollapsedReplyTo(client);
    CollapsedReplyIsOne(client);
    AnswerableB("h", "b@h", "", EPOCH, r, EPOCH);
    TargetIsAnswerable(ANSWERING, BOX, map[], 0, Prepare(r, EPOCH).value, Instant(EPOCH));
  }

  /** The certificate above forges in both forms. */
  lemma ForgedForges()
    ensures ForgesB(CertificateLine(Some(FORGED))) && ForgesC(CertificateLine(Some(FORGED)))
  {
    hide FieldLines, NamesSender, Sturdy, FirstHeading, Contains;
    assert CertificateLine(Some(FORGED)) == "m@k x\n\n\n# Hi";
    ForgedLines();
    ForgedNamesSender();
  }
}
