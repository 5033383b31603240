/** What the mailbox handler does with a request, in terms of the request, the block list and the subscribers. */
module Cascade {
  import opened Wrappers
  import opened Text
  import opened Utf8
  import opened Calendar
  import opened Response
  import opened Gemmail
  import opened GemmailC
  import opened GemmailB
  import opened Preparation
  import opened Delivery
  import AutoReply
  import Request
  import Subscribers

  // -- Who speaks --

  /** The address is the one in the certificate, which must have both parts, or a sender the message names. */
  predicate Speaks(r: Request.Request, a: Address) {
    || (r.client.Some?
        && r.client.value.mailbox != "" && r.client.value.hostname != ""
        && a == Address(r.client.value.mailbox, r.client.value.hostname, r.client.value.blurb))
    || (ParseMessage(r).Success? && a in ParseMessage(r).value.senders)
  }

  lemma EmptyNamesNobody(r: Request.Request)
    requires r.rawMessage == []
    ensures ParseMessage(r).Success? ==> ParseMessage(r).value.senders == []
  {
    assert Decode([]) == Some("");
    assert NormalizeNewlines("") == "" && CrOnlyBeforeLf("");
    SplitWhole("", '\n');
    UnmarkedLine("");
  }

  lemma SpeakersCollected(r: Request.Request)
    ensures forall a :: a in CollectSenders(r) <==> Speaks(r, a)
    ensures CollectSenders(r)
            == OwnSenders(r.client) + (if ParseMessage(r).Success? then ParseMessage(r).value.senders else [])
  {
    hide ParseMessage;
    if r.rawMessage == [] { EmptyNamesNobody(r); }
    assert OwnSenders(r.client) + [] == OwnSenders(r.client);
  }

  /** One of those who speak is on the block list, in lower case. */
  ghost predicate BlockedBy(r: Request.Request, blocked: set<string>) {
    exists a :: Speaks(r, a) && Lower(a.Text()) in blocked
  }

  ghost predicate Subscribed(r: Request.Request, text: string) {
    exists a :: Speaks(r, a) && Lower(a.Text()) in Subscribers.Load(text)
  }

  lemma BlockedIs(r: Request.Request, blocked: set<string>)
    ensures AnyBlocked(CollectSenders(r), blocked) <==> BlockedBy(r, blocked)
  {
    hide CollectSenders, Speaks;
    SpeakersCollected(r);
    var senders := CollectSenders(r);
    if a :| Speaks(r, a) && Lower(a.Text()) in blocked {
      var i :| 0 <= i < |senders| && senders[i] == a;
    }
    if i :| 0 <= i < |senders| && Lower(senders[i].Text()) in blocked {
      assert senders[i] in senders;
    }
  }

  lemma SubscribedIs(r: Request.Request, text: string)
    ensures MayPost(CollectSenders(r), text) <==> Subscribed(r, text)
  {
    hide CollectSenders, Speaks, Subscribers.Load;
    SpeakersCollected(r);
    var senders := CollectSenders(r);
    if a :| Speaks(r, a) && Lower(a.Text()) in Subscribers.Load(text) {
      var i :| 0 <= i < |senders| && senders[i] == a;
    }
    if i :| 0 <= i < |senders| && Lower(senders[i].Text()) in Subscribers.Load(text) {
      assert senders[i] in senders;
    }
  }

  // -- The guards --

  /** A mailbox name is made of letters, digits, dots, underscores and hyphens, without two dots in a row. */
  lemma MailboxNameExact(name: string)
    ensures ValidMailbox(name)
            <==> && name != "" && !(exists i :: 0 <= i && i + 1 < |name| && name[i] == '.' && name[i + 1] == '.')
                 && forall c | c in name ::
                      '0' <= c <= '9' || 'a' <= c <= 'z' || 'A' <= c <= 'Z' || c == '.' || c == '_' || c == '-'
  {
    if i :| 0 <= i && i + 1 < |name| && name[i] == '.' && name[i + 1] == '.' {
      assert ".." <= name[i..];
    }
    if Contains(name, "..") {
      var i :| 0 <= i <= |name| && ".." <= name[i..];
      assert name[i..][0] == '.' && name[i..][1] == '.';
      assert name[i] == '.' && name[i + 1] == '.';
    }
  }

  /** Such a name is one component of a path, and not the one that leads upwards. */
  lemma MailboxIsComponent(name: string)
    requires ValidMailbox(name)
    ensures name != "" && name != ".." && '/' !in name && '\\' !in name && '\0' !in name
  {
    MailboxNameExact(name);
    assert ".."[0] == '.' && ".."[1] == '.';
  }

  predicate Reaches(cfg: Config, boxes: Mailboxes, r: Request.Request) {
    r.hostname == cfg.hostname && r.contentLength > 0 && ValidMailbox(r.mailbox) && r.mailbox in boxes
  }

  /** The refusals before the senders are looked at, and the answer to a probe. */
  lemma GuardsExact(cfg: Config, boxes: Mailboxes, r: Request.Request, now: DateTime)
    requires !Reaches(cfg, boxes, r)
    ensures Dispose(cfg, boxes, r, now)
            == Answer(if r.hostname != cfg.hostname then Response(53, "Domain not serviced by this server")
                      else if r.contentLength == 0 then Response(20, cfg.identityFingerprint)
                      else if !ValidMailbox(r.mailbox) then Response(59, "Invalid mailbox name")
                      else Response(51, "Mailbox does not exist"))
  {
    hide Prepare, CollectSenders, ValidMailbox;
  }

  /** Past them a request is refused as blocked exactly when one of those who speak is on the block list. */
  lemma BlockedExact(cfg: Config, boxes: Mailboxes, r: Request.Request, now: DateTime)
    requires Reaches(cfg, boxes, r)
    ensures Dispose(cfg, boxes, r, now) == Answer(Response(61, "Sender blocked"))
            <==> BlockedBy(r, boxes[r.mailbox].blocked)
  {
    hide Prepare, CollectSenders, ValidMailbox, AnyBlocked, CommandIn, Loops, MayPost, BlockedBy;
    BlockedIs(r, boxes[r.mailbox].blocked);
    assert "Sender blocked"[0] == 'S' && "Only subscribers may post to this list"[0] == 'O';
  }

  /** A message in C form that does not parse is refused; one in B form never is for its format. */
  lemma FormatExact(cfg: Config, boxes: Mailboxes, r: Request.Request, now: DateTime)
    requires Reaches(cfg, boxes, r) && !BlockedBy(r, boxes[r.mailbox].blocked)
    ensures Dispose(cfg, boxes, r, now) == Answer(Response(59, "Invalid message format"))
            <==> r.version.C? && FromBytes(r.rawMessage).Failure?
    ensures Prepare(r, now).None? <==> r.version.C? && FromBytes(r.rawMessage).Failure?
  {
    hide CollectSenders, ValidMailbox, AnyBlocked, CommandIn, Loops, MayPost, BlockedBy, FromBytes, FromBytesB;
    hide GemmailC.ToBytes;
    BlockedIs(r, boxes[r.mailbox].blocked);
    assert "Invalid message format"[0] == 'I' && "Loop detected: list address in recipients"[0] == 'L';
  }

  // -- Delivery and lists --

  ghost predicate NamesRecipient(m: Message, address: string) {
    exists a :: a in m.recipients && Lower(a.Text()) == Lower(address)
  }

  lemma LoopsIs(cfg: Config, mailbox: string, data: seq<byte>)
    ensures Loops(cfg, mailbox, data)
            <==> FromBytes(data).Success? && NamesRecipient(FromBytes(data).value, mailbox + "@" + cfg.hostname)
  {
    hide FromBytes;
    if FromBytes(data).Success? {
      var recipients := FromBytes(data).value.recipients;
      var address := mailbox + "@" + cfg.hostname;
      if a :| a in recipients && Lower(a.Text()) == Lower(address) {
        var i :| 0 <= i < |recipients| && recipients[i] == a;
      }
      if i :| 0 <= i < |recipients| && Lower(recipients[i].Text()) == Lower(address) {
        assert recipients[i] in recipients;
      }
    }
  }

  /** A mailbox that is no active list stores every prepared message that nobody blocked has sent. */
  lemma PlainMailboxExact(cfg: Config, boxes: Mailboxes, r: Request.Request, now: DateTime)
    requires Reaches(cfg, boxes, r) && !BlockedBy(r, boxes[r.mailbox].blocked)
    requires Prepare(r, now).Some? && !(cfg.lists && boxes[r.mailbox].subscribers.Some?)
    ensures Dispose(cfg, boxes, r, now) == Deliver(r.mailbox, Prepare(r, now).value, true)
  {
    hide Prepare, CollectSenders, ValidMailbox, AnyBlocked, BlockedBy;
    BlockedIs(r, boxes[r.mailbox].blocked);
  }

  /**
   An active list carries out a command, refuses a message that already names it, and delivers another
   one exactly when one of those who speak is a subscriber, whoever the others are.
   */
  lemma ListExact(cfg: Config, boxes: Mailboxes, r: Request.Request, now: DateTime)
    requires Reaches(cfg, boxes, r) && !BlockedBy(r, boxes[r.mailbox].blocked)
    requires Prepare(r, now).Some? && cfg.lists && boxes[r.mailbox].subscribers.Some?
    ensures var data := Prepare(r, now).value;
            var back := FromBytes(data);
            var d := Dispose(cfg, boxes, r, now);
            if cfg.tokens && back.Success? && ParseCommand(back.value.body).Some? then
              d == ListCommand(r.mailbox, ParseCommand(back.value.body).value, CollectSenders(r))
            else if back.Success? && NamesRecipient(back.value, r.mailbox + "@" + cfg.hostname) then
              d == Answer(Response(59, "Loop detected: list address in recipients"))
            else if !Subscribed(r, boxes[r.mailbox].subscribers.value) then
              d == Answer(Response(61, "Only subscribers may post to this list"))
            else d == Deliver(r.mailbox, data, cfg.archive)
  {
    hide Prepare, CollectSenders, ValidMailbox, AnyBlocked, BlockedBy, FromBytes, ParseCommand, Loops, MayPost;
    hide NamesRecipient, Subscribed;
    BlockedIs(r, boxes[r.mailbox].blocked);
    SubscribedIs(r, boxes[r.mailbox].subscribers.value);
    LoopsIs(cfg, r.mailbox, Prepare(r, now).value);
  }

  // -- List commands --

  predicate HexToken(t: string) {
    |t| == 6 && forall c | c in t :: '0' <= c <= '9' || 'a' <= c <= 'f' || 'A' <= c <= 'F'
  }

  /** The words of a body, behind a heading mark if it starts with one. */
  predicate Says(body: string, words: seq<string>) {
    Words(body) == words || ("# " <= Strip(body) && Words(body) == ["#"] + words)
  }

  lemma CommandWords(body: string)
    ensures var stripped := Strip(body);
            var words := Words(if "# " <= stripped then stripped[2..] else stripped);
            if "# " <= stripped then Words(body) == ["#"] + words else Words(body) == words
  {
    hide Words, Strip, IsSpace;
    WordsStripped(body);
    var stripped := Strip(body);
    if "# " <= stripped {
      var rest := stripped[2..];
      assert stripped == "#" + [' '] + rest;
      assert SpaceFree("#") && IsSpace(' ') by { MarkAndSpace(); }
      WordsStep("#", ' ', rest);
    }
  }

  lemma MarkAndSpace()
    ensures SpaceFree("#") && IsSpace(' ')
  {
  }

  /** The words of a body that count for a command. */
  function CommandWordsOf(body: string): seq<string> {
    var stripped := Strip(body);
    Words(if "# " <= stripped then stripped[2..] else stripped)
  }

  lemma SaysIs(body: string, words: seq<string>)
    requires words != [] && words[0] != "#"
    ensures Says(body, words) <==> CommandWordsOf(body) == words
  {
    hide Words, Strip;
    CommandWords(body);
    if "# " <= Strip(body) {
      var said := CommandWordsOf(body);
      assert (["#"] + said)[0] == "#" && (["#"] + said)[1..] == said && (["#"] + words)[1..] == words;
    }
  }

  lemma LowerMark(w: string)
    requires Lower(w) == "subscribe" || Lower(w) == "unsubscribe" || Lower(w) == "confirm"
    ensures w != "#"
  {
  }

  /** Exactly which bodies are which command: the command word in any case, a token of six hex digits. */
  lemma CommandExact(body: string, token: string)
    ensures ParseCommand(body) == Some(Subscribe) <==> exists w :: Lower(w) == "subscribe" && Says(body, [w])
    ensures ParseCommand(body) == Some(Unsubscribe) <==> exists w :: Lower(w) == "unsubscribe" && Says(body, [w])
    ensures ParseCommand(body) == Some(Confirm(token))
            <==> HexToken(token) && exists w :: Lower(w) == "confirm" && Says(body, [w, token])
  {
    hide Words, Strip, Lower, Says;
    var words := CommandWordsOf(body);
    forall w | Lower(w) == "subscribe" || Lower(w) == "unsubscribe" || Lower(w) == "confirm"
      ensures Says(body, [w]) <==> words == [w]
      ensures Says(body, [w, token]) <==> words == [w, token]
    {
      LowerMark(w);
      SaysIs(body, [w]);
      SaysIs(body, [w, token]);
    }
    assert |words| == 1 ==> words == [words[0]];
    assert |words| == 2 ==> words == [words[0], words[1]];
    var command := ParseCommand(body);
    if command == Some(Subscribe) || command == Some(Unsubscribe) {
      assert Says(body, [words[0]]);
    } else if command == Some(Confirm(token)) {
      assert Says(body, [words[0], token]);
    }
  }

  // -- Answers and replies --

  /** A delivery is answered with success and the fingerprint known for the mailbox, if any. */
  lemma DeliveryAnswer(cfg: Config, mailbox: string, data: seq<byte>, stored: bool)
    ensures mailbox in cfg.recipientFingerprints ==>
              ResponseTo(cfg, Deliver(mailbox, data, stored)) == Some(Response(20, cfg.recipientFingerprints[mailbox]))
    ensures mailbox !in cfg.recipientFingerprints ==>
              ResponseTo(cfg, Deliver(mailbox, data, stored)) == Some(Response(20, ""))
    ensures forall r :: ResponseTo(cfg, Answer(r)) == Some(r)
  {
  }

  /** An automatic reply goes to the first sender of what was stored, and its time is recorded for it. */
  lemma ReplyExact(cfg: Config, box: Mailbox, last: AutoReply.LastSent, interval: int, data: seq<byte>, now: int)
    ensures var to := ReplyTarget(cfg, box, last, interval, data, now);
            var after := RecordedReply(last, to, now);
            if cfg.autoReply && FromBytes(data).Success?
               && AutoReply.ShouldReply(last, interval, box.autoReplies, FromBytes(data).value, now)
            then to == Some(FromBytes(data).value.senders[0])
                 && after == last[Lower(FromBytes(data).value.senders[0].Text()) := now]
            else to == None && after == last
  {
    hide FromBytes;
  }
}
