/** What becomes of a request: the cascade of `FileMailboxHandler`. */
module Delivery {
  import opened Wrappers
  import opened Text
  import opened Utf8
  import opened Calendar
  import opened Response
  import opened Gemmail
  import opened GemmailC
  import opened Preparation
  import opened AutoReply
  import opened MessageId
  import GemmailB
  import GmapIndex
  import Request
  import Subscribers

  datatype Config = Config(
    hostname: string,
    identityFingerprint: string,
    recipientFingerprints: map<string, string>,
    autoReply: bool,
    lists: bool,
    archive: bool,
    tokens: bool)

  /** A mailbox directory: messages, block list, subscriber file of a list, auto-reply file, key. */
  datatype Mailbox = Mailbox(
    files: map<string, seq<byte>>,
    blocked: set<string>,
    subscribers: Option<string>,
    autoReplies: bool,
    encrypted: bool)

  type Mailboxes = map<string, Mailbox>

  datatype Command = Subscribe | Confirm(token: string) | Unsubscribe

  /** Where the cascade ends: an answer, a list command to carry out, or a delivery. */
  datatype Disposition =
    | Answer(response: Response)
    | ListCommand(mailbox: string, command: Command, senders: seq<Address>)
    | Deliver(mailbox: string, data: seq<byte>, stored: bool)

  predicate ValidMailbox(name: string) {
    name != "" && !Contains(name, "..") && forall c | c in name :: Subscribers.AddressChar(c)
  }

  lemma OneLetter()
    ensures ValidMailbox("b")
  {
    assert forall i | 0 <= i <= 1 :: !(".." <= "b"[i..]);
  }

  /** The certificate's address, then the senders the message names, if it can be read. */
  function CollectSenders(r: Request.Request): seq<Address> {
    var own := OwnSenders(r.client);
    if r.rawMessage == [] then own
    else match ParseMessage(r) {
      case Success(m) => own + m.senders
      case Failure(_) => own
    }
  }

  predicate AnyBlocked(senders: seq<Address>, blocked: set<string>) {
    exists i | 0 <= i < |senders| :: Lower(senders[i].Text()) in blocked
  }

  predicate IsHexDigit(c: char) {
    IsDigit(c) || 'a' <= c <= 'f' || 'A' <= c <= 'F'
  }

  predicate IsToken(word: string) {
    |word| == 6 && forall c | c in word :: IsHexDigit(c)
  }

  /** The command a body consists of, after an optional heading mark; letters in any case. */
  function ParseCommand(body: string): Option<Command> {
    var stripped := Strip(body);
    var words := Words(if "# " <= stripped then stripped[2..] else stripped);
    if |words| == 1 && Lower(words[0]) == "subscribe" then Some(Subscribe)
    else if |words| == 1 && Lower(words[0]) == "unsubscribe" then Some(Unsubscribe)
    else if |words| == 2 && Lower(words[0]) == "confirm" && IsToken(words[1]) then Some(Confirm(words[1]))
    else None
  }

  function CommandIn(data: seq<byte>): Option<Command> {
    match FromBytes(data)
    case Success(m) => ParseCommand(m.body)
    case Failure(_) => None
  }

  predicate ActiveList(cfg: Config, box: Mailbox) {
    cfg.lists && box.subscribers.Some?
  }

  /** The list's own address among the recipients. */
  predicate Loops(cfg: Config, mailbox: string, data: seq<byte>) {
    match FromBytes(data)
    case Success(m) =>
      var list := Lower(mailbox + "@" + cfg.hostname);
      exists i | 0 <= i < |m.recipients| :: Lower(m.recipients[i].Text()) == list
    case Failure(_) => false
  }

  predicate MayPost(senders: seq<Address>, text: string) {
    exists i | 0 <= i < |senders| :: Subscribers.IsSubscriber(senders[i].Text(), Subscribers.Load(text))
  }

  /** From the prepared message on: list command, posting restriction, delivery. */
  function DisposePrepared(cfg: Config, box: Mailbox, mailbox: string, senders: seq<Address>, data: seq<byte>)
    : Disposition
  {
    if !ActiveList(cfg, box) then Deliver(mailbox, data, true)
    else if cfg.tokens && CommandIn(data).Some? then ListCommand(mailbox, CommandIn(data).value, senders)
    else if Loops(cfg, mailbox, data) then Answer(Response(59, "Loop detected: list address in recipients"))
    else if !MayPost(senders, box.subscribers.value) then Answer(Response(61, "Only subscribers may post to this list"))
    else Deliver(mailbox, data, cfg.archive)
  }

  /** `handle_message` up to its effects. */
  function Dispose(cfg: Config, boxes: Mailboxes, r: Request.Request, now: DateTime): Disposition {
    if r.hostname != cfg.hostname then Answer(Response(53, "Domain not serviced by this server"))
    else if r.contentLength == 0 then Answer(Response(20, cfg.identityFingerprint))
    else if !ValidMailbox(r.mailbox) then Answer(Response(59, "Invalid mailbox name"))
    else if r.mailbox !in boxes then Answer(Response(51, "Mailbox does not exist"))
    else if AnyBlocked(CollectSenders(r), boxes[r.mailbox].blocked) then Answer(Response(61, "Sender blocked"))
    else match Prepare(r, now) {
      case None => Answer(Response(59, "Invalid message format"))
      case Some(data) => DisposePrepared(cfg, boxes[r.mailbox], r.mailbox, CollectSenders(r), data)
    }
  }

  // -- Stored files --

  function CompactStamp(t: DateTime): (s: string)
    ensures |s| == 16
  {
    Fixed(t.year, 4) + Fixed(t.month, 2) + Fixed(t.day, 2) + "T"
    + Fixed(t.hour, 2) + Fixed(t.minute, 2) + Fixed(t.second, 2) + "Z"
  }

  function Stem(now: DateTime, id: string): string {
    CompactStamp(now) + "-" + id
  }

  function StoredName(now: DateTime, id: string, encrypted: bool): string {
    Stem(now, id) + (if encrypted then ENC_NEW else NEW)
  }

  predicate HexId(id: string) {
    id != "" && forall c | c in id :: IsHex(c)
  }

  lemma StemIsValidId(now: DateTime, id: string)
    requires HexId(id)
    ensures ValidId(Stem(now, id))
  {
    hide Fixed;
    var s := CompactStamp(now);
    assert s[..8] == Fixed(now.year, 4) + Fixed(now.month, 2) + Fixed(now.day, 2);
    assert s[9..15] == Fixed(now.hour, 2) + Fixed(now.minute, 2) + Fixed(now.second, 2);
    assert Stem(now, id)[..16] == s && Stem(now, id)[17..] == id;
  }

  /** Every delivered file is one that a GMAP scan recognises, under the ID the server gave it. */
  lemma StoredFilesAreRecognised(now: DateTime, id: string, encrypted: bool)
    requires HexId(id)
    ensures ParseMessageId(StoredName(now, id, encrypted)) == Some(Stem(now, id))
  {
    hide ParseMessageId, Stem;
    StemIsValidId(now, id);
    NamedById(Stem(now, id), if encrypted then ENC_NEW else NEW);
  }

  /** The mailboxes after a disposition: a stored delivery adds one file and changes nothing else. */
  function AfterDelivery(boxes: Mailboxes, d: Disposition, encrypt: seq<byte> -> seq<byte>, now: DateTime, id: string)
    : Mailboxes
  {
    if d.Deliver? && d.stored && d.mailbox in boxes then
      var box := boxes[d.mailbox];
      var data := if box.encrypted then encrypt(d.data) else d.data;
      boxes[d.mailbox := box.(files := box.files[StoredName(now, id, box.encrypted) := data])]
    else boxes
  }

  function Fingerprint(cfg: Config, mailbox: string): string {
    if mailbox in cfg.recipientFingerprints then cfg.recipientFingerprints[mailbox] else ""
  }

  /** What the client is told; a list command is answered by whoever carries it out. */
  function ResponseTo(cfg: Config, d: Disposition): Option<Response> {
    match d
    case Answer(a) => Some(a)
    case ListCommand(_, _, _) => None
    case Deliver(mailbox, _, _) => Some(Response(20, Fingerprint(cfg, mailbox)))
  }

  /** The first sender an auto-reply goes to, if one is due for the delivered data. */
  function ReplyTarget(cfg: Config, box: Mailbox, last: LastSent, interval: int, data: seq<byte>, now: int)
    : Option<Address>
  {
    match FromBytes(data)
    case Failure(_) => None
    case Success(m) =>
      if cfg.autoReply && ShouldReply(last, interval, box.autoReplies, m, now) then Some(m.senders[0]) else None
  }

  function RecordedReply(last: LastSent, to: Option<Address>, now: int): LastSent {
    match to
    case None => last
    case Some(a) => last[Lower(a.Text()) := now]
  }

  class FileMailboxHandler {
    const cfg: Config
    const encrypt: seq<byte> -> seq<byte>
    const responder: AutoResponder
    var mailboxes: Mailboxes

    constructor (cfg: Config, encrypt: seq<byte> -> seq<byte>, responder: AutoResponder, mailboxes: Mailboxes)
      ensures this.cfg == cfg && this.encrypt == encrypt && this.responder == responder && this.mailboxes == mailboxes
    {
      this.cfg, this.encrypt, this.responder, this.mailboxes := cfg, encrypt, responder, mailboxes;
    }

    method FindBlockedSender(senders: seq<Address>, blocked: set<string>) returns (found: bool)
      ensures found == AnyBlocked(senders, blocked)
    {
      for i := 0 to |senders|
        invariant forall j | 0 <= j < i :: Lower(senders[j].Text()) !in blocked
      {
        if Lower(senders[i].Text()) in blocked {
          return true;
        }
      }
      return false;
    }

    /** `_prepare_message`: the stamps are inserted in front of the parsed lists. */
    method PrepareMessage(r: Request.Request, now: DateTime) returns (data: Option<seq<byte>>)
      ensures data == Prepare(r, now)
    {
      hide FromBytes, GemmailB.FromBytesB, GemmailC.ToBytes, LossyDecode, CertificateSender;
      var sender := CertificateSender(r);
      var parsed := ParseMessage(r);
      if parsed.Failure? && r.version.C? {
        return None;
      }
      var m := if parsed.Success? then parsed.value else PlainBody(r.rawMessage);
      m := m.(timestamps := [now] + m.timestamps);
      if sender.Some? {
        m := m.(senders := [sender.value] + m.senders);
      }
      if r.version.B? && m.recipients == [] {
        m := m.(recipients := [Address(r.mailbox, r.hostname, "")]);
      }
      return Some(GemmailC.ToBytes(m));
    }

    /** The whole cascade; `id` is the hash part of a stored file's name. */
    method HandleMessage(r: Request.Request, now: DateTime, id: string)
      returns (d: Disposition, response: Option<Response>, replyTo: Option<Address>)
      modifies this, responder
      ensures d == Dispose(cfg, old(mailboxes), r, now)
      ensures mailboxes == AfterDelivery(old(mailboxes), d, encrypt, now, id)
      ensures response == ResponseTo(cfg, d)
      ensures d.Deliver? ==>
                replyTo == ReplyTarget(cfg, old(mailboxes)[r.mailbox], old(responder.lastSent), responder.interval,
                                       d.data, Instant(now))
      ensures !d.Deliver? ==> replyTo == None
      ensures responder.lastSent == RecordedReply(old(responder.lastSent), replyTo, Instant(now))
    {
      hide Prepare, CollectSenders, DisposePrepared, ValidMailbox, Instant;
      replyTo := None;
      if r.hostname != cfg.hostname {
        d := Answer(Response(53, "Domain not serviced by this server"));
        return d, Some(d.response), None;
      }
      if r.contentLength == 0 {
        d := Answer(Response(20, cfg.identityFingerprint));
        return d, Some(d.response), None;
      }
      if !ValidMailbox(r.mailbox) {
        d := Answer(Response(59, "Invalid mailbox name"));
        return d, Some(d.response), None;
      }
      if r.mailbox !in mailboxes {
        d := Answer(Response(51, "Mailbox does not exist"));
        return d, Some(d.response), None;
      }
      var box := mailboxes[r.mailbox];
      var senders := CollectSenders(r);
      var blocked := FindBlockedSender(senders, box.blocked);
      if blocked {
        d := Answer(Response(61, "Sender blocked"));
        return d, Some(d.response), None;
      }
      var prepared := PrepareMessage(r, now);
      if prepared.None? {
        d := Answer(Response(59, "Invalid message format"));
        return d, Some(d.response), None;
      }
      var data := prepared.value;
      d := DisposePrepared(cfg, box, r.mailbox, senders, data);
      DeliveriesKeepData(cfg, box, r.mailbox, senders, data);
      match d
      case Answer(a) => response := Some(a);
      case ListCommand(_, _, _) => response := None;
      case Deliver(_, _, stored) =>
        if stored { StoreMessage(r.mailbox, data, now, id); }
        replyTo := MaybeAutoReply(box, data, now);
        response := Some(Response(20, Fingerprint(cfg, r.mailbox)));
    }

    method StoreMessage(mailbox: string, data: seq<byte>, now: DateTime, id: string)
      requires mailbox in mailboxes
      modifies this
      ensures mailboxes == AfterDelivery(old(mailboxes), Deliver(mailbox, data, true), encrypt, now, id)
    {
      hide StoredName;
      var box := mailboxes[mailbox];
      var content := if box.encrypted then encrypt(data) else data;
      mailboxes := mailboxes[mailbox := box.(files := box.files[StoredName(now, id, box.encrypted) := content])];
    }

    method MaybeAutoReply(box: Mailbox, data: seq<byte>, now: DateTime) returns (to: Option<Address>)
      modifies responder
      ensures to == ReplyTarget(cfg, box, old(responder.lastSent), responder.interval, data, Instant(now))
      ensures responder.lastSent == RecordedReply(old(responder.lastSent), to, Instant(now))
    {
      hide FromBytes, IsAutoReply, Instant;
      to := None;
      if cfg.autoReply {
        var parsed := FromBytes(data);
        if parsed.Success? {
          var due := responder.ShouldAutoReply(box.autoReplies, parsed.value, Instant(now));
          if due { to := Some(parsed.value.senders[0]); }
        }
      }
    }
  }

  lemma DeliveriesKeepData(cfg: Config, box: Mailbox, mailbox: string, senders: seq<Address>, data: seq<byte>)
    ensures var d := DisposePrepared(cfg, box, mailbox, senders, data);
            d.Deliver? ==> d.data == data && d.mailbox == mailbox
  {
  }

  /** A delivery is always of the prepared message: stamped, re-printed, and to the mailbox addressed. */
  lemma DeliveredIsPrepared(cfg: Config, boxes: Mailboxes, r: Request.Request, now: DateTime)
    ensures var d := Dispose(cfg, boxes, r, now);
            d.Deliver? ==> Prepare(r, now) == Some(d.data) && d.mailbox == r.mailbox && r.mailbox in boxes
  {
    hide Prepare, CollectSenders;
  }

  // -- A delivered file in the index --

  lemma StemParts(now: DateTime, id: string)
    ensures var s := Stem(now, id);
            && s[..4] == Fixed(now.year, 4) && s[4..6] == Fixed(now.month, 2) && s[6..8] == Fixed(now.day, 2)
            && s[9..11] == Fixed(now.hour, 2) && s[11..13] == Fixed(now.minute, 2) && s[13..15] == Fixed(now.second, 2)
  {
    hide Fixed;
  }

  /** The index shows a delivered message with the second of its delivery. */
  lemma DeliveryTimestamp(now: DateTime, id: string)
    requires Valid(now) && HexId(id)
    ensures ValidId(Stem(now, id)) && GmapIndex.TimestampOf(Stem(now, id)) == Stamp(now)
  {
    hide Fixed, Number, ValidId, Stem;
    StemIsValidId(now, id);
    StemParts(now, id);
    assert Pow10(2) == 100 && Pow10(4) == 10000 by { assert Pow10(1) == 10 && Pow10(3) == 1000; }
    NumberOfFixed(now.year, 4);
    NumberOfFixed(now.month, 2);
    NumberOfFixed(now.day, 2);
    NumberOfFixed(now.hour, 2);
    NumberOfFixed(now.minute, 2);
    NumberOfFixed(now.second, 2);
  }
}
