/** The senders that the block list is held against, and those that the stored message names. */
module StoredSenders {
  import opened Wrappers
  import opened Text
  import opened Calendar
  import opened Gemmail
  import opened GemmailC
  import opened GemmailB
  import opened GemmailLimits
  import opened Preparation
  import opened Delivery
  import opened Cascade
  import Request

  /** The senders that the first line of a printed message names; a line break in an address ends it early. */
  function FirstLineNames(m: Message): Result<seq<Address>, FormatError> {
    ParseLine(ParseAddress, FieldLines(SenderLine(m))[0])
  }

  lemma PreparedSenders(r: Request.Request, now: DateTime)
    requires Prepare(r, now).Some?
    ensures PreparedMessage(r, now).Some? && Prepare(r, now).value == GemmailC.ToBytes(PreparedMessage(r, now).value)
    ensures PreparedMessage(r, now).value.senders == CollectSenders(r)
  {
    hide FromBytes, FromBytesB, GemmailC.ToBytes, CollectSenders, LossyDecode;
    SpeakersCollected(r);
    assert OwnSenders(r.client) + [] == OwnSenders(r.client);
  }

  lemma ReadSenders(r: Request.Request, now: DateTime)
    requires Prepare(r, now).Some? && FromBytes(Prepare(r, now).value).Success?
    ensures PreparedMessage(r, now).Some?
    ensures FirstLineNames(PreparedMessage(r, now).value) == Success(FromBytes(Prepare(r, now).value).value.senders)
  {
    hide FromBytes, GemmailC.ToBytes, ParseLine, FieldLines, PrintLine, NothingStray, PreparedMessage, LineFits;
    PreparedSenders(r, now);
    ReadBack(PreparedMessage(r, now).value);
  }

  /** When metadata lines can hold all who speak, the stored message names exactly them. */
  lemma SafeSpeakersReadBack(r: Request.Request, now: DateTime)
    requires Prepare(r, now).Some? && FromBytes(Prepare(r, now).value).Success?
    requires forall a | Speaks(r, a) :: ListSafe(a)
    ensures FromBytes(Prepare(r, now).value).value.senders == CollectSenders(r)
  {
    hide FromBytes, GemmailC.ToBytes, ParseLine, FieldLines, PrintLine, PreparedMessage, ListSafe;
    hide CollectSenders, Speaks;
    SpeakersCollected(r);
    PreparedSenders(r, now);
    ReadSenders(r, now);
    var m := PreparedMessage(r, now).value;
    AddressLineFree(m.senders);
    FieldIsLine(SenderLine(m));
    AddressesReadBack(m.senders);
  }

  /** Then nothing delivered reads back with a blocked sender. */
  lemma DeliveredIsUnblocked(cfg: Config, boxes: Mailboxes, r: Request.Request, now: DateTime)
    requires var d := Dispose(cfg, boxes, r, now); d.Deliver? && FromBytes(d.data).Success?
    requires forall a | Speaks(r, a) :: ListSafe(a)
    ensures var d := Dispose(cfg, boxes, r, now);
            && d.mailbox in boxes
            && forall a | a in FromBytes(d.data).value.senders :: Lower(a.Text()) !in boxes[d.mailbox].blocked
  {
    hide FromBytes, Prepare, ListSafe, CollectSenders, Speaks, BlockedBy, ValidMailbox, DisposePrepared, AnyBlocked;
    DeliveredIsPrepared(cfg, boxes, r, now);
    DeliveredReaches(cfg, boxes, r, now);
    SafeSpeakersReadBack(r, now);
    SpeakersCollected(r);
    forall a | a in CollectSenders(r) ensures Lower(a.Text()) !in boxes[r.mailbox].blocked {
      SpeakerUnblocked(r, boxes[r.mailbox].blocked, a);
    }
  }

  lemma SpeakerUnblocked(r: Request.Request, blocked: set<string>, a: Address)
    requires Speaks(r, a) && !BlockedBy(r, blocked)
    ensures Lower(a.Text()) !in blocked
  {
  }

  lemma DeliveredReaches(cfg: Config, boxes: Mailboxes, r: Request.Request, now: DateTime)
    requires Dispose(cfg, boxes, r, now).Deliver?
    ensures Reaches(cfg, boxes, r) && !BlockedBy(r, boxes[r.mailbox].blocked)
  {
    hide Prepare, CollectSenders, DisposePrepared, ValidMailbox, BlockedBy, AnyBlocked;
    if !Reaches(cfg, boxes, r) { GuardsExact(cfg, boxes, r, now); }
    BlockedExact(cfg, boxes, r, now);
  }

  /** Every sender that the first line names is, in lower case, one of those who speak. */
  ghost predicate NamesSpeakersOnly(r: Request.Request, names: seq<Address>) {
    forall a | a in names :: exists b :: Speaks(r, b) && Lower(b.Text()) == Lower(a.Text())
  }

  ghost predicate NoBlockedSender(cfg: Config, boxes: Mailboxes, r: Request.Request, now: DateTime) {
    var d := Dispose(cfg, boxes, r, now);
    d.Deliver? && d.mailbox in boxes && FromBytes(d.data).Success? ==>
      forall a | a in FromBytes(d.data).value.senders :: Lower(a.Text()) !in boxes[d.mailbox].blocked
  }

  function Listing(r: Request.Request, blocked: set<string>): (Config, Mailboxes) {
    (Config(r.hostname, "", map[], false, false, false, false),
     map[r.mailbox := Mailbox(map[], blocked, None, false, false)])
  }

  /**
   Over all servers and block lists, a message that reads back is never delivered with a blocked sender
   in it, exactly when the first line of the printed senders names only those who speak.
   */
  lemma UnblockedExact(r: Request.Request, now: DateTime)
    requires r.contentLength > 0 && ValidMailbox(r.mailbox)
    requires Prepare(r, now).Some? && FromBytes(Prepare(r, now).value).Success?
    ensures PreparedMessage(r, now).Some? && FirstLineNames(PreparedMessage(r, now).value).Success?
    ensures (forall cfg, boxes :: NoBlockedSender(cfg, boxes, r, now))
            <==> NamesSpeakersOnly(r, FirstLineNames(PreparedMessage(r, now).value).value)
  {
    hide FromBytes, Prepare, FirstLineNames, PreparedMessage, Speaks, ValidMailbox, Dispose;
    ReadSenders(r, now);
    var names := FirstLineNames(PreparedMessage(r, now).value).value;
    if NamesSpeakersOnly(r, names) {
      forall cfg, boxes ensures NoBlockedSender(cfg, boxes, r, now) {
        NamedAreUnblocked(cfg, boxes, r, now, names);
      }
    } else {
      var a :| a in names && !(exists b :: Speaks(r, b) && Lower(b.Text()) == Lower(a.Text()));
      var (cfg, boxes) := Listing(r, {Lower(a.Text())});
      PlainMailboxExact(cfg, boxes, r, now);
      assert !NoBlockedSender(cfg, boxes, r, now);
    }
  }

  lemma NamedAreUnblocked(cfg: Config, boxes: Mailboxes, r: Request.Request, now: DateTime, names: seq<Address>)
    requires NamesSpeakersOnly(r, names) && Prepare(r, now).Some?
    requires FromBytes(Prepare(r, now).value).Success? && FromBytes(Prepare(r, now).value).value.senders == names
    ensures NoBlockedSender(cfg, boxes, r, now)
  {
    hide FromBytes, Prepare, Speaks, ValidMailbox, Dispose;
    if Dispose(cfg, boxes, r, now).Deliver? {
      DeliveredIsPrepared(cfg, boxes, r, now);
      DeliveredReaches(cfg, boxes, r, now);
      forall a | a in names ensures Lower(a.Text()) !in boxes[r.mailbox].blocked {
        var b :| Speaks(r, b) && Lower(b.Text()) == Lower(a.Text());
        SpeakerUnblocked(r, boxes[r.mailbox].blocked, b);
      }
    }
  }

  // -- A certificate that brings in a blocked sender --

  const CARRIER := Request.Identity("m", "k", "x, spam@x.org", "")

  const SPAM := Address("spam", "x.org", "")

  /** A message without metadata, from that certificate. */
  function CarriedRequest(): Request.Request {
    var raw := GemmailC.ToBytes(Message([], [], [], "hello\n"));
    Request.Request("b", "h", 1, raw, [], Some(CARRIER), Request.C)
  }

  lemma CarriedSafe()
    ensures ListSafe(Address("m", "k", "x")) && ListSafe(SPAM) && LineFree("m@k x, spam@x.org")
  {
  }

  lemma CarriedLine()
    ensures ParseLine(ParseAddress, "m@k x, spam@x.org") == Success([Address("m", "k", "x"), SPAM])
  {
    hide ParseLine, PrintLine, ListSafe;
    var xs := [Address("m", "k", "x"), SPAM];
    CarriedSafe();
    AddressesReadBack(xs);
    PrintLineStep(PrintAddress, xs);
    assert xs[1..] == [SPAM];
    SingleItem(PrintAddress, [SPAM]);
    assert PrintAddress(xs[0]) == "m@k x" && PrintAddress(SPAM) == "spam@x.org";
    assert "m@k x" + ", " + "spam@x.org" == "m@k x, spam@x.org";
  }

  lemma CarriedSpeakers(a: Address)
    ensures Speaks(CarriedRequest(), a) <==> a == Address("m", "k", "x, spam@x.org")
    ensures FromBytes(CarriedRequest().rawMessage) == Success(Message([], [], [], "hello\n"))
  {
    hide FromBytes, GemmailC.ToBytes;
    var m := Message([], [], [], "hello\n");
    assert Printable(m);
    NoLine(PrintAddress);
    NoLine(Stamp);
    ShortLineFits("");
    Reparse(m);
  }

  lemma NoLine<T>(show: T -> string)
    ensures PrintLine(show, []) == ""
  {
  }

  /** It is stored, and reads back as sent by an address that is on the block list. */
  lemma CarriedIsDelivered(now: DateTime)
    requires Valid(now)
    ensures var r := CarriedRequest();
            var (cfg, boxes) := Listing(r, {"spam@x.org"});
            var d := Dispose(cfg, boxes, r, now);
            && d.Deliver? && d.stored && FromBytes(d.data).Success? && SPAM in FromBytes(d.data).value.senders
            && Lower(SPAM.Text()) in boxes["b"].blocked
  {
    hide FromBytes, GemmailC.ToBytes, ParseLine, Prepare, FieldLines, Stamp, ValidMailbox, Speaks;
    var r := CarriedRequest();
    var (cfg, boxes) := Listing(r, {"spam@x.org"});
    OneLetter();
    forall a | Speaks(r, a) ensures Lower(a.Text()) !in {"spam@x.org"} {
      CarriedSpeakers(a);
      assert Lower("m@k") == "m@k";
    }
    CarriedSpeakers(SPAM);
    CarriedStored(now);
    PlainMailboxExact(cfg, boxes, r, now);
    assert Lower(SPAM.Text()) == "spam@x.org";
  }

  /** The message as it is prepared. */
  function Carried(now: DateTime): Message {
    Message([Address("m", "k", "x, spam@x.org")], [], [now], "hello\n")
  }

  lemma CarriedPrepared(now: DateTime)
    ensures Prepare(CarriedRequest(), now) == Some(GemmailC.ToBytes(Carried(now)))
  {
    hide FromBytes, GemmailC.ToBytes;
    CarriedSpeakers(SPAM);
    assert [now] + [] == [now];
    assert [Address("m", "k", "x, spam@x.org")] + [] == [Address("m", "k", "x, spam@x.org")];
  }

  lemma CarriedHead(now: DateTime)
    ensures HeadLines(Carried(now)) == ["m@k x, spam@x.org"] + [""] + [Stamp(now)]
    ensures NothingStray(Carried(now))
  {
    hide FieldLines, Stamp, PrintLine, Sturdy;
    var m := Carried(now);
    SingleItem(PrintAddress, m.senders);
    SingleItem(Stamp, m.timestamps);
    NoLine(PrintAddress);
    assert SenderLine(m) == "m@k x, spam@x.org";
    CarriedSafe();
    FieldIsLine(SenderLine(m));
    FieldIsLine("");
    NormalizeCrFree(m.body);
  }

  lemma CarriedStored(now: DateTime)
    requires Valid(now)
    ensures var data := Prepare(CarriedRequest(), now);
            data.Some? && FromBytes(data.value).Success? && SPAM in FromBytes(data.value).value.senders
  {
    hide FromBytes, GemmailC.ToBytes, ParseLine, HeadLines, Stamp, LineFits, PrintLine, Prepare, NothingStray;
    CarriedPrepared(now);
    CarriedHead(now);
    CarriedLine();
    EmptyLine(ParseAddress);
    StampRead(now);
    ShortLineFits("m@k x, spam@x.org");
    ReadBack(Carried(now));
  }

  lemma StampRead(now: DateTime)
    requires Valid(now)
    ensures ParseLine(ParseTimestamp, Stamp(now)).Success? && LineFits(Stamp(now))
  {
    hide Stamp, ParseLine, PrintLine;
    StampsReadBack([now]);
    SingleItem(Stamp, [now]);
    StampSize(now);
    ShortLineFits(Stamp(now));
  }

  lemma StampSize(t: DateTime)
    ensures |Stamp(t)| == 20
  {
  }
}
