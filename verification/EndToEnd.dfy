/** From the call of the client's `send` to what a server has stored, and who has vouched for it. */
module EndToEnd {
  import opened Wrappers
  import opened Text
  import opened Calendar
  import opened Gemmail
  import opened GemmailC
  import opened Preparation
  import opened Delivery
  import opened ConnectionSafety
  import Request
  import ServerReader
  import Connection
  import Pipeline
  import Sending
  import SpkiTrust
  import SpkiRuns
  import Verifying

  // -- A message from client to mailbox --

  /** What a message sent by `client` is to read back as once it is stored. */
  function StoredContent(m: Message, client: Option<Request.Identity>, now: DateTime): Message {
    Message(OwnSenders(client), m.recipients, [WholeSecond(now)] + Map(WholeSecond, m.timestamps), m.body)
  }

  /** The stamped message, as it is printed. */
  function StampedFrom(m: Message, client: Option<Request.Identity>, now: DateTime): Message {
    Message(OwnSenders(client), m.recipients, [now] + Map(WholeSecond, m.timestamps), m.body)
  }

  lemma ReceivedFromClient(m: Message, client: Option<Request.Identity>, r: Request.Request, now: DateTime)
    requires Printable(m) && Fits(m) && m.senders == [] && Valid(now)
    requires r.version.C? && r.client == client && r.rawMessage == GemmailC.ToBytes(m)
    ensures Prepare(r, now).Some?
    ensures FromBytes(Prepare(r, now).value) == Success(StoredContent(m, client, now))
            <==> (SenderOf(client).Some? ==> ListSafe(SenderOf(client).value)) && Fits(StampedFrom(m, client, now))
  {
    hide FromBytes, GemmailC.ToBytes, ListSafe, Fits, Map, SenderOf;
    Reparse(m);
    StampingC(r, now);
    var received := FromBytes(r.rawMessage).value;
    assert StampedContent(r, received, now) == StampedFrom(m, client, now) by { NoOthers(client); }
    WholeTwice(m.timestamps);
    assert OwnSenders(client) + [] == OwnSenders(client);
  }

  lemma NoOthers(client: Option<Request.Identity>)
    ensures OwnSenders(client) == if SenderOf(client).Some? then [SenderOf(client).value] + [] else []
  {
  }

  lemma {:induction false} WholeTwice(ts: seq<DateTime>)
    ensures Map(WholeSecond, Map(WholeSecond, ts)) == Map(WholeSecond, ts)
  {
    if ts != [] { WholeTwice(ts[1..]); }
  }

  /** The body that is sent: a subject becomes a heading, and a newline ends it. */
  function SentBody(body: string, subject: string): string {
    var full := if subject == "" then body else "# " + subject + "\n\n" + body;
    if full != "" && full[|full| - 1] == '\n' then full else full + "\n"
  }

  /** The message that `send` composes, addressed to its parts. */
  lemma Composed(mailbox: string, hostname: string, body: string, subject: string, sent: DateTime)
    requires '@' !in hostname
    ensures var to := mailbox + "@" + hostname;
            && '@' in to
            && Sending.Compose(to, body, subject, sent)
               == Message([], [Address(mailbox, hostname, "")], [sent], SentBody(body, subject))
            && forall raw :: Sending.MakeRequest(to, raw)
                             == Request.Request(mailbox, hostname, |raw|, raw, [], None, Request.C)
  {
    var to := mailbox + "@" + hostname;
    assert to == mailbox + ['@'] + hostname;
    LastIndexOfAt(mailbox, '@', hostname);
    assert to[..|mailbox|] == mailbox && to[|mailbox| + 1..] == hostname;
    if subject == "" { assert "" + body == body; }
  }

  /**
   What `send` composes, printed as a C request and delivered to a server in any run of the connection:
   whenever the server's handler delivers it, to the mailbox addressed, the stored bytes read back as the
   recipient and the body that were sent, the certificate's address as the sender, and the seconds of
   delivery and of sending, exactly when metadata lines can hold that address and the lines fit.
   */
  lemma SentIsStored(mailbox: string, hostname: string, body: string, subject: string, sent: DateTime,
                     client: Option<Request.Identity>, middleware: bool, events: seq<Connection.Event>,
                     cfg: Config, boxes: Mailboxes, now: DateTime)
    requires '@' !in hostname && Valid(now)
    requires var m := Message([], [Address(mailbox, hostname, "")], [sent], SentBody(body, subject));
             Printable(m) && Fits(m)
    requires '@' in mailbox + "@" + hostname
    requires var to := mailbox + "@" + hostname;
             var r := Sending.MakeRequest(to, GemmailC.ToBytes(Sending.Compose(to, body, subject, sent)));
             && Pipeline.Sendable(r) && Stream(events) == Request.ToBytes(r)
             && Run(ServerReader.ParserFor(client), middleware, events).Some?
    ensures var m := Message([], [Address(mailbox, hostname, "")], [sent], SentBody(body, subject));
            var log := Run(ServerReader.ParserFor(client), middleware, events).value.log;
            && Handles(log) <= 1
            && forall i | 0 <= i < |log| && log[i].Handle? ::
                 var d := Dispose(cfg, boxes, log[i].request, now);
                 d.Deliver? ==>
                   && d.mailbox == mailbox
                   && (FromBytes(d.data)
                       == Success(Message(OwnSenders(client), [Address(mailbox, hostname, "")],
                                          [WholeSecond(now), WholeSecond(sent)], SentBody(body, subject)))
                       <==> (SenderOf(client).Some? ==> ListSafe(SenderOf(client).value))
                            && Fits(StampedFrom(m, client, now)))
  {
    hide FromBytes, GemmailC.ToBytes, ListSafe, Fits, SenderOf, Dispose, Prepare, Printable, Run, Stream;
    hide Request.ToBytes, Handles, SentBody, Sending.Compose, Sending.MakeRequest;
    Composed(mailbox, hostname, body, subject, sent);
    var to := mailbox + "@" + hostname;
    var m := Sending.Compose(to, body, subject, sent);
    var r := Sending.MakeRequest(to, GemmailC.ToBytes(m));
    Pipeline.OneRequestOneHandling(client, r, middleware, events);
    var q := Pipeline.Arrived(r, client);
    ReceivedFromClient(m, client, q, now);
    OneTime(now, sent);
    DeliveredIsPrepared(cfg, boxes, q, now);
  }

  lemma OneTime(now: DateTime, sent: DateTime)
    ensures [WholeSecond(now)] + Map(WholeSecond, [sent]) == [WholeSecond(now), WholeSecond(sent)]
  {
    assert [sent][1..] == [];
  }

  // -- Deliveries verified over a run --

  /** A C request, the server that handles it, and which verdict of the verifier it is judged by. */
  datatype Arrival = Arrival(r: Request.Request, cfg: Config, boxes: Mailboxes, now: DateTime, verdict: nat)

  function Judgement(v: SpkiTrust.Verdict): Verifying.Verification {
    match v
    case Verified(_, _) => Verifying.Accepted
    case Unverified(reason) => Verifying.Declined(reason)
  }

  /** The host of the sender that is verified, for a message that names one. */
  function SenderHost(r: Request.Request): Option<string> {
    match ParseMessage(r)
    case Success(m) => if m.senders == [] then None else Some(m.senders[0].hostname)
    case Failure(_) => None
  }

  /** The request was judged by a verdict on its sender's host and got past the refusals of required mode. */
  predicate Passed(results: seq<(string, SpkiTrust.Verdict)>, a: Arrival) {
    && a.verdict < |results| && SenderHost(a.r) == Some(results[a.verdict].0)
    && !Verifying.Verified(Verifying.Required, _ => Judgement(results[a.verdict].1), a.cfg, a.boxes, a.r, a.now).Answer?
  }

  /**
   With the reject policy, and as long as no row of the cache is removed, all requests that name a
   sender of one host and get past required mode were verified with one key: the stored one, if there
   was one before the run.
   */
  lemma OneKeyPerHost(stored: SpkiTrust.Table, events: seq<SpkiRuns.Event>, a: Arrival, b: Arrival)
    requires SpkiRuns.Keeping(events) && SpkiRuns.Run(false, stored, events).Some?
    requires var results := SpkiRuns.Run(false, stored, events).value.results;
             Passed(results, a) && Passed(results, b)
    requires a.r.contentLength > 0 && b.r.contentLength > 0 && SenderHost(a.r) == SenderHost(b.r)
    ensures var results := SpkiRuns.Run(false, stored, events).value.results;
            var (host, v, w) := (results[a.verdict].0, results[a.verdict].1, results[b.verdict].1);
            && v.Verified? && w.Verified? && v.fingerprint == w.fingerprint
            && (host in stored ==> v.fingerprint == stored[host].value)
  {
    hide ParseMessage, Dispose, SpkiRuns.Run, SpkiRuns.Keeping;
    var results := SpkiRuns.Run(false, stored, events).value.results;
    SpkiRuns.TrustOnFirstUse(stored, events);
    if results[a.verdict].0 in stored { SpkiRuns.StoredKeyDecides(stored, events, a.verdict); }
  }
}
