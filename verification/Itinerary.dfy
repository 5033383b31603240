/** Where the attempts of one send go and when they end, read off the log and the answers alone. */
module Itinerary {
  import opened Wrappers
  import opened Text
  import opened Utf8
  import opened Response
  import opened Sending
  import Request

  /** The host is what follows the last "@" of the address, the mailbox what precedes it. */
  predicate Addressed(a: Attempt, address: string) {
    address == a.mailbox + "@" + a.hostname && '@' !in a.hostname
  }

  predicate Answered(reply: Reply, lo: int, hi: int) {
    reply.Answer? && lo <= reply.response.status <= hi
  }

  /** A redirect that names an address. */
  predicate Redirected(reply: Reply) {
    Answered(reply, 30, 39) && Strip(reply.response.meta) != ""
  }

  predicate Unsupported(reply: Reply) {
    reply.Answer? && reply.response.status in {40, 59, 60}
  }

  /** What `next` may be after the attempt `last` and the reply to it. */
  predicate Follows(cfg: Config, last: Attempt, reply: Reply, next: Attempt) {
    && last.AttemptC?
    && (|| (Answered(reply, 44, 44) && next == last)
        || (Redirected(reply) && next.AttemptC? && Addressed(next, Strip(reply.response.meta)))
        || (cfg.fallback && Unsupported(reply) && next.AttemptB?
            && next.mailbox == last.mailbox && next.hostname == last.hostname))
  }

  /** How often in a row the attempt number `i` has been told to slow down before. */
  function Repeats(net: Network, sent: seq<Attempt>, base: nat, i: nat): nat
    requires i <= |sent|
    decreases i
  {
    if base < i && Answered(net(sent[..i]), 44, 44) then 1 + Repeats(net, sent, base, i - 1) else 0
  }

  /** The redirects followed on the way to attempt number `i`. */
  function Redirects(net: Network, sent: seq<Attempt>, base: nat, i: nat): nat
    requires i <= |sent|
    decreases i
  {
    if base < i then Redirects(net, sent, base, i - 1) + (if Redirected(net(sent[..i])) then 1 else 0) else 0
  }

  /** The message as a B line, if it fits. */
  function InB(a: Attempt, message: seq<byte>): Result<seq<byte>, Request.HeaderError> {
    Request.ToBytesB(Request.Request(a.mailbox, a.hostname, |message|, message, [], None, Request.C))
  }

  /** The attempts from number `base` on: the first goes to `to`, each other one follows from the reply before it. */
  ghost predicate Path(cfg: Config, net: Network, base: nat, to: string, sent: seq<Attempt>) {
    && base < |sent| && sent[base].AttemptC? && Addressed(sent[base], to)
    && (forall i | base < i < |sent| :: Follows(cfg, sent[i - 1], net(sent[..i]), sent[i]))
  }

  /** At most R repeats in a row, and at most five redirects, of which `depth` were followed before. */
  ghost predicate Limited(cfg: Config, net: Network, base: nat, depth: nat, sent: seq<Attempt>) {
    && (forall i | base <= i < |sent| :: Repeats(net, sent, base, i) <= cfg.maxRetries)
    && base < |sent| && depth + Redirects(net, sent, base, |sent| - 1) <= 5
  }

  /** What the reply to the last attempt leads to, when no attempt follows it. */
  predicate Ends(cfg: Config, net: Network, base: nat, depth: nat, message: seq<byte>, sent: seq<Attempt>,
                 outcome: Outcome)
    requires base < |sent|
  {
    var (last, reply) := (sent[|sent| - 1], net(sent));
    match reply
    case Broken => outcome == Raised(BadResponse)
    case NoConnection =>
      outcome == if last.AttemptC? then Raised(ConnectionFailed)
                 else Returned(Response(40, "Misfin(B) fallback connection failed"))
    case NoAnswer =>
      outcome == if last.AttemptC? then Raised(Timeout)
                 else Returned(Response(40, "Misfin(B) fallback timed out"))
    case Answer(r) =>
      if last.AttemptB? then outcome == Returned(r)
      else if r.status == 44 then outcome == Returned(r) && Repeats(net, sent, base, |sent| - 1) == cfg.maxRetries
      else if Redirected(reply) then
        if depth + Redirects(net, sent, base, |sent| - 1) == 5 then
          outcome == Returned(Response(50, "Too many redirects"))
        else '@' !in Strip(r.meta) && outcome == Raised(BadAddress)
      else if cfg.fallback && Unsupported(reply) then
        InB(last, message).Failure? && outcome == Returned(Response(59, "Message too large for Misfin(B) format"))
      else outcome == Returned(r)
  }

  ghost predicate Itinerary(cfg: Config, net: Network, base: nat, to: string, depth: nat, message: seq<byte>,
                            sent: seq<Attempt>, outcome: Outcome)
  {
    && Path(cfg, net, base, to, sent)
    && Limited(cfg, net, base, depth, sent)
    && Ends(cfg, net, base, depth, message, sent, outcome)
  }

  // -- One hop --

  /** Attempts `base..` of a hop are the same one, each but the last told to slow down. */
  ghost predicate Repeated(cfg: Config, net: Network, base: nat, a: Attempt, sent: seq<Attempt>) {
    && base < |sent| <= base + 1 + cfg.maxRetries
    && (forall i | base <= i < |sent| :: sent[i] == a)
    && (forall i | base < i < |sent| :: Answered(net(sent[..i]), 44, 44))
    && (Answered(net(sent), 44, 44) ==> |sent| == base + 1 + cfg.maxRetries)
  }

  lemma {:induction false} RetryRepeats(cfg: Config, net: Network, log: seq<Attempt>, a: Attempt, base: nat, left: nat)
    requires log != [] && base < |log| && |log| + left == base + 1 + cfg.maxRetries
    requires forall i | base <= i < |log| :: log[i] == a
    requires forall i | base < i < |log| :: Answered(net(log[..i]), 44, 44)
    ensures var l := Retry(net, log, a, left); log <= l && Repeated(cfg, net, base, a, l)
    decreases left
  {
    if SlowDown(net(log)) && left > 0 {
      var next := log + [a];
      forall i | base < i < |next| ensures Answered(net(next[..i]), 44, 44) {
        assert next[..i] == log[..i];
        assert i == |log| ==> log[..i] == log;
      }
      RetryRepeats(cfg, net, next, a, base, left - 1);
    }
  }

  lemma HopRepeats(cfg: Config, net: Network, log: seq<Attempt>, a: Attempt)
    ensures var l := Hop(cfg, net, log, a); log <= l && Repeated(cfg, net, |log|, a, l)
  {
    RetryRepeats(cfg, net, log + [a], a, |log|, cfg.maxRetries);
  }

  lemma {:induction false} RepeatedCounts(cfg: Config, net: Network, base: nat, a: Attempt, sent: seq<Attempt>, i: nat)
    requires Repeated(cfg, net, base, a, sent) && base <= i < |sent|
    ensures Repeats(net, sent, base, i) == i - base && Redirects(net, sent, base, i) == 0
  {
    if base < i { RepeatedCounts(cfg, net, base, a, sent, i - 1); }
  }

  /** A hop is the beginning of an itinerary. */
  lemma HopStarts(cfg: Config, net: Network, base: nat, to: string, depth: nat, a: Attempt, sent: seq<Attempt>)
    requires Repeated(cfg, net, base, a, sent) && a.AttemptC? && Addressed(a, to) && depth <= 5
    ensures Path(cfg, net, base, to, sent) && Limited(cfg, net, base, depth, sent)
    ensures Redirects(net, sent, base, |sent| - 1) == 0
    ensures Answered(net(sent), 44, 44) ==> Repeats(net, sent, base, |sent| - 1) == cfg.maxRetries
  {
    forall i | base <= i < |sent| ensures Repeats(net, sent, base, i) <= cfg.maxRetries {
      RepeatedCounts(cfg, net, base, a, sent, i);
    }
    RepeatedCounts(cfg, net, base, a, sent, |sent| - 1);
  }

  lemma MadeFor(to: string, message: seq<byte>)
    requires '@' in to
    ensures var a := AttemptOf(MakeRequest(to, message)); a.AttemptC? && Addressed(a, to)
  {
    var i := LastIndexOf(to, '@');
    assert to == to[..i] + "@" + to[i + 1..];
  }

  // -- Going on --

  /** Counting over a prefix, with what comes after left out. */
  lemma {:induction false} CountsOfPrefix(net: Network, sent: seq<Attempt>, mid: seq<Attempt>, base: nat, i: nat)
    requires mid <= sent && i <= |mid|
    ensures Repeats(net, sent, base, i) == Repeats(net, mid, base, i)
    ensures Redirects(net, sent, base, i) == Redirects(net, mid, base, i)
    decreases i
  {
    if base < i {
      assert sent[..i] == mid[..i];
      CountsOfPrefix(net, sent, mid, base, i - 1);
    }
  }

  /** Counting from a later beginning, which a redirect has led to. */
  lemma {:induction false} CountsFrom(net: Network, sent: seq<Attempt>, base: nat, later: nat, i: nat)
    requires base < later <= i <= |sent| && Redirected(net(sent[..later]))
    ensures Repeats(net, sent, base, i) == Repeats(net, sent, later, i)
    ensures Redirects(net, sent, base, i)
            == Redirects(net, sent, base, later - 1) + 1 + Redirects(net, sent, later, i)
    decreases i
  {
    if later < i { CountsFrom(net, sent, base, later, i - 1); }
  }

  /** A hop that ends in a redirect, and the itinerary from the address it names. */
  lemma GoesOn(cfg: Config, net: Network, base: nat, to: string, depth: nat, a: Attempt, mid: seq<Attempt>,
               message: seq<byte>, sent: seq<Attempt>, outcome: Outcome)
    requires Repeated(cfg, net, base, a, mid) && a.AttemptC? && Addressed(a, to) && depth < 5
    requires Redirected(net(mid)) && mid <= sent
    requires Itinerary(cfg, net, |mid|, Strip(net(mid).response.meta), depth + 1, message, sent, outcome)
    ensures Itinerary(cfg, net, base, to, depth, message, sent, outcome)
  {
    hide Strip;
    HopStarts(cfg, net, base, to, depth, a, mid);
    var later := |mid|;
    assert sent[..later] == mid;
    CountsOfPrefix(net, sent, mid, base, later - 1);
    CountsFrom(net, sent, base, later, |sent| - 1);
    forall i | base < i < |sent| ensures Follows(cfg, sent[i - 1], net(sent[..i]), sent[i]) {
      if i < later {
        assert sent[..i] == mid[..i] && sent[i] == mid[i] && sent[i - 1] == mid[i - 1];
      }
    }
    forall i | base <= i < |sent| ensures Repeats(net, sent, base, i) <= cfg.maxRetries {
      if i < later { CountsOfPrefix(net, sent, mid, base, i); } else { CountsFrom(net, sent, base, later, i); }
    }
  }

  /** A hop that ends in a status for which B is tried, and the B attempt. */
  lemma FallsBackTo(cfg: Config, net: Network, base: nat, to: string, depth: nat, a: Attempt, mid: seq<Attempt>,
                    message: seq<byte>, b: Attempt, outcome: Outcome)
    requires Repeated(cfg, net, base, a, mid) && a.AttemptC? && Addressed(a, to) && depth <= 5
    requires cfg.fallback && Unsupported(net(mid))
    requires b.AttemptB? && b.mailbox == a.mailbox && b.hostname == a.hostname
    requires Ends(cfg, net, base, depth, message, mid + [b], outcome)
    ensures Itinerary(cfg, net, base, to, depth, message, mid + [b], outcome)
  {
    HopStarts(cfg, net, base, to, depth, a, mid);
    var sent := mid + [b];
    assert sent[..|mid|] == mid;
    forall i | base < i < |sent| ensures Follows(cfg, sent[i - 1], net(sent[..i]), sent[i]) {
      if i < |mid| { assert sent[..i] == mid[..i]; }
    }
    forall i | base <= i < |sent| ensures Repeats(net, sent, base, i) <= cfg.maxRetries {
      if i < |mid| { CountsOfPrefix(net, sent, mid, base, i); }
    }
    CountsOfPrefix(net, sent, mid, base, |mid| - 1);
  }

  lemma RedirectIs(r: Response)
    ensures RedirectAddress(r) == if Redirected(Answer(r)) then Some(Strip(r.meta)) else None
  {
  }

  /**
   Every send goes along an itinerary: to the address given, then to the addresses that redirects name,
   repeating when told to slow down, and to the same mailbox and host in B form where C is not
   understood; it stops where nothing of that is left to do, with the answer to its last attempt.
   */
  lemma {:induction false} SendFollows(
      cfg: Config, net: Network, log: seq<Attempt>, to: string, message: seq<byte>, depth: nat)
    requires depth <= 5
    ensures var (sent, outcome) := SendRaw(cfg, net, log, to, message, depth);
            if '@' in to then log <= sent && Itinerary(cfg, net, |log|, to, depth, message, sent, outcome)
            else sent == log && outcome == Raised(BadAddress)
    decreases 5 - depth
  {
    hide Strip, Hop, SendB, RedirectAddress, Request.ToBytesB, Request.ToBytes;
    if '@' !in to { return; }
    var base := |log|;
    var request := MakeRequest(to, message);
    var a := AttemptOf(request);
    var mid := Hop(cfg, net, log, a);
    var (sent, outcome) := SendRaw(cfg, net, log, to, message, depth);
    MadeFor(to, message);
    HopRepeats(cfg, net, log, a);
    HopStarts(cfg, net, base, to, depth, a, mid);
    match net(mid)
    case Answer(r) =>
      RedirectIs(r);
      if Redirected(net(mid)) {
        var target := Strip(r.meta);
        if depth < 5 && '@' in target {
          SendFollows(cfg, net, mid, target, message, depth + 1);
          GoesOn(cfg, net, base, to, depth, a, mid, message, sent, outcome);
        }
      } else if cfg.fallback && FallsBack(r.status) {
        SentInB(cfg, net, base, to, depth, a, mid, message, request);
      }
    case _ =>
  }

  lemma SentInB(cfg: Config, net: Network, base: nat, to: string, depth: nat, a: Attempt, mid: seq<Attempt>,
                message: seq<byte>, request: Request.Request)
    requires Repeated(cfg, net, base, a, mid) && a == AttemptOf(request) && Addressed(a, to) && depth <= 5
    requires request == Request.Request(a.mailbox, a.hostname, |message|, message, [], None, Request.C)
    requires cfg.fallback && Unsupported(net(mid))
    ensures var (sent, outcome) := SendB(net, mid, request);
            mid <= sent && Itinerary(cfg, net, base, to, depth, message, sent, outcome)
  {
    hide Request.ToBytesB, Request.ToBytes, Strip;
    HopStarts(cfg, net, base, to, depth, a, mid);
    match Request.ToBytesB(request)
    case Failure(_) =>
    case Success(bytes) =>
      var (sent, outcome) := SendB(net, mid, request);
      var b := AttemptB(request.mailbox, request.hostname, bytes);
      FallsBackTo(cfg, net, base, to, depth, a, mid, message, b, outcome);
  }
}
