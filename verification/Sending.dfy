/** What one send does: retries, redirects and the fallback to Misfin(B), against an arbitrary network. */
module Sending {
  import opened Wrappers
  import opened Constants
  import opened Text
  import opened Utf8
  import opened Calendar
  import opened Response
  import Request
  import Gemmail

  /** One connection: the host dialled and the bytes sent, in C or B form. */
  datatype Attempt =
    | AttemptC(mailbox: string, hostname: string, bytes: seq<byte>)
    | AttemptB(mailbox: string, hostname: string, bytes: seq<byte>)

  datatype Reply = Answer(response: Response) | NoConnection | NoAnswer | Broken

  /** What comes back may depend on everything sent before: the servers are arbitrary. */
  type Network = seq<Attempt> -> Reply

  datatype Outcome = Returned(response: Response) | Raised(reason: Failure)

  datatype Failure = BadAddress | Timeout | ConnectionFailed | BadResponse

  datatype Config = Config(maxRetries: nat, fallback: bool)

  /** The request of `send_raw`; an address without parts around its "@" is not refused here. */
  function MakeRequest(to: string, message: seq<byte>): Request.Request
    requires '@' in to
  {
    var i := LastIndexOf(to, '@');
    Request.Request(to[..i], to[i + 1..], |message|, message, [], None, Request.C)
  }

  function AttemptOf(r: Request.Request): Attempt {
    AttemptC(r.mailbox, r.hostname, Request.ToBytes(r))
  }

  predicate SlowDown(reply: Reply) {
    reply.Answer? && reply.response.status == 44
  }

  /** The same attempt again while the answer is "slow down" and retries are left. */
  function Retry(net: Network, log: seq<Attempt>, a: Attempt, left: nat): (l: seq<Attempt>)
    requires log != []
    ensures l != []
    decreases left
  {
    if SlowDown(net(log)) && left > 0 then Retry(net, log + [a], a, left - 1) else log
  }

  /** One hop: a first attempt and its retries. */
  function Hop(cfg: Config, net: Network, log: seq<Attempt>, a: Attempt): (l: seq<Attempt>)
    ensures l != []
  {
    Retry(net, log + [a], a, cfg.maxRetries)
  }

  predicate FallsBack(status: int) {
    status == 59 || status == 40 || status == 60
  }

  const TOO_MANY := Response(50, "Too many redirects")
  const TOO_LARGE := Response(59, "Message too large for Misfin(B) format")
  const B_NO_CONNECTION := Response(40, "Misfin(B) fallback connection failed")
  const B_NO_ANSWER := Response(40, "Misfin(B) fallback timed out")

  /** `_send_request_b`. */
  function SendB(net: Network, log: seq<Attempt>, r: Request.Request): (seq<Attempt>, Outcome) {
    match Request.ToBytesB(r)
    case Failure(_) => (log, Returned(TOO_LARGE))
    case Success(bytes) =>
      var sent := log + [AttemptB(r.mailbox, r.hostname, bytes)];
      match net(sent) {
        case Answer(response) => (sent, Returned(response))
        case NoConnection => (sent, Returned(B_NO_CONNECTION))
        case NoAnswer => (sent, Returned(B_NO_ANSWER))
        case Broken => (sent, Raised(BadResponse))
      }
  }

  /** `send_raw` and `_send_request`. */
  function SendRaw(cfg: Config, net: Network, log: seq<Attempt>, to: string, message: seq<byte>, depth: nat)
    : (seq<Attempt>, Outcome)
    requires depth <= MAX_REDIRECTS
    decreases MAX_REDIRECTS - depth
  {
    if '@' !in to then (log, Raised(BadAddress))
    else
      var request := MakeRequest(to, message);
      var sent := Hop(cfg, net, log, AttemptOf(request));
      match net(sent) {
        case NoConnection => (sent, Raised(ConnectionFailed))
        case NoAnswer => (sent, Raised(Timeout))
        case Broken => (sent, Raised(BadResponse))
        case Answer(response) =>
          match RedirectAddress(response) {
            case Some(target) =>
              if depth >= MAX_REDIRECTS then (sent, Returned(TOO_MANY))
              else SendRaw(cfg, net, sent, target, message, depth + 1)
            case None =>
              if cfg.fallback && FallsBack(response.status) then SendB(net, sent, request)
              else (sent, Returned(response))
          }
      }
  }

  /** The body `send` composes: a heading for the subject, and a final newline. */
  function ComposeBody(body: string, subject: string): string {
    var full := (if subject != "" then "# " + subject + "\n\n" else "") + body;
    if full != "" && full[|full| - 1] == '\n' then full else full + "\n"
  }

  function Compose(to: string, body: string, subject: string, now: DateTime): Gemmail.Message
    requires '@' in to
  {
    var i := LastIndexOf(to, '@');
    Gemmail.Message([], [Gemmail.Address(to[..i], to[i + 1..], "")], [now], ComposeBody(body, subject))
  }

  // -- Bounds over arbitrary networks --

  function CountC(log: seq<Attempt>): nat {
    if log == [] then 0 else CountC(log[..|log| - 1]) + (if log[|log| - 1].AttemptC? then 1 else 0)
  }

  function CountB(log: seq<Attempt>): nat {
    if log == [] then 0 else CountB(log[..|log| - 1]) + (if log[|log| - 1].AttemptB? then 1 else 0)
  }

  lemma Counted(log: seq<Attempt>, a: Attempt)
    ensures CountC(log + [a]) == CountC(log) + (if a.AttemptC? then 1 else 0)
    ensures CountB(log + [a]) == CountB(log) + (if a.AttemptB? then 1 else 0)
  {
    assert (log + [a])[..|log|] == log;
  }

  /** The attempt carries the message: as the body of a C request, or collapsed in a B request. */
  predicate Carries(a: Attempt, message: seq<byte>) {
    var request := Request.Request(a.mailbox, a.hostname, |message|, message, [], None, Request.C);
    match a
    case AttemptC(_, _, bytes) => bytes == Request.ToBytes(request)
    case AttemptB(_, _, bytes) => Request.ToBytesB(request) == Success(bytes)
  }

  lemma {:induction false} RetryBound(net: Network, log: seq<Attempt>, a: Attempt, left: nat)
    requires log != [] && a.AttemptC?
    ensures var l := Retry(net, log, a, left);
            && log <= l && CountC(l) <= CountC(log) + left && CountB(l) == CountB(log)
            && (forall i | |log| <= i < |l| :: l[i] == a)
    decreases left
  {
    if SlowDown(net(log)) && left > 0 {
      Counted(log, a);
      RetryBound(net, log + [a], a, left - 1);
    }
  }

  lemma HopBound(cfg: Config, net: Network, log: seq<Attempt>, a: Attempt)
    requires a.AttemptC?
    ensures var l := Hop(cfg, net, log, a);
            && log < l && CountC(l) <= CountC(log) + 1 + cfg.maxRetries && CountB(l) == CountB(log)
            && (forall i | |log| <= i < |l| :: l[i] == a)
  {
    Counted(log, a);
    RetryBound(net, log + [a], a, cfg.maxRetries);
  }

  /** An answer "slow down" that ends a hop has been given to the first attempt and to every retry. */
  lemma {:induction false} RetryExhausted(net: Network, log: seq<Attempt>, a: Attempt, left: nat)
    requires log != [] && SlowDown(net(Retry(net, log, a, left)))
    ensures var l := Retry(net, log, a, left);
            |l| == |log| + left && forall i | |log| <= i <= |l| :: SlowDown(net(l[..i]))
    decreases left
  {
    var l := Retry(net, log, a, left);
    assert l[..|l|] == l;
    if left > 0 {
      assert SlowDown(net(log));
      RetryExhausted(net, log + [a], a, left - 1);
      RetryExtends(net, log + [a], a, left - 1);
      assert l[..|log|] == log;
    }
  }

  lemma {:induction false} RetryExtends(net: Network, log: seq<Attempt>, a: Attempt, left: nat)
    requires log != []
    ensures log <= Retry(net, log, a, left)
    decreases left
  {
    if SlowDown(net(log)) && left > 0 { RetryExtends(net, log + [a], a, left - 1); }
  }

  /** Everything the attempts of one send satisfy. */
  ghost predicate WithinBounds(cfg: Config, log: seq<Attempt>, sent: seq<Attempt>, message: seq<byte>, hops: nat) {
    && log <= sent
    && CountC(sent) <= CountC(log) + hops * (1 + cfg.maxRetries)
    && CountB(sent) <= CountB(log) + 1
    && (forall i | |log| <= i < |sent| :: Carries(sent[i], message))
  }

  lemma SendBBound(cfg: Config, net: Network, log: seq<Attempt>, r: Request.Request)
    requires r == Request.Request(r.mailbox, r.hostname, |r.rawMessage|, r.rawMessage, [], None, Request.C)
    ensures WithinBounds(cfg, log, SendB(net, log, r).0, r.rawMessage, 0)
  {
    hide Request.ToBytesB, Request.ToBytes;
    match Request.ToBytesB(r)
    case Failure(_) =>
    case Success(bytes) => Counted(log, AttemptB(r.mailbox, r.hostname, bytes));
  }

  lemma HopCarries(cfg: Config, net: Network, log: seq<Attempt>, to: string, message: seq<byte>)
    requires '@' in to
    ensures WithinBounds(cfg, log, Hop(cfg, net, log, AttemptOf(MakeRequest(to, message))), message, 1)
    ensures CountB(Hop(cfg, net, log, AttemptOf(MakeRequest(to, message)))) == CountB(log)
  {
    hide Hop;
    HopBound(cfg, net, log, AttemptOf(MakeRequest(to, message)));
  }

  lemma BoundsCompose(cfg: Config, log: seq<Attempt>, mid: seq<Attempt>, sent: seq<Attempt>, message: seq<byte>, h: nat)
    requires WithinBounds(cfg, log, mid, message, 1) && CountB(mid) == CountB(log)
    requires WithinBounds(cfg, mid, sent, message, h)
    ensures WithinBounds(cfg, log, sent, message, h + 1)
  {
    hide Carries;
    assert (h + 1) * (1 + cfg.maxRetries) == h * (1 + cfg.maxRetries) + (1 + cfg.maxRetries);
    forall i | |log| <= i < |sent| ensures Carries(sent[i], message) {
      if i < |mid| { assert sent[i] == mid[i]; }
    }
  }

  lemma BoundsGrow(cfg: Config, log: seq<Attempt>, sent: seq<Attempt>, message: seq<byte>, h: nat, k: nat)
    requires WithinBounds(cfg, log, sent, message, h) && h <= k
    ensures WithinBounds(cfg, log, sent, message, k)
  {
    assert k * (1 + cfg.maxRetries) == h * (1 + cfg.maxRetries) + (k - h) * (1 + cfg.maxRetries);
    assert (k - h) * (1 + cfg.maxRetries) >= 0;
  }

  /**
   Against any network: at most one hop per redirect allowed, each of at most one attempt and its
   retries; at most one B attempt; and every attempt carries the same message.
   */
  lemma {:induction false} SendBound(
      cfg: Config, net: Network, log: seq<Attempt>, to: string, message: seq<byte>, depth: nat)
    requires depth <= MAX_REDIRECTS
    ensures WithinBounds(cfg, log, SendRaw(cfg, net, log, to, message, depth).0, message, MAX_REDIRECTS + 1 - depth)
    decreases MAX_REDIRECTS - depth
  {
    hide Hop, SendB, WithinBounds, Strip, Request.ToBytes;
    var (sent, _) := SendRaw(cfg, net, log, to, message, depth);
    if '@' !in to {
      assert WithinBounds(cfg, log, sent, message, 0) by { NothingSent(cfg, log, message); }
      BoundsGrow(cfg, log, sent, message, 0, MAX_REDIRECTS + 1 - depth);
    } else {
      var request := MakeRequest(to, message);
      var mid := Hop(cfg, net, log, AttemptOf(request));
      HopCarries(cfg, net, log, to, message);
      NothingSent(cfg, mid, message);
      var reply := net(mid);
      if reply.Answer? && RedirectAddress(reply.response).Some? && depth < MAX_REDIRECTS {
        SendBound(cfg, net, mid, RedirectAddress(reply.response).value, message, depth + 1);
        BoundsCompose(cfg, log, mid, sent, message, MAX_REDIRECTS - depth);
      } else {
        SendBBound(cfg, net, mid, request);
        BoundsCompose(cfg, log, mid, sent, message, 0);
        BoundsGrow(cfg, log, sent, message, 1, MAX_REDIRECTS + 1 - depth);
      }
    }
  }

  lemma NothingSent(cfg: Config, log: seq<Attempt>, message: seq<byte>)
    ensures WithinBounds(cfg, log, log, message, 0)
  {
  }

  /** One send makes at most 6 * (1 + R) C attempts and one B attempt. */
  lemma SendAttempts(cfg: Config, net: Network, to: string, message: seq<byte>)
    ensures var (sent, _) := SendRaw(cfg, net, [], to, message, 0);
            && CountC(sent) <= 6 * (1 + cfg.maxRetries) && CountB(sent) <= 1
            && forall i | 0 <= i < |sent| :: Carries(sent[i], message)
  {
    hide SendRaw, Carries;
    SendBound(cfg, net, [], to, message, 0);
  }

  predicate EndsInB(sent: seq<Attempt>) {
    sent != [] && sent[|sent| - 1].AttemptB?
  }

  /** The last 1 + R attempts were the same C attempt and were all told to slow down. */
  ghost predicate ExhaustedRetries(cfg: Config, net: Network, sent: seq<Attempt>) {
    && |sent| >= 1 + cfg.maxRetries
    && (forall i | |sent| - cfg.maxRetries <= i <= |sent| :: SlowDown(net(sent[..i])))
    && (forall i | |sent| - 1 - cfg.maxRetries <= i < |sent| :: sent[i] == sent[|sent| - 1] && sent[i].AttemptC?)
  }

  lemma HopExhausted(cfg: Config, net: Network, log: seq<Attempt>, a: Attempt)
    requires a.AttemptC? && SlowDown(net(Hop(cfg, net, log, a)))
    ensures ExhaustedRetries(cfg, net, Hop(cfg, net, log, a))
  {
    RetryExhausted(net, log + [a], a, cfg.maxRetries);
    HopBound(cfg, net, log, a);
  }

  /**
   "Slow down" comes back only after all retries of the last hop, or from the B attempt; a redirect
   comes back only without an address, or from the B attempt.
   */
  lemma {:induction false} FinalAnswers(
      cfg: Config, net: Network, log: seq<Attempt>, to: string, message: seq<byte>, depth: nat)
    requires depth <= MAX_REDIRECTS
    ensures var (sent, outcome) := SendRaw(cfg, net, log, to, message, depth);
            && (outcome.Returned? && outcome.response.status == 44 ==>
                  EndsInB(sent) || ExhaustedRetries(cfg, net, sent))
            && (outcome.Returned? && IsRedirect(outcome.response.status) ==>
                  EndsInB(sent) || Strip(outcome.response.meta) == "")
    decreases MAX_REDIRECTS - depth
  {
    hide Hop, ExhaustedRetries, Strip, Request.ToBytesB, Request.ToBytes;
    if '@' in to {
      var request := MakeRequest(to, message);
      var a := AttemptOf(request);
      assert a.AttemptC?;
      var mid := Hop(cfg, net, log, a);
      var reply := net(mid);
      if reply.Answer? {
        if RedirectAddress(reply.response).Some? && depth < MAX_REDIRECTS {
          FinalAnswers(cfg, net, mid, RedirectAddress(reply.response).value, message, depth + 1);
        } else if SlowDown(reply) {
          HopExhausted(cfg, net, log, a);
        }
      }
    }
  }
}
