/** `MisfinClient`: its methods keep the log of the connections they make. */
module ClientSession {
  import opened Constants
  import opened Utf8
  import opened Calendar
  import opened Response
  import opened Sending
  import Request
  import GemmailC

  class MisfinClient {
    const cfg: Config
    const net: Network
    var log: seq<Attempt>

    constructor (cfg: Config, net: Network)
      ensures this.cfg == cfg && this.net == net && log == []
    {
      this.cfg, this.net, log := cfg, net, [];
    }

    /** A message without explicit sender and recipients. */
    method Send(to: string, body: string, subject: string, now: DateTime) returns (r: Outcome)
      modifies this
      ensures '@' !in to ==> r == Raised(BadAddress) && log == old(log)
      ensures '@' in to ==>
                var message := GemmailC.ToBytes(Compose(to, body, subject, now));
                (log, r) == Sending.SendRaw(cfg, net, old(log), to, message, 0)
    {
      hide Sending.SendRaw;
      if '@' !in to {
        return Raised(BadAddress);
      }
      r := SendRaw(to, GemmailC.ToBytes(Compose(to, body, subject, now)), 0);
    }

    method SendRaw(to: string, message: seq<byte>, depth: nat) returns (r: Outcome)
      requires depth <= MAX_REDIRECTS
      modifies this
      ensures (log, r) == Sending.SendRaw(cfg, net, old(log), to, message, depth)
      decreases MAX_REDIRECTS - depth
    {
      hide Hop, Sending.SendB;
      if '@' !in to {
        return Raised(BadAddress);
      }
      var request := MakeRequest(to, message);
      var reply := SendWithRetries(request);
      match reply
      case NoConnection => return Raised(ConnectionFailed);
      case NoAnswer => return Raised(Timeout);
      case Broken => return Raised(BadResponse);
      case Answer(response) =>
        match RedirectAddress(response) {
          case Some(target) =>
            if depth >= MAX_REDIRECTS {
              return Returned(TOO_MANY);
            }
            r := SendRaw(target, message, depth + 1);
          case None =>
            if cfg.fallback && FallsBack(response.status) {
              r := SendB(request);
            } else {
              r := Returned(response);
            }
        }
    }

    /** The retry loop of `_send_request`. */
    method SendWithRetries(request: Request.Request) returns (reply: Reply)
      modifies this
      ensures log == Hop(cfg, net, old(log), AttemptOf(request)) && reply == net(log)
    {
      reply := SendOnce(request);
      var retries := 0;
      while SlowDown(reply) && retries < cfg.maxRetries
        invariant retries <= cfg.maxRetries && log != [] && reply == net(log)
        invariant Retry(net, log, AttemptOf(request), cfg.maxRetries - retries)
                  == Hop(cfg, net, old(log), AttemptOf(request))
      {
        reply := SendOnce(request);
        retries := retries + 1;
      }
    }

    method SendOnce(request: Request.Request) returns (reply: Reply)
      modifies this
      ensures log == old(log) + [AttemptOf(request)] && reply == net(log)
    {
      log := log + [AttemptOf(request)];
      reply := net(log);
    }

    method SendB(request: Request.Request) returns (r: Outcome)
      modifies this
      ensures (log, r) == Sending.SendB(net, old(log), request)
    {
      match Request.ToBytesB(request)
      case Failure(_) => return Returned(TOO_LARGE);
      case Success(bytes) =>
        log := log + [AttemptB(request.mailbox, request.hostname, bytes)];
        match net(log) {
          case Answer(response) => return Returned(response);
          case NoConnection => return Returned(B_NO_CONNECTION);
          case NoAnswer => return Returned(B_NO_ANSWER);
          case Broken => return Raised(BadResponse);
        }
    }
  }
}
