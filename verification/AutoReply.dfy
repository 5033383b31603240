/** Automatic replies: how they are recognised, when one is due, and how they are spaced out per sender. */
module AutoReply {
  import opened Wrappers
  import opened Text
  import opened Gemmail

  const AUTO_REPLY := "[Auto-Reply]"

  function DropHashes(s: string): string {
    if s != "" && s[0] == '#' then DropHashes(s[1..]) else s
  }

  function FirstHeading(lines: seq<string>): Option<string> {
    if lines == [] then None
    else
      var t := Strip(lines[0]);
      if t != "" && t[0] == '#' then Some(Strip(DropHashes(t))) else FirstHeading(lines[1..])
  }

  /** `GemmailMessage.subject`: the text of the first heading line. */
  function Subject(body: string): Option<string> {
    FirstHeading(Split(body, '\n'))
  }

  predicate IsAutoReply(m: Message) {
    match Subject(m.body)
    case None => false
    case Some(s) => Contains(s, AUTO_REPLY)
  }

  const INTERVAL_UNIT := 1000000

  /** When an auto-reply was last sent to an address, in microseconds. */
  type LastSent = map<string, int>

  predicate TooSoon(last: LastSent, interval: int, address: string, now: int) {
    address in last && now - last[address] < interval * INTERVAL_UNIT
  }

  predicate ShouldReply(last: LastSent, interval: int, enabled: bool, m: Message, now: int) {
    && enabled && !IsAutoReply(m) && m.senders != []
    && !TooSoon(last, interval, Lower(m.senders[0].Text()), now)
  }

  /** `_should_auto_reply` with its table of last replies. */
  class AutoResponder {
    const interval: int
    var lastSent: LastSent

    constructor (interval: int)
      ensures this.interval == interval && lastSent == map[]
    {
      this.interval, lastSent := interval, map[];
    }

    /** A positive answer records the time at once, before the reply is sent. */
    method ShouldAutoReply(enabled: bool, m: Message, now: int) returns (reply: bool)
      modifies this
      ensures reply == ShouldReply(old(lastSent), interval, enabled, m, now)
      ensures lastSent == if reply then old(lastSent)[Lower(m.senders[0].Text()) := now] else old(lastSent)
    {
      hide IsAutoReply;
      if !enabled || IsAutoReply(m) || m.senders == [] {
        return false;
      }
      var address := Lower(m.senders[0].Text());
      if address in lastSent && now - lastSent[address] < interval * INTERVAL_UNIT {
        return false;
      }
      lastSent := lastSent[address := now];
      return true;
    }
  }

  // -- Spacing over whole runs --

  datatype Arrival = Arrival(enabled: bool, m: Message, now: int)

  predicate Replied(interval: int, arrivals: seq<Arrival>, k: nat)
    requires k < |arrivals|
  {
    var a := arrivals[k];
    ShouldReply(LastSentAt(interval, arrivals, k), interval, a.enabled, a.m, a.now)
  }

  function LastSentAt(interval: int, arrivals: seq<Arrival>, k: nat): LastSent
    requires k <= |arrivals|
    decreases k
  {
    if k == 0 then map[]
    else
      var last := LastSentAt(interval, arrivals, k - 1);
      var a := arrivals[k - 1];
      if ShouldReply(last, interval, a.enabled, a.m, a.now) then last[Lower(a.m.senders[0].Text()) := a.now] else last
  }

  predicate RepliedTo(interval: int, arrivals: seq<Arrival>, k: nat, address: string)
    requires k < |arrivals|
  {
    Replied(interval, arrivals, k) && Lower(arrivals[k].m.senders[0].Text()) == address
  }

  /** After a reply, the recorded time for its address only moves forward. */
  lemma {:induction false} LastSentGrows(interval: int, arrivals: seq<Arrival>, i: nat, k: nat, address: string)
    requires interval >= 0 && i < k <= |arrivals| && RepliedTo(interval, arrivals, i, address)
    ensures address in LastSentAt(interval, arrivals, k)
    ensures LastSentAt(interval, arrivals, k)[address] >= arrivals[i].now
  {
    hide IsAutoReply;
    if k > i + 1 { LastSentGrows(interval, arrivals, i, k - 1, address); }
  }

  /**
   Two replies to one sender are at least the interval apart; the clock may even run backwards in
   between, since then no reply is due.
   */
  lemma ReplySpacing(interval: int, arrivals: seq<Arrival>, i: nat, j: nat, address: string)
    requires interval >= 0 && i < j < |arrivals|
    requires RepliedTo(interval, arrivals, i, address) && RepliedTo(interval, arrivals, j, address)
    ensures arrivals[j].now - arrivals[i].now >= interval * INTERVAL_UNIT
  {
    hide IsAutoReply;
    LastSentGrows(interval, arrivals, i, j, address);
  }

  /** A recorded time is that of an earlier reply. */
  lemma {:induction false} LastSentOrigin(interval: int, arrivals: seq<Arrival>, k: nat, address: string)
    returns (j: nat)
    requires k <= |arrivals| && address in LastSentAt(interval, arrivals, k)
    ensures j < k && RepliedTo(interval, arrivals, j, address)
    ensures LastSentAt(interval, arrivals, k)[address] == arrivals[j].now
  {
    hide IsAutoReply, TooSoon;
    if RepliedTo(interval, arrivals, k - 1, address) {
      j := k - 1;
    } else {
      j := LastSentOrigin(interval, arrivals, k - 1, address);
    }
  }

  /** The subject holds the marker of an automatic reply. */
  predicate Marked(m: Message) {
    Subject(m.body).Some? && Contains(Subject(m.body).value, "[Auto-Reply]")
  }

  /**
   A reply is sent exactly when replies are enabled, the message is none itself and names a sender, and
   every earlier reply to that sender, in any case of letters, lies the interval back.
   */
  lemma ReplyDueExact(interval: int, arrivals: seq<Arrival>, k: nat)
    requires interval >= 0 && k < |arrivals|
    ensures var a := arrivals[k];
            Replied(interval, arrivals, k)
            <==> && a.enabled && !Marked(a.m) && a.m.senders != []
                 && forall j | 0 <= j < k && RepliedTo(interval, arrivals, j, Lower(a.m.senders[0].Text())) ::
                      a.now - arrivals[j].now >= interval * 1000000
  {
    hide Subject, Contains, RepliedTo, LastSentAt, Lower;
    var a := arrivals[k];
    if a.m.senders != [] {
      var address := Lower(a.m.senders[0].Text());
      var last := LastSentAt(interval, arrivals, k);
      forall j | 0 <= j < k && RepliedTo(interval, arrivals, j, address)
        ensures address in last && last[address] >= arrivals[j].now
      {
        LastSentGrows(interval, arrivals, j, k, address);
      }
      if address in last {
        var j := LastSentOrigin(interval, arrivals, k, address);
      }
    }
  }
}
