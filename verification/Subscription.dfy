/** Pending subscriptions, the three list commands, and the objects that carry them out. */
module Subscription {
  import opened Wrappers
  import opened Text
  import opened Calendar
  import opened Gemmail
  import opened Response
  import opened Subscribers

  datatype Pending = Pending(token: string, created: DateTime)

  /** Rows keyed by list name and lower-case address. */
  type Table = map<(string, string), Pending>

  function UpperChar(c: char): char {
    if 'a' <= c <= 'z' then (c as int - 32) as char else c
  }

  function Upper(s: string): string {
    seq(|s|, i requires 0 <= i < |s| => UpperChar(s[i]))
  }

  /** `created_at >= cutoff`, compared as the texts the table stores. */
  predicate Live(p: Pending, cutoff: DateTime) {
    !TextLess(IsoFormat(p.created), IsoFormat(cutoff))
  }

  predicate Matches(table: Table, list: string, token: string, cutoff: DateTime, address: string) {
    var key := (list, address);
    key in table && table[key].token == Upper(token) && Live(table[key], cutoff)
  }

  class SubscriptionTokenStore {
    var pending: Table

    constructor ()
      ensures pending == map[]
    {
      pending := map[];
    }

    /** A new token replaces the one the address had for the list. */
    method CreateToken(list: string, address: string, token: string, now: DateTime)
      modifies this
      ensures pending == old(pending)[(list, Lower(address)) := Pending(token, now)]
    {
      pending := pending[(list, Lower(address)) := Pending(token, now)];
    }

    /** Consumes the row it finds; which one, when several match, is up to the database. */
    method VerifyToken(list: string, token: string, cutoff: DateTime) returns (address: Option<string>)
      modifies this
      ensures address.Some? ==>
                Matches(old(pending), list, token, cutoff, address.value)
                && pending == old(pending) - {(list, address.value)}
      ensures address.None? ==>
                pending == old(pending) && forall a :: !Matches(old(pending), list, token, cutoff, a)
    {
      var rows := set key | key in pending && key.0 == list && Matches(pending, list, token, cutoff, key.1);
      if rows == {} {
        forall a ensures !Matches(pending, list, token, cutoff, a) {
          assert (list, a) !in rows;
        }
        return None;
      }
      var key :| key in rows;
      pending := pending - {key};
      assert key == (list, key.1);
      return Some(key.1);
    }

    /** Purges the expired rows and says how many there were. */
    method Cleanup(cutoff: DateTime) returns (count: nat)
      modifies this
      ensures pending == Unexpired(old(pending), cutoff)
      ensures count == |old(pending)| - |pending|
    {
      hide Live;
      var expired := set key | key in pending && !Live(pending[key], cutoff);
      count := |expired|;
      assert pending.Keys == (pending - expired).Keys + expired;
      pending := pending - expired;
    }
  }

  function Unexpired(table: Table, cutoff: DateTime): Table {
    map key | key in table && Live(table[key], cutoff) :: table[key]
  }

  // -- The commands --

  function SenderSet(senders: seq<Address>): set<string> {
    set a | a in senders :: Lower(a.Text())
  }

  const ALREADY := Response(20, "Already subscribed")
  const SENT := Response(20, "Confirmation sent")
  const CONFIRMED := Response(20, "Subscription confirmed")
  const UNSUBSCRIBED := Response(20, "Unsubscribed")
  const NO_SENDER := Response(59, "No sender identity")
  const BAD_TOKEN := Response(59, "Invalid or expired token")
  const MISMATCH := Response(59, "Token does not match sender")
  const NOT_SUBSCRIBED := Response(59, "Not subscribed")

  /** A subscription command issues a token to the first sender, unless already subscribed. */
  predicate Issues(text: string, senders: seq<Address>) {
    senders != [] && !IsSubscriber(senders[0].Text(), Load(text))
  }

  function SubscribeReply(text: string, senders: seq<Address>): Response {
    if senders == [] then NO_SENDER
    else if Issues(text, senders) then SENT else ALREADY
  }

  function SubscribeTable(text: string, table: Table, list: string, senders: seq<Address>, token: string, now: DateTime)
    : Table
  {
    if Issues(text, senders) then table[(list, Lower(senders[0].Text())) := Pending(token, now)] else table
  }

  /** The effect of a confirmation that found the row of `found`. */
  function ConfirmText(text: string, senders: seq<Address>, found: Option<string>): string {
    if found.Some? && Lower(found.value) in SenderSet(senders) then Added(text, found.value) else text
  }

  function ConfirmReply(senders: seq<Address>, found: Option<string>): Response {
    match found
    case None => BAD_TOKEN
    case Some(address) => if Lower(address) in SenderSet(senders) then CONFIRMED else MISMATCH
  }

  function ConfirmTable(table: Table, list: string, found: Option<string>): Table {
    match found
    case None => table
    case Some(address) => table - {(list, address)}
  }

  predicate Leaves(text: string, senders: seq<Address>) {
    senders != [] && IsSubscriber(senders[0].Text(), Load(text))
  }

  function UnsubscribeText(text: string, senders: seq<Address>): string {
    if Leaves(text, senders) then Removed(text, senders[0].Text()) else text
  }

  lemma LowerTwice(s: string)
    ensures Lower(Lower(s)) == Lower(s)
  {
  }

  /** The list commands of `FileMailboxHandler` for one mailing list. */
  class MailingList {
    const name: string
    const file: SubscribersFile
    const store: SubscriptionTokenStore

    constructor (name: string, file: SubscribersFile, store: SubscriptionTokenStore)
      ensures this.name == name && this.file == file && this.store == store
    {
      this.name, this.file, this.store := name, file, store;
    }

    method HandleSubscribe(senders: seq<Address>, token: string, now: DateTime) returns (r: Response)
      modifies store
      ensures r == SubscribeReply(file.text, senders)
      ensures store.pending == SubscribeTable(file.text, old(store.pending), name, senders, token, now)
    {
      hide Load;
      if senders == [] {
        return NO_SENDER;
      }
      var address := Lower(senders[0].Text());
      LowerTwice(senders[0].Text());
      var subscribers := file.LoadSubscribers();
      if IsSubscriber(address, subscribers) {
        return ALREADY;
      }
      store.CreateToken(name, address, token, now);
      return SENT;
    }

    method HandleConfirm(senders: seq<Address>, token: string, cutoff: DateTime)
      returns (r: Response, ghost found: Option<string>)
      modifies store, file
      ensures found.Some? ==> Matches(old(store.pending), name, token, cutoff, found.value)
      ensures found.None? ==> forall a :: !Matches(old(store.pending), name, token, cutoff, a)
      ensures r == ConfirmReply(senders, found)
      ensures store.pending == ConfirmTable(old(store.pending), name, found)
      ensures file.text == ConfirmText(old(file.text), senders, found)
    {
      hide Load;
      var address := store.VerifyToken(name, token, cutoff);
      found := address;
      if address.None? {
        return BAD_TOKEN, found;
      }
      if Lower(address.value) !in SenderSet(senders) {
        return MISMATCH, found;
      }
      var _ := file.AddSubscriber(address.value);
      return CONFIRMED, found;
    }

    method HandleUnsubscribe(senders: seq<Address>) returns (r: Response)
      modifies file
      ensures r == if senders == [] then NO_SENDER
                   else if Leaves(old(file.text), senders) then UNSUBSCRIBED else NOT_SUBSCRIBED
      ensures file.text == UnsubscribeText(old(file.text), senders)
    {
      hide Load, Strip;
      if senders == [] {
        return NO_SENDER;
      }
      var subscribers := file.LoadSubscribers();
      if !IsSubscriber(senders[0].Text(), subscribers) {
        return NOT_SUBSCRIBED;
      }
      var _ := file.RemoveSubscriber(senders[0].Text());
      return UNSUBSCRIBED;
    }
  }
}

/** Whole runs of list commands: who is subscribed, and why. */
module SubscriptionRuns {
  import opened Wrappers
  import opened Text
  import opened Calendar
  import opened Gemmail
  import opened Subscribers
  import opened Subscription

  datatype Event =
    | Subscribe(list: string, senders: seq<Address>, token: string, now: DateTime)
    | Confirm(
        list: string, senders: seq<Address>, typed: string, found: Option<string>, now: DateTime, cutoff: DateTime)
    | Unsubscribe(list: string, senders: seq<Address>)
    | Forget(list: string, address: string)
    | Cleanup(cutoff: DateTime)

  datatype Lists = Lists(texts: map<string, string>, pending: Table)

  function TextOf(l: Lists, list: string): string {
    if list in l.texts then l.texts[list] else ""
  }

  function Step(l: Lists, e: Event): Lists {
    match e
    case Subscribe(list, senders, token, now) =>
      l.(pending := SubscribeTable(TextOf(l, list), l.pending, list, senders, token, now))
    case Confirm(list, senders, _, found, _, _) =>
      Lists(l.texts[list := ConfirmText(TextOf(l, list), senders, found)], ConfirmTable(l.pending, list, found))
    case Unsubscribe(list, senders) => l.(texts := l.texts[list := UnsubscribeText(TextOf(l, list), senders)])
    case Forget(list, address) => l.(pending := l.pending - {(list, Lower(address))})
    case Cleanup(cutoff) => l.(pending := Unexpired(l.pending, cutoff))
  }

  /** A confirmation reports a row that matches, and fails to find one only when none does. */
  ghost predicate Enabled(l: Lists, e: Event) {
    e.Confirm? ==>
      match e.found
      case Some(a) => Matches(l.pending, e.list, e.typed, e.cutoff, a)
      case None => forall a :: !Matches(l.pending, e.list, e.typed, e.cutoff, a)
  }

  function StateAt(events: seq<Event>, k: nat): Lists
    requires k <= |events|
  {
    if k == 0 then Lists(map[], map[]) else Step(StateAt(events, k - 1), events[k - 1])
  }

  ghost predicate IsRun(events: seq<Event>) {
    forall k | 0 <= k < |events| :: Enabled(StateAt(events, k), events[k])
  }

  // -- Where a pending row comes from --

  predicate IssuesTo(l: Lists, e: Event, list: string, a: string) {
    e.Subscribe? && e.list == list && Issues(TextOf(l, list), e.senders) && Lower(e.senders[0].Text()) == a
  }

  /** Event `i` issued the row that is there before event `k`; it was never replaced or taken in between. */
  ghost predicate IssuedAt(events: seq<Event>, i: nat, k: nat, list: string, a: string)
    requires i < k <= |events|
  {
    && IssuesTo(StateAt(events, i), events[i], list, a)
    && (forall m | i < m < k :: !IssuesTo(StateAt(events, m), events[m], list, a))
    && (forall m | i < m <= k :: (list, a) in StateAt(events, m).pending)
    && StateAt(events, k).pending[(list, a)] == Pending(events[i].token, events[i].now)
  }

  /** A row is either issued by the step or was there before it. */
  lemma PendingStep(l: Lists, e: Event, list: string, a: string)
    requires (list, a) in Step(l, e).pending
    ensures if IssuesTo(l, e, list, a) then Step(l, e).pending[(list, a)] == Pending(e.token, e.now)
            else (list, a) in l.pending && l.pending[(list, a)] == Step(l, e).pending[(list, a)]
  {
    hide Issues, Live, TextOf, Lower, ConfirmText, UnsubscribeText;
  }

  lemma {:induction false} PendingOrigin(events: seq<Event>, k: nat, list: string, a: string) returns (i: nat)
    requires k <= |events| && (list, a) in StateAt(events, k).pending
    ensures i < k && IssuedAt(events, i, k, list, a)
  {
    hide IssuesTo, Step;
    var (l, e) := (StateAt(events, k - 1), events[k - 1]);
    PendingStep(l, e, list, a);
    if IssuesTo(l, e, list, a) {
      i := k - 1;
      assert e.Subscribe? by { IssuersSubscribe(l, e, list, a); }
    } else {
      i := PendingOrigin(events, k - 1, list, a);
    }
  }

  lemma IssuersSubscribe(l: Lists, e: Event, list: string, a: string)
    requires IssuesTo(l, e, list, a)
    ensures e.Subscribe?
  {
  }

  /** Event `j` confirmed `a`: with the latest token issued to it, by event `i`, within its time to live. */
  ghost predicate ConfirmedBy(events: seq<Event>, i: nat, j: nat, list: string, a: string)
    requires i < j < |events|
  {
    && events[j].Confirm? && events[j].list == list && events[j].found == Some(a)
    && a in SenderSet(events[j].senders)
    && IssuedAt(events, i, j, list, a)
    && events[i].token == Upper(events[j].typed)
    && !TextLess(IsoFormat(events[i].now), IsoFormat(events[j].cutoff))
  }

  lemma ConfirmOrigin(events: seq<Event>, j: nat, list: string, a: string) returns (i: nat)
    requires IsRun(events) && j < |events|
    requires events[j].Confirm? && events[j].list == list && events[j].found == Some(a)
    ensures i < j && IssuedAt(events, i, j, list, a)
    ensures events[i].Subscribe? && events[i].token == Upper(events[j].typed)
    ensures !TextLess(IsoFormat(events[i].now), IsoFormat(events[j].cutoff))
  {
    hide IssuedAt, StateAt;
    assert Enabled(StateAt(events, j), events[j]);
    i := PendingOrigin(events, j, list, a);
    IssuedRow(events, i, j, list, a);
  }

  lemma IssuedRow(events: seq<Event>, i: nat, k: nat, list: string, a: string)
    requires i < k <= |events| && IssuedAt(events, i, k, list, a)
    ensures events[i].Subscribe? && (list, a) in StateAt(events, k).pending
    ensures StateAt(events, k).pending[(list, a)] == Pending(events[i].token, events[i].now)
  {
  }

  /** Two confirmations of one address never use the same issue of a token. */
  lemma TokenConsumedOnce(events: seq<Event>, j: nat, k: nat, list: string, a: string) returns (first: nat, second: nat)
    requires IsRun(events) && j < k < |events|
    requires events[j].Confirm? && events[j].list == list && events[j].found == Some(a)
    requires events[k].Confirm? && events[k].list == list && events[k].found == Some(a)
    ensures first < j < second < k
    ensures IssuedAt(events, first, j, list, a) && IssuedAt(events, second, k, list, a)
  {
    first := ConfirmOrigin(events, j, list, a);
    second := ConfirmOrigin(events, k, list, a);
    assert (list, a) !in StateAt(events, j + 1).pending;
  }

  // -- The subscriber lists --

  /** Every row is keyed by a lower-case address, every file ends where a line ends. */
  ghost predicate Tidy(l: Lists) {
    && (forall key | key in l.pending :: Lower(key.1) == key.1)
    && (forall list | list in l.texts :: Terminated(l.texts[list]))
  }

  lemma ConfirmTidy(text: string, senders: seq<Address>, found: Option<string>)
    requires Terminated(text) && (found.Some? ==> Lower(found.value) == found.value)
    ensures Terminated(ConfirmText(text, senders, found))
    ensures forall a | a in Load(ConfirmText(text, senders, found)) ::
              || a in Load(text)
              || (found.Some? && found.value in SenderSet(senders) && a in Names(found.value))
  {
    hide Load, Added, Terminated, Names, Normal;
    if found.Some? { AddTerminated(text, found.value); }
  }

  lemma UnsubscribeTidy(text: string, senders: seq<Address>)
    ensures Terminated(text) ==> Terminated(UnsubscribeText(text, senders))
    ensures forall a | a in Load(UnsubscribeText(text, senders)) ::
              a in Load(text) && (senders != [] ==> a != Lower(senders[0].Text()))
  {
    hide Load, Removed, Terminated, Normal;
    if Leaves(text, senders) {
      var me := Lower(senders[0].Text());
      SubscriberIsNormal(text, senders[0].Text());
      RemoveLoads(text, senders[0].Text());
      forall a | a in Load(UnsubscribeText(text, senders)) ensures a in Load(text) && a != me {
        WithoutMembers(Load(text), me, a);
      }
    }
  }

  /** Only a well-formed address is ever found in a file, so removal strips nothing off it. */
  lemma SubscriberIsNormal(text: string, address: string)
    requires IsSubscriber(address, Load(text))
    ensures Normal(address) == Lower(address)
  {
    hide ValidAddress, SplitLines, Strip;
    var a := Lower(address);
    LoadedIsValid(SplitLines(Strip(text)), a);
    ValidIsPlain(a);
    assert SpaceFree(address) by {
      forall c | c in address ensures !IsSpace(c) {
        var i :| 0 <= i < |address| && address[i] == c;
        assert a[i] in a;
      }
    }
    SpaceFreeTrimmed(address);
  }

  lemma TidyStep(l: Lists, e: Event)
    requires Tidy(l) && Enabled(l, e)
    ensures Tidy(Step(l, e))
  {
    hide ConfirmText, UnsubscribeText, Issues, Live, Terminated, Load, Lower, Names, Upper;
    EmptyTerminated();
    match e
    case Subscribe(list, senders, token, now) =>
      if senders != [] { LowerTwice(senders[0].Text()); }
    case Confirm(list, senders, _, found, _, _) => ConfirmTidy(TextOf(l, list), senders, found);
    case Unsubscribe(list, senders) => UnsubscribeTidy(TextOf(l, list), senders);
    case Forget(_, _) =>
    case Cleanup(_) =>
  }

  lemma {:induction false} RunTidy(events: seq<Event>, k: nat)
    requires IsRun(events) && k <= |events|
    ensures Tidy(StateAt(events, k))
  {
    hide Step, Tidy, Enabled;
    if k > 0 {
      RunTidy(events, k - 1);
      TidyStep(StateAt(events, k - 1), events[k - 1]);
    } else {
      NothingTidy();
    }
  }

  lemma NothingTidy()
    ensures Tidy(Lists(map[], map[]))
  {
  }

  lemma EmptyTerminated()
    ensures Terminated("") && Load("") == []
  {
  }

  /** Since event `j`, the subscriber has not unsubscribed. */
  predicate StayedSince(events: seq<Event>, j: nat, k: nat, list: string, a: string)
    requires k <= |events|
  {
    forall m | j < m < k :: !UnsubscribesAs(events[m], list, a)
  }

  /**
   In every run from empty lists, a subscriber is named by the line of an address which a sender set
   containing it confirmed, with the latest token issued to that list and address, within its time to
   live; and the subscriber has not unsubscribed since.
   */
  lemma {:induction false} SubscriberProvenance(events: seq<Event>, k: nat, list: string, a: string)
    returns (i: nat, j: nat, b: string)
    requires IsRun(events) && k <= |events|
    requires a in Load(TextOf(StateAt(events, k), list))
    ensures i < j < k && ConfirmedBy(events, i, j, list, b) && a in Names(b)
    ensures StayedSince(events, j, k, list, a)
  {
    hide Step, Tidy, Enabled, IssuedAt, Load, Names, SenderSet, TextOf, IsRun;
    if k == 0 {
      NobodyAtFirst(list);
    }
    var (l, e) := (StateAt(events, k - 1), events[k - 1]);
    RunTidy(events, k - 1);
    RunStep(events, k - 1);
    SubscriberStep(l, e, list, a);
    if a in Load(TextOf(l, list)) && !UnsubscribesAs(e, list, a) {
      i, j, b := SubscriberProvenance(events, k - 1, list, a);
    } else {
      j, b := k - 1, e.found.value;
      i := ConfirmOrigin(events, j, list, b);
    }
  }

  lemma NobodyAtFirst(list: string)
    ensures Load(TextOf(Lists(map[], map[]), list)) == []
  {
  }

  lemma RunStep(events: seq<Event>, k: nat)
    requires IsRun(events) && k < |events|
    ensures Enabled(StateAt(events, k), events[k])
  {
  }

  predicate UnsubscribesAs(e: Event, list: string, a: string) {
    e.Unsubscribe? && e.list == list && e.senders != [] && Lower(e.senders[0].Text()) == a
  }

  /** A subscriber after a step was one before it, or the step confirmed it. */
  lemma SubscriberStep(l: Lists, e: Event, list: string, a: string)
    requires Tidy(l) && Enabled(l, e)
    requires a in Load(TextOf(Step(l, e), list))
    ensures (a in Load(TextOf(l, list)) && !UnsubscribesAs(e, list, a))
            || (e.Confirm? && e.list == list && e.found.Some?
                && e.found.value in SenderSet(e.senders) && a in Names(e.found.value))
  {
    hide ConfirmText, UnsubscribeText, Issues, Live, Terminated, Load, Lower, Names, Upper, SenderSet;
    EmptyTerminated();
    match e
    case Confirm(name, senders, _, found, _, _) => ConfirmTidy(TextOf(l, name), senders, found);
    case Unsubscribe(name, senders) => UnsubscribeTidy(TextOf(l, name), senders);
    case _ =>
  }

  /** Every confirmation uses the cutoff of one time to live, measured back from its own clock. */
  ghost predicate Timed(events: seq<Event>, ttl: nat) {
    && (forall k | 0 <= k < |events| && events[k].Subscribe? :: Valid(events[k].now))
    && (forall k | 0 <= k < |events| && events[k].Confirm? :: IsCutoff(events[k].cutoff, events[k].now, ttl))
  }

  /** The same in terms of time: the token was confirmed no later than the time to live after its issue. */
  lemma ConfirmedInTime(events: seq<Event>, k: nat, list: string, a: string, ttl: nat)
    returns (i: nat, j: nat, b: string)
    requires IsRun(events) && Timed(events, ttl) && k <= |events|
    requires a in Load(TextOf(StateAt(events, k), list))
    ensures i < j < k && ConfirmedBy(events, i, j, list, b) && a in Names(b) && events[i].Subscribe?
    ensures Instant(events[j].now) - Instant(events[i].now) <= ttl * 1000000
  {
    hide IsRun, IssuedAt, Load, Names, StateAt, SenderSet, Instant, IsoFormat, Valid;
    i, j, b := SubscriberProvenance(events, k, list, a);
    IssuedRow(events, i, j, list, b);
    UnexpiredExact(events[i].now, events[j].cutoff, events[j].now, ttl);
  }

  // -- When a subscriber is the address that was confirmed --

  /** Every address that asks for a subscription is well-formed, or its line names nobody. */
  predicate AsksSound(events: seq<Event>) {
    forall m | 0 <= m < |events| && events[m].Subscribe? && events[m].senders != [] ::
      Sound(Lower(events[m].senders[0].Text()))
  }

  lemma IssuedToAsker(events: seq<Event>, i: nat, k: nat, list: string, b: string)
    requires i < k <= |events| && IssuedAt(events, i, k, list, b)
    ensures events[i].Subscribe? && events[i].senders != [] && Lower(events[i].senders[0].Text()) == b
  {
  }

  /** If all who ask are sound, every subscriber has confirmed its own address, up to outer white space. */
  lemma OwnConfirmation(events: seq<Event>, k: nat, list: string, a: string) returns (i: nat, j: nat, b: string)
    requires IsRun(events) && AsksSound(events) && k <= |events|
    requires a in Load(TextOf(StateAt(events, k), list))
    ensures i < j < k && ConfirmedBy(events, i, j, list, b) && a == Strip(b)
    ensures StayedSince(events, j, k, list, a)
  {
    hide IsRun, IssuedAt, Load, Names, StateAt, SenderSet, Sound, Strip, IsoFormat;
    i, j, b := SubscriberProvenance(events, k, list, a);
    IssuedToAsker(events, i, j, list, b);
    assert Sound(b);
    SoundExact(b);
    LoweredStrip(events[i].senders[0].Text());
  }

  lemma LoweredStrip(s: string)
    ensures Normal(Lower(s)) == Strip(Lower(s))
  {
    StripCharactersLower(s);
  }

  lemma StripCharactersLower(s: string)
    ensures Lower(Strip(Lower(s))) == Strip(Lower(s))
  {
    var t := Strip(Lower(s));
    forall i | 0 <= i < |t| ensures LowerChar(t[i]) == t[i] {
      StripCharacters(Lower(s), t[i]);
    }
  }

  /** No one but `b` ever asks for a subscription. */
  predicate OnlyAsks(events: seq<Event>, b: string) {
    forall m | 0 <= m < |events| && events[m].Subscribe? && events[m].senders != [] ::
      Lower(events[m].senders[0].Text()) == b
  }

  const EPOCH := DateTime(2000, 1, 1, 0, 0, 0, 0)

  /** The sender subscribes and confirms with the token it was sent. */
  function SubscribeAndConfirm(list: string, who: Address): (events: seq<Event>)
    ensures |events| == 2 && forall m | 0 <= m < 2 :: !events[m].Forget? && !events[m].Cleanup?
  {
    [Subscribe(list, [who], "TOKEN", EPOCH),
     Confirm(list, [who], "TOKEN", Some(Lower(who.Text())), EPOCH, EPOCH)]
  }

  lemma SubscribeAndConfirmRun(list: string, who: Address)
    ensures var events := SubscribeAndConfirm(list, who);
            && IsRun(events)
            && Load(TextOf(StateAt(events, 2), list)) == Names(Lower(who.Text()))
  {
    hide Load, Names, Normal, IsoFormat, AsRead, Lower;
    var (events, b) := (SubscribeAndConfirm(list, who), Lower(who.Text()));
    LoadOfNothing();
    LowerTwice(who.Text());
    Irreflexive(IsoFormat(EPOCH));
    assert Upper("TOKEN") == "TOKEN";
    var l := StateAt(events, 1);
    assert StateAt(events, 0) == Lists(map[], map[]);
    assert l == Lists(map[], map[(list, b) := Pending("TOKEN", EPOCH)]);
    assert b in SenderSet([who]) by { assert who in [who]; }
    assert TextOf(StateAt(events, 2), list) == Added("", b);
    EmptyIsTerminated();
    AddTerminated("", b);
    assert [] + Names(b) == Names(b);
  }

  /**
   All runs in which only one address asks for subscriptions leave only that address subscribed,
   exactly when the address is well-formed or its line names nobody.
   */
  lemma SubscriptionExact(who: Address)
    ensures var b := Lower(who.Text());
            (forall events, k: nat, list, a |
               k <= |events| && IsRun(events) && OnlyAsks(events, b) && a in Load(TextOf(StateAt(events, k), list)) ::
               a == Strip(b))
            <==> Sound(b)
  {
    hide IsRun, Load, Names, StateAt, Sound, Strip;
    var b := Lower(who.Text());
    SoundExact(b);
    LoweredStrip(who.Text());
    if Sound(b) {
      forall events, k: nat, list, a
        | k <= |events| && IsRun(events) && OnlyAsks(events, b) && a in Load(TextOf(StateAt(events, k), list))
        ensures a == Strip(b)
      {
        var _, _, c := OwnConfirmation(events, k, list, a);
        assert c == b;
      }
    } else {
      var x :| x in Names(b) && x != Strip(b);
      var events := SubscribeAndConfirm("list", who);
      SubscribeAndConfirmRun("list", who);
      assert x in Load(TextOf(StateAt(events, 2), "list"));
    }
  }

  /** An address that the parser accepts and whose line names somebody else. */
  const SEPARATED := Address("v@w\U{2028}x", "e.org", "")

  lemma SeparatedNames()
    ensures Lower(SEPARATED.Text()) == SEPARATED.Text() && "v@w" in Names(SEPARATED.Text())
  {
    hide Strip, Load, AsRead, Pieces, NamedIn, Named;
    var a := SEPARATED.Text();
    assert Lower(a) == a;
    StripTrimmed(a);
    ReadUnchanged(a);
    LoadByPieces(a);
    var (x, y) := ("v@w", "x@e.org");
    assert a == x + ['\U{2028}'] + y;
    PiecesAtBreak(x, '\U{2028}', y);
    assert Pieces(x) == [x] by { assert BreakFree(x); PiecesWhole(x); }
    NamedInConcat([x], Pieces(y));
    NamedInOne(x);
    assert ValidAddress(x) by { SmallAddress(); }
    assert Lower(x) == x;
    ValidNamed(x);
  }

  lemma SmallAddress()
    ensures ValidAddress("v@w")
  {
    var a := "v@w";
    IndexOfAt("v", '@', "w");
    assert a == "v" + ['@'] + "w" && a[..1] == "v" && a[2..] == "w";
  }

  /** A run in which `v@w` becomes a subscriber without ever having asked or confirmed. */
  lemma SeparatorSubscribesAnother()
    ensures ParseAddress("v@w\U{2028}x@e.org") == Success(SEPARATED)
    ensures var events := SubscribeAndConfirm("list", SEPARATED);
            && IsRun(events)
            && "v@w" in Load(TextOf(StateAt(events, 2), "list"))
            && forall m | 0 <= m < 2 :: events[m].senders == [SEPARATED]
  {
    hide ParseAddress, Load, Names;
    var a := SEPARATED;
    assert Canonical(a);
    ParsePrintedAddress(a);
    assert a.Print() == "v@w\U{2028}x@e.org";
    SeparatedNames();
    SubscribeAndConfirmRun("list", a);
  }
}
