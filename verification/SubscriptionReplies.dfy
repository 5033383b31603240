/** What the list commands answer and change, in terms of the file, the pending rows and the clock. */
module SubscriptionReplies {
  import opened Wrappers
  import opened Text
  import opened Calendar
  import opened Gemmail
  import opened Response
  import opened Subscribers
  import opened Subscription
  import opened SubscriptionRuns

  // -- Tokens in any case --

  predicate NoLowerCase(s: string) {
    forall c | c in s :: !('a' <= c <= 'z')
  }

  lemma UpperCharExact(c: char, d: char)
    requires !('a' <= d <= 'z')
    ensures UpperChar(c) == d <==> LowerChar(c) == LowerChar(d)
  {
  }

  /** A text in upper case is what exactly its variants in any case are changed to. */
  lemma UpperExact(typed: string, token: string)
    requires NoLowerCase(token)
    ensures Upper(typed) == token <==> Lower(typed) == Lower(token)
  {
    if |typed| == |token| {
      forall i | 0 <= i < |token|
        ensures UpperChar(typed[i]) == token[i] <==> LowerChar(typed[i]) == LowerChar(token[i])
      {
        assert token[i] in token;
        UpperCharExact(typed[i], token[i]);
      }
      if Upper(typed) == token {
        assert forall i | 0 <= i < |token| :: Upper(typed)[i] == token[i];
        assert Lower(typed) == Lower(token);
      }
      if Lower(typed) == Lower(token) {
        assert forall i | 0 <= i < |token| :: Lower(typed)[i] == Lower(token)[i];
        assert Upper(typed) == token;
      }
    }
  }

  /** A typed token matches a pending row exactly when it is the issued one in any case, and the row is not too old. */
  lemma TypedExact(table: Table, list: string, typed: string, cutoff: DateTime, a: string)
    requires (list, a) in table && NoLowerCase(table[(list, a)].token)
    ensures Matches(table, list, typed, cutoff, a)
            <==> Lower(typed) == Lower(table[(list, a)].token) && Live(table[(list, a)], cutoff)
  {
    hide Live, Lower, Upper;
    UpperExact(typed, table[(list, a)].token);
  }

  // -- Subscribing --

  /** What the commands take for the sender is the first one, in lower case. */
  function Asker(senders: seq<Address>): string
    requires senders != []
  {
    Lower(senders[0].Text())
  }

  /** A request to subscribe is answered, and gets a token in place of an older one, exactly in these cases. */
  lemma SubscribeExact(text: string, table: Table, list: string, senders: seq<Address>, token: string, now: DateTime)
    ensures senders == [] ==> SubscribeReply(text, senders) == Response(59, "No sender identity")
    ensures senders != [] && Asker(senders) in Load(text) ==>
              SubscribeReply(text, senders) == Response(20, "Already subscribed")
    ensures senders != [] && Asker(senders) !in Load(text) ==>
              SubscribeReply(text, senders) == Response(20, "Confirmation sent")
    ensures forall l, a ::
              var (key, after) := ((l, a), SubscribeTable(text, table, list, senders, token, now));
              if senders != [] && l == list && a == Asker(senders) && a !in Load(text) then
                key in after && after[key] == Pending(token, now)
              else (key in after <==> key in table) && (key in table ==> after[key] == table[key])
  {
    hide Load, Lower;
  }

  // -- Confirming --

  /** Someone among the senders is the address, in any case. */
  predicate Among(senders: seq<Address>, address: string) {
    exists i | 0 <= i < |senders| :: Lower(senders[i].Text()) == address
  }

  lemma AmongIs(senders: seq<Address>, address: string)
    ensures address in SenderSet(senders) <==> Among(senders, address)
  {
    hide Lower;
    if i :| 0 <= i < |senders| && Lower(senders[i].Text()) == address {
      assert senders[i] in senders;
    }
    if address in SenderSet(senders) {
      var s :| s in senders && Lower(s.Text()) == address;
      var i :| 0 <= i < |senders| && senders[i] == s;
    }
  }

  /** A confirmation is answered by what row it found and whether the senders include its address. */
  lemma ConfirmExact(senders: seq<Address>, found: Option<string>)
    ensures found == None ==> ConfirmReply(senders, found) == Response(59, "Invalid or expired token")
    ensures found.Some? && Among(senders, Lower(found.value)) ==>
              ConfirmReply(senders, found) == Response(20, "Subscription confirmed")
    ensures found.Some? && !Among(senders, Lower(found.value)) ==>
              ConfirmReply(senders, found) == Response(59, "Token does not match sender")
  {
    hide Lower, SenderSet;
    if found.Some? { AmongIs(senders, Lower(found.value)); }
  }

  /** The token of the row is pending for nobody else on the list. */
  ghost predicate OnlyHolder(table: Table, list: string, b: string) {
    && (list, b) in table && NoLowerCase(table[(list, b)].token)
    && forall a | (list, a) in table && table[(list, a)].token == table[(list, b)].token :: a == b
  }

  /**
   The token that one address has for a list, typed in any case, is found exactly within its time to
   live, and is then used up; it subscribes the address exactly when that is among the senders.
   */
  lemma PendingConfirms(l: Lists, list: string, b: string, senders: seq<Address>, typed: string,
                        found: Option<string>, now: DateTime, cutoff: DateTime, ttl: nat)
    requires Tidy(l) && OnlyHolder(l.pending, list, b)
    requires Lower(typed) == Lower(l.pending[(list, b)].token)
    requires IsCutoff(cutoff, now, ttl) && Valid(l.pending[(list, b)].created)
    requires Enabled(l, Confirm(list, senders, typed, found, now, cutoff))
    ensures var intime := Instant(now) - Instant(l.pending[(list, b)].created) <= ttl * 1000000;
            var after := Step(l, Confirm(list, senders, typed, found, now, cutoff));
            && found == (if intime then Some(b) else None)
            && (ConfirmReply(senders, found).status == 20 <==> intime && Among(senders, b))
            && ((list, b) in after.pending <==> !intime)
            && Load(TextOf(after, list))
               == Load(TextOf(l, list))
                  + (if intime && Among(senders, b) && Normal(b) !in Load(TextOf(l, list)) then Names(b) else [])
  {
    hide Load, Lower, Upper, Names, Normal, Added, Instant, IsoFormat, Valid, Terminated, SenderSet, Among;
    var row := l.pending[(list, b)];
    UpperExact(typed, row.token);
    UnexpiredExact(row.created, cutoff, now, ttl);
    assert Matches(l.pending, list, typed, cutoff, b) <==> Live(row, cutoff);
    assert Lower(b) == b;
    AmongIs(senders, b);
    EmptyTerminated();
    var text := TextOf(l, list);
    assert Load(text) + [] == Load(text);
    AddTerminated(text, b);
  }

  /** A well-formed address is then a subscriber. */
  lemma ConfirmedIsSubscribed(text: string, b: string)
    requires Terminated(text) && ValidAddress(Normal(b))
    ensures Normal(b) in Load(Added(text, b))
  {
    hide Load, Names, Normal, Added, ValidAddress, Terminated;
    AddTerminated(text, b);
    NamesOfValid(b);
  }

  // -- Leaving --

  /** Unsubscribing takes the first sender, and nobody else, off the list. */
  lemma UnsubscribeExact(text: string, senders: seq<Address>)
    ensures forall a :: a in Load(UnsubscribeText(text, senders))
                        <==> a in Load(text) && (senders != [] ==> a != Asker(senders))
    ensures Leaves(text, senders) <==> senders != [] && Asker(senders) in Load(text)
  {
    hide Load, Removed, Normal, Lower;
    if Leaves(text, senders) {
      SubscriberIsNormal(text, senders[0].Text());
      RemoveLoads(text, senders[0].Text());
      forall a ensures a in Load(UnsubscribeText(text, senders)) <==> a in Load(text) && a != Asker(senders) {
        WithoutMembers(Load(text), Asker(senders), a);
      }
    }
  }

  // -- Cleaning up --

  /** A cleanup keeps exactly the pending rows no older than the time to live. */
  lemma CleanupExact(table: Table, cutoff: DateTime, now: DateTime, ttl: nat, key: (string, string))
    requires IsCutoff(cutoff, now, ttl) && forall k | k in table :: Valid(table[k].created)
    ensures key in Unexpired(table, cutoff)
            <==> key in table && Instant(now) - Instant(table[key].created) <= ttl * 1000000
    ensures key in Unexpired(table, cutoff) ==> Unexpired(table, cutoff)[key] == table[key]
  {
    hide Instant, IsoFormat;
    if key in table { UnexpiredExact(table[key].created, cutoff, now, ttl); }
  }
}
