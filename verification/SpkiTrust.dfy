/** The verification cache and the SPKI verifier, split where it awaits the network. */
module SpkiTrust {
  import opened Wrappers
  import opened Calendar

  datatype Row = Row(value: string, verifiedAt: DateTime)

  type Table = map<string, Row>

  /** `verified_at >= cutoff`, compared as stored text. */
  predicate Fresh(row: Row, cutoff: DateTime) {
    !TextLess(IsoFormat(row.verifiedAt), IsoFormat(cutoff))
  }

  function FreshValue(table: Table, key: string, cutoff: DateTime): Option<string> {
    if key in table && Fresh(table[key], cutoff) then Some(table[key].value) else None
  }

  function LastValue(table: Table, key: string): Option<string> {
    if key in table then Some(table[key].value) else None
  }

  function Unexpired(table: Table, cutoff: DateTime): Table {
    map key | key in table && Fresh(table[key], cutoff) :: table[key]
  }

  class SenderVerificationCache {
    var senders: Table
    var spki: Table

    constructor ()
      ensures senders == map[] && spki == map[]
    {
      senders, spki := map[], map[];
    }

    method GetServerSpki(hostname: string, cutoff: DateTime) returns (r: Option<string>)
      ensures r == FreshValue(spki, hostname, cutoff)
    {
      r := FreshValue(spki, hostname, cutoff);
    }

    /** The last known value, however old. */
    method GetLastServerSpki(hostname: string) returns (r: Option<string>)
      ensures r == LastValue(spki, hostname)
    {
      r := LastValue(spki, hostname);
    }

    method AddServerSpki(hostname: string, hash: string, now: DateTime)
      modifies this
      ensures spki == old(spki)[hostname := Row(hash, now)] && senders == old(senders)
    {
      spki := spki[hostname := Row(hash, now)];
    }

    method ClearServerSpki() returns (count: nat)
      modifies this
      ensures count == |old(spki)| && spki == map[] && senders == old(senders)
    {
      count := |spki|;
      spki := map[];
    }

    method Cleanup(cutoff: DateTime) returns (total: nat)
      modifies this
      ensures senders == Unexpired(old(senders), cutoff) && spki == Unexpired(old(spki), cutoff)
      ensures total == |old(senders)| - |senders| + |old(spki)| - |spki|
    {
      hide Unexpired, Expired;
      PurgeCount(senders, cutoff);
      PurgeCount(spki, cutoff);
      total := |Expired(senders, cutoff)| + |Expired(spki, cutoff)|;
      senders, spki := senders - Expired(senders, cutoff), spki - Expired(spki, cutoff);
    }
  }

  function Expired(table: Table, cutoff: DateTime): set<string> {
    set key | key in table && !Fresh(table[key], cutoff)
  }

  lemma PurgeCount(table: Table, cutoff: DateTime)
    ensures table - Expired(table, cutoff) == Unexpired(table, cutoff)
    ensures |Expired(table, cutoff)| == |table| - |Unexpired(table, cutoff)|
  {
    hide Fresh;
    assert table.Keys == Unexpired(table, cutoff).Keys + Expired(table, cutoff);
  }

  /** A purge keeps exactly the rows no older than the time to live. */
  lemma PurgeExact(table: Table, cutoff: DateTime, now: DateTime, ttl: nat, key: string)
    requires IsCutoff(cutoff, now, ttl) && forall h | h in table :: Valid(table[h].verifiedAt)
    ensures key in Unexpired(table, cutoff)
            <==> key in table && Instant(now) - Instant(table[key].verifiedAt) <= ttl * 1000000
    ensures key in Unexpired(table, cutoff) ==> Unexpired(table, cutoff)[key] == table[key]
  {
    hide Instant, IsoFormat;
    if key in table { UnexpiredExact(table[key].verifiedAt, cutoff, now, ttl); }
  }

  /** What connecting to the sender's server yields. */
  datatype Fetched = TimedOut | Errored(text: string) | NoCertificate | Key(hash: string)

  datatype Verdict = Verified(fingerprint: string, cached: bool) | Unverified(reason: string)

  /** The part of `verify_sender` before the network call: a fresh row answers at once. */
  function Check(table: Table, hostname: string, cutoff: DateTime): Option<Verdict> {
    match FreshValue(table, hostname, cutoff)
    case Some(hash) => Some(Verified(hash, true))
    case None => None
  }

  /** The cache answers for a host exactly when its row is no older than the time to live. */
  lemma AnsweredWhileFresh(table: Table, hostname: string, cutoff: DateTime, now: DateTime, ttl: nat)
    requires IsCutoff(cutoff, now, ttl)
    requires forall h | h in table :: Valid(table[h].verifiedAt)
    ensures Check(table, hostname, cutoff)
            == if hostname in table && Instant(now) - Instant(table[hostname].verifiedAt) <= ttl * 1000000
               then Some(Verified(table[hostname].value, true)) else None
  {
    hide Instant, IsoFormat;
    if hostname in table { UnexpiredExact(table[hostname].verifiedAt, cutoff, now, ttl); }
  }

  /** The part after it: compare with the last known key, pin it or keep it, or report a change. */
  function Commit(table: Table, accept: bool, hostname: string, fetched: Fetched, now: DateTime): (Table, Verdict) {
    match fetched
    case TimedOut => (table, Unverified("Connection timed out"))
    case Errored(text) => (table, Unverified("Connection error: " + text))
    case NoCertificate => (table, Unverified("No peer certificate"))
    case Key(hash) =>
      var last := LastValue(table, hostname);
      if last == None || last == Some(hash) || accept then
        (table[hostname := Row(hash, now)], Verified(hash, false))
      else (table, Unverified("Server SPKI changed"))
  }

  /**
   The decision after the network call: verified exactly when a key came and the host has no row, or its
   row holds that key, or changes are accepted; the row of a verified host then holds that key as of
   now, and no other row ever changes.
   */
  lemma CommitExact(table: Table, accept: bool, hostname: string, fetched: Fetched, now: DateTime)
    ensures var (after, v) := Commit(table, accept, hostname, fetched, now);
            && (v.Verified? <==>
                  fetched.Key? && (hostname in table && !accept ==> table[hostname].value == fetched.hash))
            && (v.Verified? ==> v == Verified(fetched.hash, false) && hostname in after
                                && after[hostname] == Row(fetched.hash, now))
            && (!v.Verified? ==> after == table)
            && (!v.Verified? ==> v == Unverified(match fetched
                                                 case TimedOut => "Connection timed out"
                                                 case Errored(text) => "Connection error: " + text
                                                 case NoCertificate => "No peer certificate"
                                                 case Key(_) => "Server SPKI changed"))
            && after - {hostname} == table - {hostname}
  {
  }

  class SPKIVerifier {
    const cache: SenderVerificationCache
    const acceptChange: bool

    constructor (cache: SenderVerificationCache, acceptChange: bool)
      ensures this.cache == cache && this.acceptChange == acceptChange
    {
      this.cache, this.acceptChange := cache, acceptChange;
    }

    method Begin(hostname: string, cutoff: DateTime) returns (r: Option<Verdict>)
      ensures r == Check(cache.spki, hostname, cutoff)
    {
      var hash := cache.GetServerSpki(hostname, cutoff);
      r := if hash.Some? then Some(Verified(hash.value, true)) else None;
    }

    method Finish(hostname: string, fetched: Fetched, now: DateTime) returns (r: Verdict)
      modifies cache
      ensures (cache.spki, r) == Commit(old(cache.spki), acceptChange, hostname, fetched, now)
      ensures cache.senders == old(cache.senders)
    {
      match fetched
      case TimedOut => r := Unverified("Connection timed out");
      case Errored(text) => r := Unverified("Connection error: " + text);
      case NoCertificate => r := Unverified("No peer certificate");
      case Key(hash) =>
        var last := cache.GetLastServerSpki(hostname);
        if last.None? {
          cache.AddServerSpki(hostname, hash, now);
          r := Verified(hash, false);
        } else if last.value == hash {
          cache.AddServerSpki(hostname, hash, now);
          r := Verified(hash, false);
        } else {
          r := HandleSpkiChange(hostname, hash, now);
        }
    }

    method HandleSpkiChange(hostname: string, hash: string, now: DateTime) returns (r: Verdict)
      modifies cache
      ensures cache.senders == old(cache.senders)
      ensures acceptChange ==> r == Verified(hash, false) && cache.spki == old(cache.spki)[hostname := Row(hash, now)]
      ensures !acceptChange ==> r == Unverified("Server SPKI changed") && cache.spki == old(cache.spki)
    {
      if acceptChange {
        cache.AddServerSpki(hostname, hash, now);
        return Verified(hash, false);
      }
      return Unverified("Server SPKI changed");
    }
  }
}

/** Trust on first use over every interleaving of verifications, from whatever table was stored before. */
module SpkiRuns {
  import opened Wrappers
  import opened Calendar
  import opened SpkiTrust

  datatype Event =
    | Begin(task: nat, hostname: string, cutoff: DateTime)
    | Finish(task: nat, fetched: Fetched, now: DateTime)
    | Cleanup(cutoff: DateTime)
    | Clear

  /** The table, the tasks awaiting the network, and every verdict given so far. */
  datatype State = State(table: Table, waiting: map<nat, string>, results: seq<(string, Verdict)>)

  predicate Enabled(s: State, e: Event) {
    match e
    case Begin(task, _, _) => task !in s.waiting
    case Finish(task, _, _) => task in s.waiting
    case _ => true
  }

  function Step(accept: bool, s: State, e: Event): State
    requires Enabled(s, e)
  {
    match e
    case Begin(task, hostname, cutoff) =>
      (match Check(s.table, hostname, cutoff)
       case Some(v) => s.(results := s.results + [(hostname, v)])
       case None => s.(waiting := s.waiting[task := hostname]))
    case Finish(task, fetched, now) =>
      var hostname := s.waiting[task];
      var (table, v) := Commit(s.table, accept, hostname, fetched, now);
      State(table, s.waiting - {task}, s.results + [(hostname, v)])
    case Cleanup(cutoff) => s.(table := Unexpired(s.table, cutoff))
    case Clear => s.(table := map[])
  }

  /** A run of a process that opens the cache with the table `stored`. */
  function Run(accept: bool, stored: Table, events: seq<Event>): Option<State> {
    if events == [] then Some(State(stored, map[], []))
    else
      match Run(accept, stored, events[..|events| - 1])
      case None => None
      case Some(s) =>
        var e := events[|events| - 1];
        if Enabled(s, e) then Some(Step(accept, s, e)) else None
  }

  /** All verified results for a host carry one fingerprint. */
  ghost predicate Consistent(results: seq<(string, Verdict)>) {
    forall i, j | 0 <= i < |results| && 0 <= j < |results| && results[i].0 == results[j].0
                  && results[i].1.Verified? && results[j].1.Verified? ::
      results[i].1.fingerprint == results[j].1.fingerprint
  }

  /** Every verified result carries the key that is pinned for its host. */
  ghost predicate Pinned(s: State) {
    forall i | 0 <= i < |s.results| && s.results[i].1.Verified? ::
      s.results[i].0 in s.table && s.table[s.results[i].0].value == s.results[i].1.fingerprint
  }

  /** The kinds of removal that may occur in a run. */
  predicate Allowed(events: seq<Event>, cleanup: bool, clear: bool) {
    forall i | 0 <= i < |events| :: (events[i].Cleanup? ==> cleanup) && (events[i].Clear? ==> clear)
  }

  predicate Keeping(events: seq<Event>) {
    Allowed(events, false, false)
  }

  lemma RejectStep(s: State, e: Event)
    requires Enabled(s, e) && Pinned(s) && !e.Cleanup? && !e.Clear?
    ensures Pinned(Step(false, s, e))
    ensures forall h | h in s.table ::
              h in Step(false, s, e).table && Step(false, s, e).table[h].value == s.table[h].value
  {
    hide Fresh;
  }

  lemma {:induction false} RejectRun(stored: Table, events: seq<Event>)
    requires Keeping(events) && Run(false, stored, events).Some?
    ensures Pinned(Run(false, stored, events).value)
  {
    hide Step, Enabled;
    if events != [] {
      RejectRun(stored, events[..|events| - 1]);
      RejectStep(Run(false, stored, events[..|events| - 1]).value, events[|events| - 1]);
    }
  }

  /**
   A pin never changes once set: what the stored table, or a prefix of the run, pinned is pinned at the
   end of the run.
   */
  lemma {:induction false} PinsNeverChange(stored: Table, events: seq<Event>, k: nat, h: string)
    requires Keeping(events) && Run(false, stored, events).Some? && k <= |events|
    requires Run(false, stored, events[..k]).Some? && h in Run(false, stored, events[..k]).value.table
    ensures var s := Run(false, stored, events).value;
            h in s.table && s.table[h].value == Run(false, stored, events[..k]).value.table[h].value
  {
    hide Step, Enabled;
    if k == |events| {
      assert events[..k] == events;
    } else {
      var before := events[..|events| - 1];
      assert before[..k] == events[..k];
      PinsNeverChange(stored, before, k, h);
      RejectRun(stored, before);
      RejectStep(Run(false, stored, before).value, events[|events| - 1]);
    }
  }

  /**
   With the reject policy, whatever was stored, and whatever the interleaving and the clocks, all
   verified results for a host carry the same fingerprint, as long as no row is removed.
   */
  lemma TrustOnFirstUse(stored: Table, events: seq<Event>)
    requires Keeping(events) && Run(false, stored, events).Some?
    ensures Consistent(Run(false, stored, events).value.results)
  {
    RejectRun(stored, events);
  }

  /** A host with a stored key is only ever verified with that key, also in a later process. */
  lemma StoredKeyDecides(stored: Table, events: seq<Event>, i: nat)
    requires Keeping(events) && Run(false, stored, events).Some?
    requires var results := Run(false, stored, events).value.results;
             i < |results| && results[i].1.Verified? && results[i].0 in stored
    ensures var results := Run(false, stored, events).value.results;
            results[i].1.fingerprint == stored[results[i].0].value
  {
    var h := Run(false, stored, events).value.results[i].0;
    var none: seq<Event> := [];
    assert events[..0] == none && Run(false, stored, none) == Some(State(stored, map[], []));
    PinsNeverChange(stored, events, 0, h);
    RejectRun(stored, events);
  }

  /** Whenever a connection to the host yields a key, it is this one; so is the one stored before, if any. */
  ghost predicate Presents(accept: bool, stored: Table, events: seq<Event>, h: string, key: string) {
    && (h in stored ==> stored[h].value == key)
    && (forall k | 0 <= k < |events| :: PresentsAt(accept, stored, events, k, h, key))
  }

  predicate Fetches(s: State, e: Event, h: string) {
    e.Finish? && e.task in s.waiting && s.waiting[e.task] == h && e.fetched.Key?
  }

  predicate PresentsAt(accept: bool, stored: Table, events: seq<Event>, k: nat, h: string, key: string)
    requires k < |events|
  {
    var run := Run(accept, stored, events[..k]);
    run.Some? && Fetches(run.value, events[k], h) ==> events[k].fetched.hash == key
  }

  lemma PresentsBefore(accept: bool, stored: Table, events: seq<Event>, n: nat, h: string, key: string)
    requires Presents(accept, stored, events, h, key) && n <= |events|
    ensures Presents(accept, stored, events[..n], h, key)
  {
    hide Run, Fetches;
    forall k | 0 <= k < n ensures PresentsAt(accept, stored, events[..n], k, h, key) {
      assert PresentsAt(accept, stored, events, k, h, key);
      assert events[..n][..k] == events[..k];
    }
  }

  /** The row of such a host, if it has one, always holds its key, also after rows were removed. */
  lemma {:induction false} LoyalRow(accept: bool, stored: Table, events: seq<Event>, h: string, key: string)
    requires Presents(accept, stored, events, h, key) && Run(accept, stored, events).Some?
    ensures var table := Run(accept, stored, events).value.table; h in table ==> table[h].value == key
  {
    hide Fresh;
    if events != [] {
      var n := |events| - 1;
      PresentsBefore(accept, stored, events, n, h, key);
      LoyalRow(accept, stored, events[..n], h, key);
      assert PresentsAt(accept, stored, events, n, h, key);
    }
  }

  lemma {:induction false} RunBefore(accept: bool, stored: Table, events: seq<Event>, k: nat)
    requires Run(accept, stored, events).Some? && k <= |events|
    ensures Run(accept, stored, events[..k]).Some?
  {
    if k == |events| {
      assert events[..k] == events;
    } else {
      var before := events[..|events| - 1];
      assert before[..k] == events[..k];
      RunBefore(accept, stored, before, k);
    }
  }

  /**
   A host that always presents its key is verified whenever a verification of it gets a key, under
   either policy, however old its row is and whatever rows were removed; and its row is then refreshed.
   */
  lemma LoyalHostIsVerified(accept: bool, stored: Table, events: seq<Event>, k: nat, h: string, key: string)
    requires Presents(accept, stored, events, h, key) && Run(accept, stored, events).Some? && k < |events|
    requires Run(accept, stored, events[..k]).Some? && Fetches(Run(accept, stored, events[..k]).value, events[k], h)
    ensures var (before, after) := (Run(accept, stored, events[..k]), Run(accept, stored, events[..k + 1]));
            && after.Some? && after.value.results == before.value.results + [(h, Verified(key, false))]
            && h in after.value.table && after.value.table[h] == Row(key, events[k].now)
  {
    RunBefore(accept, stored, events, k);
    RunBefore(accept, stored, events, k + 1);
    PresentsBefore(accept, stored, events, k, h, key);
    LoyalRow(accept, stored, events[..k], h, key);
    assert PresentsAt(accept, stored, events, k, h, key);
    assert events[..k + 1][..k] == events[..k];
  }

  lemma RunPrefix(accept: bool, stored: Table, events: seq<Event>, e: Event)
    requires Run(accept, stored, events).Some? && Enabled(Run(accept, stored, events).value, e)
    ensures Run(accept, stored, events + [e]) == Some(Step(accept, Run(accept, stored, events).value, e))
  {
    assert (events + [e])[..|events|] == events;
  }

  const EPOCH := DateTime(2000, 1, 1, 0, 0, 0, 0)
  const LATER := DateTime(2001, 1, 1, 0, 0, 0, 0)

  /** Two verifications of a host that overlap, the server answering with different keys. */
  const OVERLAP: seq<Event> := [Begin(0, "h", EPOCH)] + [Begin(1, "h", EPOCH)] + [Finish(0, Key("a"), EPOCH)]

  lemma OverlapRun(accept: bool)
    ensures Run(accept, map[], OVERLAP)
            == Some(State(map["h" := Row("a", EPOCH)], map[1 := "h"], [("h", Verified("a", false))]))
  {
    var none: seq<Event> := [];
    assert Run(accept, map[], none) == Some(State(map[], map[], []));
    RunPrefix(accept, map[], none, Begin(0, "h", EPOCH));
    assert none + [Begin(0, "h", EPOCH)] == [Begin(0, "h", EPOCH)];
    RunPrefix(accept, map[], [Begin(0, "h", EPOCH)], Begin(1, "h", EPOCH));
    RunPrefix(accept, map[], [Begin(0, "h", EPOCH)] + [Begin(1, "h", EPOCH)], Finish(0, Key("a"), EPOCH));
    assert map[0 := "h"][1 := "h"] - {0} == map[1 := "h"];
    assert [] + [("h", Verified("a", false))] == [("h", Verified("a", false))];
  }

  /** What happens between the two answers: nothing, under the accept policy, or the row is removed. */
  predicate Forgets(accept: bool, between: seq<Event>) {
    || (accept && between == [])
    || between == [Clear]
    || between == [Cleanup(LATER)]
  }

  lemma ForgottenRow()
    ensures Unexpired(map["h" := Row("a", EPOCH)], LATER) == map[]
  {
    hide IsoFormat;
    TextOrderIsTimeOrder(EPOCH, LATER);
    InstantOrder(EPOCH, LATER);
  }

  /** Then both keys are verified for the host. */
  lemma TwoKeysVerified(accept: bool, between: seq<Event>)
    requires Forgets(accept, between)
    ensures var run := Run(accept, map[], OVERLAP + between + [Finish(1, Key("b"), EPOCH)]);
            run.Some? && !Consistent(run.value.results)
  {
    hide Unexpired;
    OverlapRun(accept);
    var after := OVERLAP + between;
    if between == [] {
      assert after == OVERLAP;
    } else {
      RunPrefix(accept, map[], OVERLAP, between[0]);
      ForgottenRow();
    }
    RunPrefix(accept, map[], after, Finish(1, Key("b"), EPOCH));
    var results := Run(accept, map[], after + [Finish(1, Key("b"), EPOCH)]).value.results;
    assert results[0] == ("h", Verified("a", false)) && results[1] == ("h", Verified("b", false));
  }

  /**
   All runs, from all stored tables, are consistent exactly under the reject policy and without
   cleanup or clearing.
   */
  lemma TrustExact(accept: bool, cleanup: bool, clear: bool)
    ensures (forall stored, events | Allowed(events, cleanup, clear) && Run(accept, stored, events).Some? ::
               Consistent(Run(accept, stored, events).value.results))
            <==> !accept && !cleanup && !clear
  {
    hide Consistent, Run;
    if accept || cleanup || clear {
      var between := if accept then [] else if cleanup then [Cleanup(LATER)] else [Clear];
      var events := OVERLAP + between + [Finish(1, Key("b"), EPOCH)];
      TwoKeysVerified(accept, between);
      assert Allowed(events, cleanup, clear);
    } else {
      forall stored, events | Allowed(events, cleanup, clear) && Run(accept, stored, events).Some?
        ensures Consistent(Run(accept, stored, events).value.results)
      {
        TrustOnFirstUse(stored, events);
      }
    }
  }
}
