/** The GMAP index of a mailbox and what bringing it in line with the directory means. */
module GmapIndex {
  import opened Wrappers
  import opened Text
  import opened Utf8
  import opened Calendar
  import opened MessageId

  datatype Entry = Entry(tags: set<string>, timestamp: string, filename: string)

  type Index = map<string, Entry>

  type Files = map<string, seq<byte>>

  function Known(idx: Index): set<string> {
    set id | id in idx :: idx[id].filename
  }

  /** `_parse_timestamp_from_msgid`. */
  function TimestampOf(id: string): string
    requires ValidId(id)
  {
    assert forall c | c in id[..8] + id[9..15] :: IsDigit(c) by {
      assert StampId(id[..16]) || StampId(id);
      assert id[..16][..8] == id[..8] && id[..16][9..15] == id[9..15];
    }
    var t := DateTime(NumberAt(id, 0, 4), NumberAt(id, 4, 6), NumberAt(id, 6, 8),
                      NumberAt(id, 9, 11), NumberAt(id, 11, 13), NumberAt(id, 13, 15), 0);
    if Valid(t) then Stamp(t) else ""
  }

  function NumberAt(s: string, lo: nat, hi: nat): nat
    requires lo <= hi <= |s|
  {
    if AllDigits(s[lo..hi]) then Number(s[lo..hi]) else 0
  }

  function NewTags(isList: bool): set<string> {
    if isList then {"Inbox", "Unread", "List"} else {"Inbox", "Unread"}
  }

  /** What the scan does with one file name. */
  function Visit(idx: Index, known: set<string>, isList: bool, name: string): Index {
    if name in known then idx
    else match ParseMessageId(name) {
      case None => idx
      case Some(id) =>
        if id in idx then idx[id := idx[id].(filename := name)]
        else idx[id := Entry(NewTags(isList), StampText(name), name)]
    }
  }

  function StampText(name: string): string {
    match ParseMessageId(name)
    case None => ""
    case Some(id) => if ValidId(id) then TimestampOf(id) else ""
  }

  function VisitAll(idx: Index, known: set<string>, isList: bool, names: seq<string>): Index {
    if names == [] then idx
    else Visit(VisitAll(idx, known, isList, names[..|names| - 1]), known, isList, names[|names| - 1])
  }

  function RemoveStale(idx: Index, files: Files): Index {
    map id | id in idx && idx[id].filename in files :: idx[id]
  }

  /** `sync_filesystem`, for a scan that lists the directory in the order `names`. */
  function Sync(idx: Index, files: Files, isList: bool, names: seq<string>): Index {
    RemoveStale(VisitAll(idx, Known(idx), isList, names), files)
  }

  predicate Unindexed(known: set<string>, name: string) {
    name !in known && ParseMessageId(name).Some?
  }

  /** The value `sync_filesystem` returns: something was indexed, renamed or removed. */
  predicate SyncFlag(idx: Index, files: Files, isList: bool, names: seq<string>) {
    || (exists i | 0 <= i < |names| :: Unindexed(Known(idx), names[i]))
    || (var visited := VisitAll(idx, Known(idx), isList, names);
        exists id | id in visited :: visited[id].filename !in files)
  }

  predicate HasSuffix(name: string) {
    EndsWith(name, ENC_NEW) || EndsWith(name, ENC) || EndsWith(name, NEW) || EndsWith(name, PLAIN)
  }

  /** The four glob results together: every matching file, in any order. */
  ghost predicate Listing(names: seq<string>, files: Files) {
    forall f :: f in names <==> f in files && HasSuffix(f)
  }

  /** Every key is the message ID of the file its entry names. */
  ghost predicate Keyed(idx: Index) {
    forall id | id in idx :: ParseMessageId(idx[id].filename) == Some(id)
  }

  ghost predicate Backed(idx: Index, files: Files) {
    forall id | id in idx :: idx[id].filename in files
  }

  /** The directory holds a file for the message. */
  ghost predicate Present(files: Files, id: string) {
    exists f :: f in files && ParseMessageId(f) == Some(id)
  }

  /** No two files carry the same message ID. */
  ghost predicate Unambiguous(files: Files) {
    forall f, g | f in files && g in files && ParseMessageId(f).Some? && ParseMessageId(f) == ParseMessageId(g) ::
      f == g
  }

  predicate Candidate(known: set<string>, id: string, name: string) {
    name !in known && ParseMessageId(name) == Some(id)
  }

  ghost predicate SomeCandidate(known: set<string>, id: string, names: seq<string>) {
    exists i | 0 <= i < |names| :: Candidate(known, id, names[i])
  }

  lemma CandidateStep(known: set<string>, id: string, names: seq<string>)
    requires names != []
    ensures SomeCandidate(known, id, names)
            <==> SomeCandidate(known, id, names[..|names| - 1]) || Candidate(known, id, names[|names| - 1])
  {
    hide Candidate;
    var before := names[..|names| - 1];
    if SomeCandidate(known, id, before) {
      var i :| 0 <= i < |before| && Candidate(known, id, before[i]);
      assert Candidate(known, id, names[i]);
    }
    if SomeCandidate(known, id, names) {
      var i :| 0 <= i < |names| && Candidate(known, id, names[i]);
      assert i < |before| ==> Candidate(known, id, before[i]);
    }
  }

  /** A visit changes the entry of the message the name belongs to, and no other. */
  lemma VisitOne(idx: Index, known: set<string>, isList: bool, name: string, id: string)
    ensures var visited := Visit(idx, known, isList, name);
            if Candidate(known, id, name) then
              && id in visited && visited[id].filename == name
              && (id in idx ==> visited[id] == idx[id].(filename := name))
              && (id !in idx ==> visited[id] == Entry(NewTags(isList), StampText(name), name))
            else
              (id in visited <==> id in idx) && (id in idx ==> visited[id] == idx[id])
  {
    hide ParseMessageId, StampText, NewTags;
  }

  /** What a scan makes of one message: untouched without a new name, else renamed or created. */
  lemma {:induction false} VisitedEntry(idx: Index, known: set<string>, isList: bool, names: seq<string>, id: string)
    ensures var visited := VisitAll(idx, known, isList, names);
            if SomeCandidate(known, id, names) then
              && id in visited
              && Candidate(known, id, visited[id].filename) && visited[id].filename in names
              && (id in idx ==> visited[id].tags == idx[id].tags && visited[id].timestamp == idx[id].timestamp)
              && (id !in idx ==> visited[id].tags == NewTags(isList))
              && (id !in idx ==> forall f | ParseMessageId(f) == Some(id) :: visited[id].timestamp == StampText(f))
            else
              (id in visited <==> id in idx) && (id in idx ==> visited[id] == idx[id])
  {
    hide ParseMessageId, Visit, NewTags;
    if names != [] {
      var (before, name) := (names[..|names| - 1], names[|names| - 1]);
      VisitedEntry(idx, known, isList, before, id);
      VisitOne(VisitAll(idx, known, isList, before), known, isList, name, id);
      CandidateStep(known, id, names);
    }
  }

  lemma RecognisedIsListed(files: Files, names: seq<string>, f: string)
    requires Listing(names, files) && f in files && ParseMessageId(f).Some?
    ensures f in names
  {
  }

  /** A recognised file not yet known makes its message a candidate. */
  lemma UnknownIsCandidate(idx: Index, files: Files, names: seq<string>, f: string, id: string)
    requires Listing(names, files) && f in files && ParseMessageId(f) == Some(id) && f !in Known(idx)
    ensures SomeCandidate(Known(idx), id, names)
  {
    RecognisedIsListed(files, names, f);
    var i :| 0 <= i < |names| && names[i] == f;
    assert Candidate(Known(idx), id, names[i]);
  }

  lemma CandidateIsPresent(idx: Index, files: Files, names: seq<string>, id: string)
    requires Listing(names, files) && SomeCandidate(Known(idx), id, names)
    ensures Present(files, id)
  {
    var i :| 0 <= i < |names| && Candidate(Known(idx), id, names[i]);
    assert names[i] in names;
  }

  lemma KnownFile(idx: Index, f: string, id: string)
    requires Keyed(idx) && f in Known(idx) && ParseMessageId(f) == Some(id)
    ensures id in idx && idx[id].filename == f
  {
  }

  /** One message after a sync. */
  lemma SyncedEntry(idx: Index, files: Files, isList: bool, names: seq<string>, id: string)
    requires Keyed(idx) && Listing(names, files)
    ensures var synced := Sync(idx, files, isList, names);
            && (id in synced <==> Present(files, id))
            && (id in synced ==>
                  && synced[id].filename in files && ParseMessageId(synced[id].filename) == Some(id)
                  && (id in idx ==> synced[id].tags == idx[id].tags && synced[id].timestamp == idx[id].timestamp)
                  && (id !in idx ==> synced[id].tags == NewTags(isList)
                                     && synced[id].timestamp == StampText(synced[id].filename)))
  {
    hide ParseMessageId, VisitAll, HasSuffix, StampText, NewTags;
    VisitedEntry(idx, Known(idx), isList, names, id);
    if SomeCandidate(Known(idx), id, names) {
      CandidateIsPresent(idx, files, names, id);
    } else if Present(files, id) {
      var f :| f in files && ParseMessageId(f) == Some(id);
      if f !in Known(idx) { UnknownIsCandidate(idx, files, names, f, id); }
      KnownFile(idx, f, id);
    }
  }

  /**
   After any sync: the keys are exactly the message IDs present in the directory, every entry names
   an existing file of its own message, old tags survive and new messages get the initial tags.
   */
  lemma SyncAgreesWithDirectory(idx: Index, files: Files, isList: bool, names: seq<string>)
    requires Keyed(idx) && Listing(names, files)
    ensures var synced := Sync(idx, files, isList, names);
            && (forall id :: id in synced <==> Present(files, id))
            && Backed(synced, files) && Keyed(synced)
            && (forall id | id in idx && id in synced :: synced[id].tags == idx[id].tags)
            && (forall id | id !in idx && id in synced :: synced[id].tags == NewTags(isList))
  {
    hide Sync, Present;
    forall id
      ensures var synced := Sync(idx, files, isList, names);
              && (id in synced <==> Present(files, id))
              && (id in synced ==>
                    && synced[id].filename in files && ParseMessageId(synced[id].filename) == Some(id)
                    && (id in idx ==> synced[id].tags == idx[id].tags)
                    && (id !in idx ==> synced[id].tags == NewTags(isList)))
    {
      SyncedEntry(idx, files, isList, names, id);
    }
  }

  /** The order in which the directory is listed does not matter. */
  lemma SyncIgnoresOrder(idx: Index, files: Files, isList: bool, names: seq<string>, others: seq<string>)
    requires Keyed(idx) && Unambiguous(files) && Listing(names, files) && Listing(others, files)
    ensures Sync(idx, files, isList, names) == Sync(idx, files, isList, others)
  {
    hide Sync, ParseMessageId, Present, Keyed, NewTags, StampText;
    var (a, b) := (Sync(idx, files, isList, names), Sync(idx, files, isList, others));
    forall id ensures (id in a <==> id in b) && (id in a ==> a[id] == b[id]) {
      SyncedEntry(idx, files, isList, names, id);
      SyncedEntry(idx, files, isList, others, id);
    }
  }

  /** A listing of the files in `rest`, in some order. */
  lemma {:induction false} SomeListing(rest: set<string>) returns (names: seq<string>)
    ensures forall f :: f in names <==> f in rest && HasSuffix(f)
  {
    hide HasSuffix;
    names := [];
    if rest != {} {
      var f :| f in rest;
      names := SomeListing(rest - {f});
      if HasSuffix(f) { names := names + [f]; }
    }
  }

  /** A scan of a directory that was never indexed takes the last file listed for a message. */
  lemma LastListedWins(names: seq<string>, isList: bool, f: string, id: string)
    requires ParseMessageId(f) == Some(id)
    ensures var visited := VisitAll(map[], {}, isList, names + [f]); id in visited && visited[id].filename == f
  {
    hide ParseMessageId, StampText;
    assert (names + [f])[..|names|] == names;
    VisitOne(VisitAll(map[], {}, isList, names), {}, isList, f, id);
  }

  lemma LastListedStays(files: Files, names: seq<string>, isList: bool, f: string, id: string)
    requires f in files && ParseMessageId(f) == Some(id)
    ensures var synced := Sync(map[], files, isList, names + [f]); id in synced && synced[id].filename == f
  {
    hide ParseMessageId, VisitAll;
    LastListedWins(names, isList, f, id);
    assert Known(map[]) == {};
  }

  /** Two files of one message, listed in the two orders, lead to two indexes. */
  lemma OrderMatters(files: Files, isList: bool, f: string, g: string) returns (names: seq<string>, others: seq<string>)
    requires f in files && g in files && f != g
    requires ParseMessageId(f).Some? && ParseMessageId(f) == ParseMessageId(g)
    ensures Listing(names, files) && Listing(others, files)
    ensures Sync(map[], files, isList, names) != Sync(map[], files, isList, others)
  {
    hide Sync, HasSuffix;
    var rest := SomeListing(files.Keys - {f, g});
    names, others := rest + [g] + [f], rest + [f] + [g];
    assert HasSuffix(f) && HasSuffix(g) by { IdHasSuffix(f); IdHasSuffix(g); }
    var id := ParseMessageId(f).value;
    LastListedStays(files, rest + [g], isList, f, id);
    LastListedStays(files, rest + [f], isList, g, id);
  }

  lemma IdHasSuffix(f: string)
    requires ParseMessageId(f).Some?
    ensures HasSuffix(f)
  {
  }

  /** The order of the listing matters to no index exactly when no two files share a message ID. */
  lemma OrderExact(files: Files, isList: bool)
    ensures (forall idx, names, others | Keyed(idx) && Listing(names, files) && Listing(others, files) ::
               Sync(idx, files, isList, names) == Sync(idx, files, isList, others))
            <==> Unambiguous(files)
  {
    hide Sync, ParseMessageId, HasSuffix, Listing;
    if Unambiguous(files) {
      forall idx, names, others | Keyed(idx) && Listing(names, files) && Listing(others, files)
        ensures Sync(idx, files, isList, names) == Sync(idx, files, isList, others)
      {
        SyncIgnoresOrder(idx, files, isList, names, others);
      }
    } else {
      var f, g :| f in files && g in files && ParseMessageId(f).Some?
                  && ParseMessageId(f) == ParseMessageId(g) && f != g;
      var names, others := OrderMatters(files, isList, f, g);
      assert Keyed(map[]);
    }
  }

  const SOME_ID := "20000101T000000Z"

  /** A message and its unread copy share their ID. */
  lemma UnreadCopy(read: seq<byte>, unread: seq<byte>)
    ensures !Unambiguous(map[SOME_ID + PLAIN := read, SOME_ID + NEW := unread])
  {
    hide ParseMessageId, ValidId;
    var (f, g) := (SOME_ID + PLAIN, SOME_ID + NEW);
    assert ValidId(SOME_ID) by { SomeIdIsValid(); }
    NamedById(SOME_ID, PLAIN);
    NamedById(SOME_ID, NEW);
    assert |f| != |g|;
  }

  lemma SomeIdIsValid()
    ensures ValidId(SOME_ID)
  {
    var id := SOME_ID;
    assert forall i | 0 <= i < 16 :: i == 8 || i == 15 || IsDigit(id[i]);
  }

  lemma VisitedIsBacked(idx: Index, files: Files, isList: bool, names: seq<string>, id: string)
    requires Backed(idx, files) && Listing(names, files)
    requires id in VisitAll(idx, Known(idx), isList, names)
    ensures VisitAll(idx, Known(idx), isList, names)[id].filename in files
  {
    hide VisitAll, ParseMessageId, HasSuffix;
    VisitedEntry(idx, Known(idx), isList, names, id);
  }

  /** On an index that is already in line with the directory, the flag reports unindexed files. */
  lemma FlagWhenBacked(idx: Index, files: Files, isList: bool, names: seq<string>)
    requires Backed(idx, files) && Listing(names, files)
    ensures SyncFlag(idx, files, isList, names)
            <==> exists f :: f in files && Unindexed(Known(idx), f)
  {
    hide VisitAll, ParseMessageId, HasSuffix, Known;
    forall id | id in VisitAll(idx, Known(idx), isList, names)
      ensures VisitAll(idx, Known(idx), isList, names)[id].filename in files
    {
      VisitedIsBacked(idx, files, isList, names, id);
    }
    if exists f :: f in files && Unindexed(Known(idx), f) {
      var f :| f in files && Unindexed(Known(idx), f);
      RecognisedIsListed(files, names, f);
      var i :| 0 <= i < |names| && names[i] == f;
    }
    forall i | 0 <= i < |names| && Unindexed(Known(idx), names[i]) ensures names[i] in files {
      assert names[i] in names;
    }
  }

  /**
   A second sync of an unchanged directory returns false exactly when no two files share a message
   ID; with two such files the index goes from one to the other.
   */
  lemma SecondSyncExact(idx: Index, files: Files, isList: bool, names: seq<string>, again: seq<string>)
    requires Keyed(idx) && Listing(names, files) && Listing(again, files)
    ensures !SyncFlag(Sync(idx, files, isList, names), files, isList, again) <==> Unambiguous(files)
  {
    hide Sync, SyncFlag, ParseMessageId, HasSuffix;
    var synced := Sync(idx, files, isList, names);
    SyncAgreesWithDirectory(idx, files, isList, names);
    FlagWhenBacked(synced, files, isList, again);
    if Unambiguous(files) {
      forall f | f in files ensures !Unindexed(Known(synced), f) {
        if ParseMessageId(f).Some? { IndexedWhenUnambiguous(synced, files, f); }
      }
    } else {
      var f, g :| f in files && g in files && ParseMessageId(f).Some?
                  && ParseMessageId(f) == ParseMessageId(g) && f != g;
      var id := ParseMessageId(f).value;
      if f in Known(synced) && g in Known(synced) {
        KnownFile(synced, f, id);
        KnownFile(synced, g, id);
      }
    }
  }

  lemma IndexedWhenUnambiguous(synced: Index, files: Files, f: string)
    requires Keyed(synced) && Backed(synced, files) && Unambiguous(files)
    requires f in files && ParseMessageId(f).Some?
    requires ParseMessageId(f).value in synced
    ensures f in Known(synced)
  {
  }

  /** The returned flag is true exactly when the sync changed the index. */
  lemma FlagExact(idx: Index, files: Files, isList: bool, names: seq<string>)
    requires Keyed(idx) && Listing(names, files)
    ensures SyncFlag(idx, files, isList, names) <==> Sync(idx, files, isList, names) != idx
  {
    hide ParseMessageId, HasSuffix, VisitAll;
    var visited := VisitAll(idx, Known(idx), isList, names);
    var synced := Sync(idx, files, isList, names);
    if i :| 0 <= i < |names| && Unindexed(Known(idx), names[i]) {
      var id := ParseMessageId(names[i]).value;
      assert Candidate(Known(idx), id, names[i]);
      VisitedEntry(idx, Known(idx), isList, names, id);
      assert visited[id].filename in names;
      assert id in synced && synced[id].filename !in Known(idx);
    } else {
      UnvisitedIsUnchanged(idx, isList, names);
    }
  }

  lemma UnvisitedIsUnchanged(idx: Index, isList: bool, names: seq<string>)
    requires forall i | 0 <= i < |names| :: !Unindexed(Known(idx), names[i])
    ensures VisitAll(idx, Known(idx), isList, names) == idx
  {
    hide ParseMessageId, VisitAll;
    var visited := VisitAll(idx, Known(idx), isList, names);
    forall id ensures (id in visited <==> id in idx) && (id in idx ==> visited[id] == idx[id]) {
      VisitedEntry(idx, Known(idx), isList, names, id);
      assert !SomeCandidate(Known(idx), id, names);
    }
  }
}
