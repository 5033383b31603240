/** What the replies of GMAP say about the directory and the tags. */
module GmapReplies {
  import opened Wrappers
  import opened Text
  import opened Utf8
  import opened Calendar
  import opened MessageId
  import opened GmapIndex
  import opened GmapMailbox
  import opened GmapHandler
  import opened GmapRuns
  import Delivery

  /** The tags a message has for the next request: those saved, or the first ones. */
  function TagsOf(box: Box, id: string): set<string> {
    if id in LoadIndex(box.index) then LoadIndex(box.index)[id].tags
    else if box.isList then {"Inbox", "Unread", "List"} else {"Inbox", "Unread"}
  }

  /** What a request works on: the messages of the directory, with their tags. */
  lemma SyncedTags(box: Box, names: seq<string>)
    requires Keyed(LoadIndex(box.index)) && Listing(names, box.files)
    ensures Keyed(Synced(box, names)) && Backed(Synced(box, names), box.files)
    ensures forall id :: id in Synced(box, names) <==> Present(box.files, id)
    ensures forall id | id in Synced(box, names) :: Synced(box, names)[id].tags == TagsOf(box, id)
  {
    hide Sync, Keyed, Present, Listing;
    SyncAgreesWithDirectory(LoadIndex(box.index), box.files, box.isList, names);
  }

  // -- Listings --

  /** Trash is listed by its name only. */
  predicate Shown(tags: set<string>, tag: string) {
    tag in tags && (tag == "Trash" || "Trash" !in tags)
  }

  /** All messages are those in the directory that are not in Trash. */
  lemma ListAllExact(box: Box, names: seq<string>)
    requires Keyed(LoadIndex(box.index)) && Listing(names, box.files)
    ensures var reply := Serve(box, ListAll, names).2;
            && reply.Listed?
            && forall id :: id in reply.ids <==> Present(box.files, id) && "Trash" !in TagsOf(box, id)
  {
    hide Sync, SyncFlag, Keyed, Present, Listing, TagsOf;
    SyncedTags(box, names);
  }

  /** The messages under a tag are those in the directory that carry it, without Trash unless that is asked for. */
  lemma ListTagExact(box: Box, names: seq<string>, tag: string)
    requires Keyed(LoadIndex(box.index)) && Listing(names, box.files)
    ensures var reply := Serve(box, ListTag(tag), names).2;
            && reply.Listed?
            && forall id :: id in reply.ids <==> Present(box.files, id) && Shown(TagsOf(box, id), tag)
  {
    hide Sync, SyncFlag, Keyed, Present, Listing, TagsOf;
    SyncedTags(box, names);
  }

  /** Every entry shows the time its ID names. */
  ghost predicate Timed(idx: Index) {
    forall id | id in idx :: ValidId(id) && idx[id].timestamp == TimestampOf(id)
  }

  lemma KeyedIsValid(name: string, id: string)
    requires ParseMessageId(name) == Some(id)
    ensures ValidId(id) && StampText(name) == TimestampOf(id)
  {
    MessageIdExact(name, id);
  }

  lemma SyncTimed(box: Box, names: seq<string>)
    requires Keyed(LoadIndex(box.index)) && Timed(LoadIndex(box.index)) && Listing(names, box.files)
    ensures Timed(Synced(box, names))
  {
    hide Sync, Keyed, ValidId, TimestampOf, ParseMessageId, StampText, Present, Listing;
    var synced := Synced(box, names);
    forall id | id in synced ensures ValidId(id) && synced[id].timestamp == TimestampOf(id) {
      SyncedEntry(LoadIndex(box.index), box.files, box.isList, names, id);
      KeyedIsValid(synced[id].filename, id);
    }
  }

  lemma StepTimed(box: Box, e: Event)
    requires Keyed(LoadIndex(box.index)) && Timed(LoadIndex(box.index)) && Enabled(box, e)
    ensures Timed(LoadIndex(Step(box, e).index))
  {
    hide Sync, SyncFlag, Keyed, ValidId, TimestampOf, FetchReply, IdsTagged, IdsSince, ValidTag;
    match e
    case Request(op, names) =>
      SavedEqualsMemory(box, op, names);
      SyncTimed(box, names);
    case _ =>
  }

  /** In every run each entry shows the time its ID names. */
  lemma {:induction false} RunTimed(isList: bool, events: seq<Event>, k: nat)
    requires IsRun(isList, events) && k <= |events|
    ensures Timed(IndexAt(isList, events, k))
  {
    hide Step, Enabled, Timed, Keyed, IsRun, LoadIndex, Listing, Present;
    if k > 0 {
      RunTimed(isList, events, k - 1);
      RunKeyed(isList, events, k - 1);
      RunStep(isList, events, k - 1);
      StepTimed(StateAt(isList, events, k - 1), events[k - 1]);
    } else {
      NothingTimed(isList, events);
    }
  }

  lemma NothingTimed(isList: bool, events: seq<Event>)
    ensures Timed(IndexAt(isList, events, 0))
  {
  }

  /** The ID names a time before `since`. */
  predicate Before(id: string, since: DateTime) {
    ValidId(id) && ParseStamp(TimestampOf(id)).Some? && Instant(ParseStamp(TimestampOf(id)).value) < Instant(since)
  }

  /** Listing a tag since a time leaves out exactly the messages whose IDs name an earlier time. */
  lemma ListSinceExact(box: Box, names: seq<string>, tag: string, text: string)
    requires Keyed(LoadIndex(box.index)) && Timed(LoadIndex(box.index)) && Listing(names, box.files)
    ensures var reply := Serve(box, ListSince(tag, text), names).2;
            match ParseStamp(text)
            case None => reply == Refused(59)
            case Some(since) =>
              && reply.Listed?
              && forall id :: id in reply.ids
                   <==> Present(box.files, id) && Shown(TagsOf(box, id), tag) && !Before(id, since)
  {
    hide Sync, SyncFlag, Keyed, Present, Listing, TagsOf, ParseStamp, Instant, ValidId, TimestampOf;
    SyncedTags(box, names);
    SyncTimed(box, names);
  }

  /** A delivered message names the second of its delivery. */
  lemma DeliveredBefore(now: DateTime, hash: string, since: DateTime)
    requires Valid(now) && Delivery.HexId(hash)
    ensures Before(Delivery.Stem(now, hash), since) <==> Instant(WholeSecond(now)) < Instant(since)
  {
    hide ValidId, TimestampOf, Instant, ParseStamp, Stamp;
    Delivery.DeliveryTimestamp(now, hash);
    StampRoundTrip(now);
  }

  // -- The time of an ID --

  /** The parts of an ID, and the time made of them. */
  lemma IdParts(id: string)
    requires ValidId(id)
    ensures |id| >= 16 && id[8] == 'T' && id[15] == 'Z'
    ensures AllDigits(id[0..4]) && AllDigits(id[4..6]) && AllDigits(id[6..8])
    ensures AllDigits(id[9..11]) && AllDigits(id[11..13]) && AllDigits(id[13..15])
    ensures id[..16] == id[0..4] + id[4..6] + id[6..8] + "T" + id[9..11] + id[11..13] + id[13..15] + "Z"
  {
    var s := id[..16];
    assert StampId(s) by { if StampId(id) { assert s == id; } }
    assert s[..8] == id[..8] && s[9..15] == id[9..15];
    forall c | c in id[0..4] || c in id[4..6] || c in id[6..8] ensures c in s[..8] {
      PartOf(id, 0, 4, 8, c);
      PartOf(id, 4, 6, 8, c);
      PartOf(id, 6, 8, 8, c);
    }
    forall c | c in id[9..11] || c in id[11..13] || c in id[13..15] ensures c in s[9..15] {
      InMiddle(id, c);
    }
  }

  lemma PartOf(id: string, lo: nat, hi: nat, n: nat, c: char)
    requires lo <= hi <= n <= |id|
    ensures c in id[lo..hi] ==> c in id[..n]
  {
    if c in id[lo..hi] {
      var k :| 0 <= k < hi - lo && id[lo..hi][k] == c;
      assert id[..n][lo + k] == c;
    }
  }

  lemma InMiddle(id: string, c: char)
    requires |id| >= 16 && (c in id[9..11] || c in id[11..13] || c in id[13..15])
    ensures c in id[9..15]
  {
    assert id[9..15] == id[9..11] + id[11..13] + id[13..15];
  }

  function IdTime(id: string): DateTime
    requires |id| >= 16
  {
    DateTime(NumberAt(id, 0, 4), NumberAt(id, 4, 6), NumberAt(id, 6, 8),
             NumberAt(id, 9, 11), NumberAt(id, 11, 13), NumberAt(id, 13, 15), 0)
  }

  /** An ID shows the time whose digits it starts with, and nothing if no existing time has them. */
  lemma IdTimeExact(id: string, t: DateTime)
    requires ValidId(id)
    ensures Valid(t) && t.micro == 0 && id[..16] == Delivery.CompactStamp(t) ==> TimestampOf(id) == Stamp(t)
    ensures (forall u | Valid(u) && u.micro == 0 :: id[..16] != Delivery.CompactStamp(u)) ==> TimestampOf(id) == ""
  {
    hide ValidId, Stamp, Delivery.CompactStamp, Number, Fixed, NumberAt;
    IdParts(id);
    if Valid(t) && t.micro == 0 && id[..16] == Delivery.CompactStamp(t) { IdTimeOf(id, t); }
    if Valid(IdTime(id)) { IdTimeWritten(id); }
  }

  lemma IdTimeOf(id: string, t: DateTime)
    requires |id| >= 16 && Valid(t) && t.micro == 0 && id[..16] == Delivery.CompactStamp(t)
    ensures IdTime(id) == t
  {
    hide Number, Fixed;
    var s := Delivery.CompactStamp(t);
    assert id[0..4] == s[0..4] == Fixed(t.year, 4) && id[4..6] == s[4..6] == Fixed(t.month, 2);
    assert id[6..8] == s[6..8] == Fixed(t.day, 2) && id[9..11] == s[9..11] == Fixed(t.hour, 2);
    assert id[11..13] == s[11..13] == Fixed(t.minute, 2) && id[13..15] == s[13..15] == Fixed(t.second, 2);
    assert Pow10(2) == 100 && Pow10(4) == 10000 by { assert Pow10(1) == 10 && Pow10(3) == 1000; }
    NumberOfFixed(t.year, 4);
    NumberOfFixed(t.month, 2);
    NumberOfFixed(t.day, 2);
    NumberOfFixed(t.hour, 2);
    NumberOfFixed(t.minute, 2);
    NumberOfFixed(t.second, 2);
  }

  lemma IdTimeWritten(id: string)
    requires ValidId(id)
    ensures |id| >= 16 && id[..16] == Delivery.CompactStamp(IdTime(id))
  {
    hide ValidId, Number, Fixed;
    IdParts(id);
    FixedOfNumber(id[0..4]);
    FixedOfNumber(id[4..6]);
    FixedOfNumber(id[6..8]);
    FixedOfNumber(id[9..11]);
    FixedOfNumber(id[11..13]);
    FixedOfNumber(id[13..15]);
  }

  // -- Contents --

  /** Whether a recognised file is an encrypted one. */
  predicate Encrypted(name: string) {
    EndsWith(name, ".gemmail.enc") || EndsWith(name, ".gemmail.enc.new")
  }

  lemma DotsOfId(id: string)
    requires ValidId(id)
    ensures '.' !in id
  {
    StampHasNoDot(id[..16]);
    forall i | 0 <= i < |id| ensures id[i] != '.' {
      if i < 16 {
        assert id[i] == id[..16][i] && id[..16][i] in id[..16];
      } else if i > 16 {
        assert id[17..][i - 17] == id[i] && id[17..][i - 17] in id[17..];
      }
    }
  }

  lemma StampHasNoDot(s: string)
    requires |s| == 16 && (StampId(s) || StampId(s[..16]))
    ensures '.' !in s
  {
    assert s[..16] == s;
    forall i | 0 <= i < 16 ensures s[i] != '.' {
      if i < 8 {
        assert s[..8][i] == s[i] && s[..8][i] in s[..8];
      } else if 9 <= i < 15 {
        assert s[9..15][i - 9] == s[i] && s[9..15][i - 9] in s[9..15];
      }
    }
  }

  lemma DotThenE(name: string) returns (i: nat)
    requires Contains(name, ".enc")
    ensures i + 1 < |name| && name[i] == '.' && name[i + 1] == 'e'
  {
    i :| 0 <= i <= |name| && ".enc" <= name[i..];
    var t := name[i..];
    assert t[0] == ".enc"[0] && t[1] == ".enc"[1];
    assert t[0] == name[i] && t[1] == name[i + 1];
  }

  lemma EncBehind(a: string, b: string, c: string)
    requires b == ".enc"
    ensures Contains(a + b + c, ".enc")
  {
    var s := a + b + c;
    assert s[|a|..] == b + c && b <= b + c;
  }

  /** Behind an ID, only the two suffixes of encrypted files hold `.enc`. */
  lemma EncInSuffix(id: string, s: string)
    requires '.' !in id && Suffix(s)
    ensures Contains(id + s, ".enc") <==> s == ".gemmail.enc" || s == ".gemmail.enc.new"
  {
    hide Contains;
    var (name, n) := (id + s, |id|);
    if s == ".gemmail.enc" {
      assert name == (id + ".gemmail") + ".enc" + "";
      EncBehind(id + ".gemmail", ".enc", "");
    } else if s == ".gemmail.enc.new" {
      assert name == (id + ".gemmail") + ".enc" + ".new";
      EncBehind(id + ".gemmail", ".enc", ".new");
    } else {
      NoDotThenE(id, s);
      if Contains(name, ".enc") { var i := DotThenE(name); }
    }
  }

  lemma NoDotThenE(id: string, s: string)
    requires '.' !in id && (s == ".gemmail" || s == ".gemmail.new")
    ensures forall i | 0 <= i && i + 1 < |id + s| :: !((id + s)[i] == '.' && (id + s)[i + 1] == 'e')
  {
    var (name, n) := (id + s, |id|);
    forall i | 0 <= i && i + 1 < |name| ensures !(name[i] == '.' && name[i + 1] == 'e') {
      if i < n {
        assert name[i] == id[i] && id[i] in id;
      } else {
        assert name[i] == s[i - n] && name[i + 1] == s[i - n + 1];
      }
    }
  }

  lemma EncryptedExact(name: string, id: string)
    requires ParseMessageId(name) == Some(id)
    ensures Contains(name, ".enc") <==> Encrypted(name)
  {
    hide ValidId, ParseMessageId, Contains;
    MessageIdExact(name, id);
    DotsOfId(id);
    var s :| Suffix(s) && name == id + s;
    EncInSuffix(id, s);
    assert EndsWith(name, s) by { assert name[|id|..] == s; }
    if EndsWith(name, ENC) { SuffixUnique(name, s, ENC); }
    if EndsWith(name, ENC_NEW) { SuffixUnique(name, s, ENC_NEW); }
  }

  /** The directory holds one file of the message. */
  ghost predicate OnlyFile(files: Files, id: string, name: string) {
    && name in files && ParseMessageId(name) == Some(id)
    && forall f | f in files && ParseMessageId(f) == Some(id) :: f == name
  }

  /** Fetching a message gives the content of its file, or says that it is encrypted or not there. */
  lemma FetchExact(box: Box, names: seq<string>, id: string, name: string)
    requires Keyed(LoadIndex(box.index)) && Listing(names, box.files)
    ensures !Present(box.files, id) ==> Serve(box, Fetch(id), names).2 == Refused(51)
    ensures OnlyFile(box.files, id, name) ==>
              Serve(box, Fetch(id), names).2 == if Encrypted(name) then Refused(40) else Content(box.files[name])
  {
    hide Sync, SyncFlag, Listing, TagsOf, ParseMessageId, Encrypted, Contains;
    SyncedTags(box, names);
    if OnlyFile(box.files, id, name) {
      EncryptedExact(name, id);
      assert Present(box.files, id);
      assert Synced(box, names)[id].filename == name;
    }
  }

  // -- Changing tags --

  predicate TagText(tag: string) {
    var body := if tag != "" && tag[|tag| - 1] == '\n' then tag[..|tag| - 1] else tag;
    && body != ""
    && forall c | c in body ::
         '0' <= c <= '9' || 'a' <= c <= 'z' || 'A' <= c <= 'Z' || c == '_' || c == ':' || c == '-'
  }

  /** The tags of a message after a request. */
  function TagsThen(op: Operation, id: string, tags: set<string>): set<string> {
    match op
    case AddTag(tag, to) => if to == id && TagText(tag) then tags + {tag} else tags
    case RemoveTag(tag, from) => if from == id then tags - {tag} else tags
    case _ => tags
  }

  /** A request changes the tags of the messages that remain in this way and no other. */
  lemma TagsAfter(box: Box, op: Operation, names: seq<string>, id: string)
    requires Keyed(LoadIndex(box.index)) && Listing(names, box.files)
    ensures var after := Serve(box, op, names).0;
            Present(after.files, id) && (op.Delete? ==> op.id != id || Serve(box, op, names).2 != Done) ==>
              Present(box.files, id) && TagsOf(after, id) == TagsThen(op, id, TagsOf(box, id))
  {
    hide Sync, SyncFlag, Keyed, Listing, FetchReply, IdsTagged, IdsSince, ParseMessageId;
    SyncedTags(box, names);
    SavedEqualsMemory(box, op, names);
    var (after, memory, reply) := Serve(box, op, names);
    if Present(after.files, id) {
      PresentBefore(box, after, id);
      assert id in Synced(box, names);
    }
  }

  lemma PresentBefore(box: Box, after: Box, id: string)
    requires Present(after.files, id) && forall f | f in after.files :: f in box.files
    ensures Present(box.files, id)
  {
  }

  /** When a change of tags, or a deletion, is carried out, and how it is refused otherwise. */
  lemma ChangesExact(box: Box, op: Operation, names: seq<string>)
    requires Keyed(LoadIndex(box.index)) && Listing(names, box.files)
    ensures var (after, _, reply) := Serve(box, op, names);
            match op
            case AddTag(tag, id) =>
              reply == if !TagText(tag) then Refused(59) else if !Present(box.files, id) then Refused(51) else Done
            case RemoveTag(_, id) => reply == if Present(box.files, id) then Done else Refused(51)
            case Delete(id) =>
              && (reply == Done <==> Present(box.files, id) && "Trash" in TagsOf(box, id))
              && (reply != Done ==> reply == Refused(51) && after.files == box.files)
              && (forall name | OnlyFile(box.files, id, name) && reply == Done :: after.files == box.files - {name})
            case Malformed => reply == Refused(59)
            case NoRoute => reply == Refused(51)
            case _ => after.files == box.files
  {
    hide Sync, SyncFlag, Keyed, Listing, FetchReply, IdsTagged, IdsSince, ParseMessageId, TagsOf, Present;
    SyncedTags(box, names);
    match op
    case Delete(id) =>
      if id in Synced(box, names) { KeyedEntry(Synced(box, names), box.files, id); }
    case _ =>
  }

  lemma KeyedEntry(idx: Index, files: Files, id: string)
    requires Keyed(idx) && Backed(idx, files) && id in idx
    ensures forall name | OnlyFile(files, id, name) :: idx[id].filename == name
  {
  }

  predicate Reads(op: Operation) {
    op.Fetch? || op.ListAll? || op.ListTag? || op.ListSince?
  }

  /** A request that only reads an index in line with the directory writes nothing. */
  lemma ReadingWritesNothing(box: Box, op: Operation, names: seq<string>)
    requires Keyed(LoadIndex(box.index)) && Listing(names, box.files) && Reads(op)
    ensures Serve(box, op, names).0.files == box.files
    ensures Synced(box, names) == LoadIndex(box.index) ==> Serve(box, op, names).0 == box
    ensures Synced(box, names) != LoadIndex(box.index) ==> Serve(box, op, names).0.index == Saved(Synced(box, names))
  {
    hide Sync, SyncFlag, Keyed, Listing, FetchReply, IdsTagged, IdsSince;
    FlagExact(LoadIndex(box.index), box.files, box.isList, names);
  }

  /** After a tag was added, listing it shows the message, unless that is in Trash. */
  lemma TaggedIsListed(box: Box, tag: string, id: string, names: seq<string>, again: seq<string>)
    requires Keyed(LoadIndex(box.index)) && Listing(names, box.files) && Listing(again, box.files)
    requires Serve(box, AddTag(tag, id), names).2 == Done
    ensures var (after, _, _) := Serve(box, AddTag(tag, id), names);
            var reply := Serve(after, ListTag(tag), again).2;
            && reply.Listed?
            && (id in reply.ids <==> tag == "Trash" || "Trash" !in TagsOf(box, id))
  {
    hide Sync, SyncFlag, Keyed, Listing, Present, TagsOf, Serve;
    Changed(box, AddTag(tag, id), names, again);
    ChangesExact(box, AddTag(tag, id), names);
    TagsAfter(box, AddTag(tag, id), names, id);
    ListTagExact(Serve(box, AddTag(tag, id), names).0, again, tag);
  }

  /** After a tag was removed, listing it does not show the message. */
  lemma UntaggedIsNotListed(box: Box, tag: string, id: string, names: seq<string>, again: seq<string>)
    requires Keyed(LoadIndex(box.index)) && Listing(names, box.files) && Listing(again, box.files)
    requires Serve(box, RemoveTag(tag, id), names).2 == Done
    ensures var (after, _, _) := Serve(box, RemoveTag(tag, id), names);
            var reply := Serve(after, ListTag(tag), again).2;
            reply.Listed? && id !in reply.ids
  {
    hide Sync, SyncFlag, Keyed, Listing, Present, TagsOf, Serve;
    Changed(box, RemoveTag(tag, id), names, again);
    ChangesExact(box, RemoveTag(tag, id), names);
    TagsAfter(box, RemoveTag(tag, id), names, id);
    ListTagExact(Serve(box, RemoveTag(tag, id), names).0, again, tag);
  }

  lemma Changed(box: Box, op: Operation, names: seq<string>, again: seq<string>)
    requires Keyed(LoadIndex(box.index)) && Listing(names, box.files) && Listing(again, box.files) && !op.Delete?
    ensures var after := Serve(box, op, names).0;
            after.files == box.files && Keyed(LoadIndex(after.index)) && Listing(again, after.files)
  {
    hide Sync, SyncFlag, Keyed, Listing, FetchReply, IdsTagged, IdsSince, ValidTag;
    StepKeyed(box, Request(op, names));
  }

  // -- From delivery to reply --

  /** The mailbox directory as GMAP sees it. */
  function Seen(box: Delivery.Mailbox, index: IndexFile): Box {
    Box(box.files, index, box.subscribers.Some?)
  }

  /** A stored delivery is one more file, with the delivered bytes unless they are encrypted. */
  lemma StoredFile(boxes: Delivery.Mailboxes, d: Delivery.Disposition, encrypt: seq<byte> -> seq<byte>, now: DateTime,
                   hash: string)
    requires d.Deliver? && d.stored && d.mailbox in boxes
    ensures var after := Delivery.AfterDelivery(boxes, d, encrypt, now, hash);
            var (box, was) := (after[d.mailbox], boxes[d.mailbox]);
            var name := Delivery.StoredName(now, hash, was.encrypted);
            && after.Keys == boxes.Keys && (forall m | m in boxes && m != d.mailbox :: after[m] == boxes[m])
            && box == was.(files := was.files[name := if was.encrypted then encrypt(d.data) else d.data])
  {
    hide Delivery.StoredName;
  }

  /**
   After a delivery of a message whose ID is new to the mailbox, and after any renaming of its file, the
   next request that fetches it gets exactly the bytes delivered, unless they were encrypted.
   */
  lemma DeliveredIsFetched(boxes: Delivery.Mailboxes, d: Delivery.Disposition, encrypt: seq<byte> -> seq<byte>,
                           now: DateTime, hash: string, index: IndexFile, names: seq<string>)
    requires d.Deliver? && d.stored && d.mailbox in boxes && Delivery.HexId(hash)
    requires !Present(boxes[d.mailbox].files, Delivery.Stem(now, hash))
    requires var box := Delivery.AfterDelivery(boxes, d, encrypt, now, hash)[d.mailbox];
             Keyed(LoadIndex(index)) && Listing(names, box.files)
    ensures var box := Delivery.AfterDelivery(boxes, d, encrypt, now, hash)[d.mailbox];
            Serve(Seen(box, index), Fetch(Delivery.Stem(now, hash)), names).2
            == if boxes[d.mailbox].encrypted then Refused(40) else Content(d.data)
  {
    hide Delivery.StoredName, Delivery.Stem, Delivery.HexId, Delivery.AfterDelivery;
    hide Serve, Keyed, Listing, ParseMessageId;
    StoredFile(boxes, d, encrypt, now, hash);
    var was := boxes[d.mailbox];
    var box := Delivery.AfterDelivery(boxes, d, encrypt, now, hash)[d.mailbox];
    var (name, id) := (Delivery.StoredName(now, hash, was.encrypted), Delivery.Stem(now, hash));
    Delivery.StoredFilesAreRecognised(now, hash, was.encrypted);
    StoredEncrypted(now, hash, was.encrypted);
    assert OnlyFile(box.files, id, name);
    FetchExact(Seen(box, index), names, id, name);
  }

  lemma StoredEncrypted(now: DateTime, hash: string, encrypted: bool)
    requires Delivery.HexId(hash)
    ensures Encrypted(Delivery.StoredName(now, hash, encrypted)) <==> encrypted
  {
    hide Delivery.Stem;
    var name := Delivery.StoredName(now, hash, encrypted);
    var s := if encrypted then ENC_NEW else NEW;
    assert name == Delivery.Stem(now, hash) + s;
    assert EndsWith(name, s) by { assert name[|name| - |s|..] == s; }
    if EndsWith(name, ENC) { SuffixUnique(name, s, ENC); }
    if EndsWith(name, ENC_NEW) { SuffixUnique(name, s, ENC_NEW); }
  }

  /**
   Such a message is listed under Inbox since a time exactly when the second of its delivery is not
   before that time: in every run, for the request that first sees it.
   */
  lemma DeliveredIsListed(isList: bool, events: seq<Event>, k: nat, now: DateTime, hash: string, name: string,
                          names: seq<string>, text: string, since: DateTime)
    requires IsRun(isList, events) && k <= |events| && Listing(names, StateAt(isList, events, k).files)
    requires Valid(now) && Delivery.HexId(hash) && ParseStamp(text) == Some(since)
    requires name in StateAt(isList, events, k).files && ParseMessageId(name) == Some(Delivery.Stem(now, hash))
    requires Delivery.Stem(now, hash) !in IndexAt(isList, events, k)
    ensures var reply := Serve(StateAt(isList, events, k), ListSince("Inbox", text), names).2;
            && reply.Listed?
            && (Delivery.Stem(now, hash) in reply.ids <==> Instant(WholeSecond(now)) >= Instant(since))
  {
    hide Serve, Keyed, Listing, ParseMessageId, Before, IsRun, Timed, ParseStamp, Instant, StateAt, Delivery.Stem;
    RunKeyed(isList, events, k);
    RunTimed(isList, events, k);
    DeliveredBefore(now, hash, since);
    ListSinceExact(StateAt(isList, events, k), names, "Inbox", text);
    assert Present(StateAt(isList, events, k).files, Delivery.Stem(now, hash));
  }
}
