/** Whole runs of a mailbox: deliveries, read marks and removals by others, and GMAP requests. */
module GmapRuns {
  import opened Wrappers
  import opened Utf8
  import opened MessageId
  import opened GmapIndex
  import opened GmapMailbox
  import opened GmapHandler

  datatype Event =
    | Deliver(name: string, data: seq<byte>)
    | MarkRead(name: string)   // `X.new` becomes `X`
    | Discard(name: string)
    | Request(op: Operation, names: seq<string>)

  /** A request lists the directory as it is at that moment. */
  ghost predicate Enabled(box: Box, e: Event) {
    match e
    case MarkRead(name) => name in box.files && EndsWith(name, ".new")
    case Request(_, names) => Listing(names, box.files)
    case _ => true
  }

  function Step(box: Box, e: Event): Box {
    match e
    case Deliver(name, data) => box.(files := box.files[name := data])
    case MarkRead(name) =>
      if name in box.files && EndsWith(name, ".new") then
        box.(files := (box.files - {name})[name[..|name| - 4] := box.files[name]])
      else box
    case Discard(name) => box.(files := box.files - {name})
    case Request(op, names) => Serve(box, op, names).0
  }

  /** The state before event `k`, starting from a mailbox that was never indexed. */
  function StateAt(isList: bool, events: seq<Event>, k: nat): Box
    requires k <= |events|
  {
    if k == 0 then Box(map[], Missing, isList) else Step(StateAt(isList, events, k - 1), events[k - 1])
  }

  ghost predicate IsRun(isList: bool, events: seq<Event>) {
    forall k | 0 <= k < |events| :: Enabled(StateAt(isList, events, k), events[k])
  }

  function IndexAt(isList: bool, events: seq<Event>, k: nat): Index
    requires k <= |events|
  {
    LoadIndex(StateAt(isList, events, k).index)
  }

  // -- One request --

  /** What is saved after the sync is what the request works on. */
  lemma SavedAfterSync(box: Box, names: seq<string>)
    requires Keyed(LoadIndex(box.index)) && Listing(names, box.files)
    ensures LoadIndex(AfterSync(box, names).index) == Synced(box, names)
  {
    hide Sync, SyncFlag, Keyed;
    FlagExact(LoadIndex(box.index), box.files, box.isList, names);
  }

  /** After every request the saved index equals the one in memory. */
  lemma SavedEqualsMemory(box: Box, op: Operation, names: seq<string>)
    requires Keyed(LoadIndex(box.index)) && Listing(names, box.files)
    ensures var (after, memory, _) := Serve(box, op, names); LoadIndex(after.index) == memory
  {
    hide AfterSync, Synced, Keyed, Tagged, Untagged, FetchReply, IdsTagged, IdsSince, ValidTag;
    SavedAfterSync(box, names);
  }

  lemma PerformKeyed(box: Box, idx: Index, op: Operation)
    requires Keyed(idx)
    ensures Keyed(Perform(box, idx, op).1)
  {
    hide ParseMessageId, FetchReply, IdsTagged, IdsSince, ValidTag;
  }

  lemma StepKeyed(box: Box, e: Event)
    requires Keyed(LoadIndex(box.index)) && Enabled(box, e)
    ensures Keyed(LoadIndex(Step(box, e).index))
  {
    hide Sync, SyncFlag, Keyed, Perform;
    match e
    case Request(op, names) =>
      SavedEqualsMemory(box, op, names);
      SyncAgreesWithDirectory(LoadIndex(box.index), box.files, box.isList, names);
      PerformKeyed(AfterSync(box, names), Synced(box, names), op);
    case _ =>
  }

  /** In every run, each key of the saved index is the message ID of its file name. */
  lemma {:induction false} RunKeyed(isList: bool, events: seq<Event>, k: nat)
    requires IsRun(isList, events) && k <= |events|
    ensures Keyed(IndexAt(isList, events, k))
  {
    if k > 0 {
      RunKeyed(isList, events, k - 1);
      StepKeyed(StateAt(isList, events, k - 1), events[k - 1]);
    }
  }

  // -- Tags --

  predicate HasTag(idx: Index, id: string, tag: string) {
    id in idx && tag in idx[id].tags
  }

  lemma PerformTags(box: Box, idx: Index, op: Operation, id: string, tag: string)
    ensures var after := Perform(box, idx, op).1;
            && (HasTag(idx, id, tag) && op != RemoveTag(tag, id) && op != Delete(id) ==> HasTag(after, id, tag))
            && (HasTag(after, id, tag) && !HasTag(idx, id, tag) ==> op == AddTag(tag, id))
            && (HasTag(after, id, tag) ==> op != RemoveTag(tag, id))
            && (id in after ==> id in idx)
  {
    hide FetchReply, IdsTagged, IdsSince, ValidTag;
  }

  /** How a request changes whether a message carries a tag. */
  lemma RequestTags(box: Box, op: Operation, names: seq<string>, id: string, tag: string)
    requires Keyed(LoadIndex(box.index)) && Listing(names, box.files)
    ensures var (idx, after) := (LoadIndex(box.index), LoadIndex(Serve(box, op, names).0.index));
            && (HasTag(idx, id, tag) && Present(box.files, id) && op != RemoveTag(tag, id) && op != Delete(id)
                ==> HasTag(after, id, tag))
            && (HasTag(after, id, tag) && !HasTag(idx, id, tag) ==>
                  op == AddTag(tag, id) || (id !in idx && tag in NewTags(box.isList)))
            && (HasTag(after, id, tag) ==> op != RemoveTag(tag, id))
  {
    hide Sync, SyncFlag, Keyed, Perform, Present, NewTags, Listing;
    SavedEqualsMemory(box, op, names);
    SyncAgreesWithDirectory(LoadIndex(box.index), box.files, box.isList, names);
    PerformTags(AfterSync(box, names), Synced(box, names), op, id, tag);
  }

  /** Nothing in events `from..k` removes the tag, deletes the message, or syncs while its file is gone. */
  ghost predicate Undisturbed(isList: bool, events: seq<Event>, from: nat, k: nat, id: string, tag: string)
    requires k <= |events|
  {
    forall i | from <= i < k && events[i].Request? ::
      && events[i].op != RemoveTag(tag, id) && events[i].op != Delete(id)
      && Present(StateAt(isList, events, i).files, id)
  }

  /** A tag persists until it is removed, over any mix of deliveries, renames and requests. */
  lemma {:induction false} TagsPersist(isList: bool, events: seq<Event>, from: nat, k: nat, id: string, tag: string)
    requires IsRun(isList, events) && from <= k <= |events|
    requires HasTag(IndexAt(isList, events, from), id, tag)
    requires Undisturbed(isList, events, from, k, id, tag)
    ensures HasTag(IndexAt(isList, events, k), id, tag)
  {
    hide Present, HasTag, IsRun, Listing, Keyed, Serve;
    if from < k {
      TagsPersist(isList, events, from, k - 1, id, tag);
      var (box, e) := (StateAt(isList, events, k - 1), events[k - 1]);
      match e
      case Request(op, names) =>
        RunKeyed(isList, events, k - 1);
        assert Enabled(box, e) by { RunStep(isList, events, k - 1); }
        RequestTags(box, op, names, id, tag);
      case _ =>
    }
  }

  /** Event `j` tagged the message Trash; since then it has stayed indexed and kept that tag. */
  ghost predicate TrashedSince(isList: bool, events: seq<Event>, j: nat, k: nat, id: string)
    requires j < k <= |events|
  {
    && events[j].Request? && events[j].op == AddTag("Trash", id)
    && (forall i | j < i < k && events[i].Request? :: events[i].op != RemoveTag("Trash", id))
    && (forall i | j < i <= k :: id in IndexAt(isList, events, i))
  }

  /** The Trash tag only ever comes from a request that added it. */
  lemma {:induction false} TrashOrigin(isList: bool, events: seq<Event>, k: nat, id: string) returns (j: nat)
    requires IsRun(isList, events) && k <= |events|
    requires HasTag(IndexAt(isList, events, k), id, "Trash")
    ensures j < k && TrashedSince(isList, events, j, k, id)
  {
    hide IsRun, Listing, Keyed, Serve;
    var (box, e) := (StateAt(isList, events, k - 1), events[k - 1]);
    var before := IndexAt(isList, events, k - 1);
    if e.Request? {
      RunKeyed(isList, events, k - 1);
      assert Enabled(box, e) by { RunStep(isList, events, k - 1); }
      RequestTags(box, e.op, e.names, id, "Trash");
    }
    if HasTag(before, id, "Trash") {
      j := TrashOrigin(isList, events, k - 1, id);
    } else {
      j := k - 1;
    }
  }

  lemma RunStep(isList: bool, events: seq<Event>, k: nat)
    requires IsRun(isList, events) && k < |events|
    ensures Enabled(StateAt(isList, events, k), events[k])
  {
  }

  /**
   GMAP unlinks a file only on a delete request for the message the file belongs to, and only when an
   earlier request tagged that message Trash and it has stayed indexed and tagged since.
   */
  lemma UnlinksOnlyTrashed(isList: bool, events: seq<Event>, k: nat, f: string) returns (id: string, j: nat)
    requires IsRun(isList, events) && k < |events| && events[k].Request?
    requires f in StateAt(isList, events, k).files && f !in StateAt(isList, events, k + 1).files
    ensures events[k].op == Delete(id) && ParseMessageId(f) == Some(id)
    ensures j < k && TrashedSince(isList, events, j, k, id)
  {
    hide Sync, SyncFlag, Listing, ParseMessageId, FetchReply, IdsTagged, IdsSince, ValidTag;
    var (box, e) := (StateAt(isList, events, k), events[k]);
    RunKeyed(isList, events, k);
    RunStep(isList, events, k);
    var synced := Synced(box, e.names);
    assert e.op.Delete? && Deletable(synced, e.op.id) && synced[e.op.id].filename == f;
    id := e.op.id;
    SyncAgreesWithDirectory(LoadIndex(box.index), box.files, box.isList, e.names);
    j := TrashOrigin(isList, events, k, id);
  }
}
