/** Operations on one mailbox: the values they work on, and the objects that carry them out. */
module GmapMailbox {
  import opened Text
  import opened MessageId
  import opened GmapIndex

  /** The state of `.gmap.json`. */
  datatype IndexFile = Missing | Corrupt | Saved(messages: Index)

  /** A missing or unreadable index file loads as an empty index. */
  function LoadIndex(f: IndexFile): Index {
    match f
    case Saved(messages) => messages
    case _ => map[]
  }

  predicate TagChar(c: char) {
    IsDigit(c) || 'a' <= c <= 'z' || 'A' <= c <= 'Z' || c == '_' || c == ':' || c == '-'
  }

  /** The text up to where the pattern `$` matches: at the end, or before a final line feed. */
  function UpToEnd(s: string): string {
    if s != "" && s[|s| - 1] == '\n' then s[..|s| - 1] else s
  }

  /** `^[a-zA-Z0-9_:-]+$`. */
  predicate ValidTag(tag: string) {
    UpToEnd(tag) != "" && forall c | c in UpToEnd(tag) :: TagChar(c)
  }

  function Tagged(idx: Index, id: string, tag: string): Index {
    if ValidTag(tag) && id in idx then idx[id := idx[id].(tags := idx[id].tags + {tag})] else idx
  }

  function Untagged(idx: Index, id: string, tag: string): Index {
    if id in idx then idx[id := idx[id].(tags := idx[id].tags - {tag})] else idx
  }

  predicate Deletable(idx: Index, id: string) {
    id in idx && "Trash" in idx[id].tags
  }

  class MailboxDirectory {
    var files: Files
    var index: IndexFile
    var isList: bool

    constructor (files: Files, index: IndexFile, isList: bool)
      ensures this.files == files && this.index == index && this.isList == isList
    {
      this.files, this.index, this.isList := files, index, isList;
    }
  }

  class GmapMailbox {
    const dir: MailboxDirectory
    const isList: bool
    var messages: Index
    var loaded: bool

    constructor (dir: MailboxDirectory)
      ensures this.dir == dir && isList == dir.isList && messages == map[] && !loaded
    {
      this.dir, isList, messages, loaded := dir, dir.isList, map[], false;
    }

    method Load()
      modifies this
      ensures messages == LoadIndex(dir.index) && loaded
    {
      match dir.index {
        case Saved(saved) => messages := saved;
        case _ => messages := map[];
      }
      loaded := true;
    }

    method Save()
      modifies dir`index
      ensures dir.index == Saved(messages)
    {
      dir.index := Saved(messages);
    }

    method SyncFilesystem(names: seq<string>) returns (modified: bool)
      modifies this
      ensures var start := if old(loaded) then old(messages) else LoadIndex(dir.index);
              && messages == Sync(start, dir.files, isList, names)
              && modified == SyncFlag(start, dir.files, isList, names)
      ensures loaded
    {
      hide ParseMessageId, StampText;
      if !loaded {
        Load();
      }
      ghost var start := messages;
      modified := false;
      var known := Known(messages);
      for i := 0 to |names|
        invariant loaded && messages == VisitAll(start, known, isList, names[..i])
        invariant modified <==> exists j | 0 <= j < i :: Unindexed(known, names[j])
      {
        assert names[..i + 1][..i] == names[..i];
        var name := names[i];
        if name !in known {
          match ParseMessageId(name)
          case None =>
          case Some(id) =>
            if id in messages {
              messages := messages[id := messages[id].(filename := name)];
            } else {
              messages := messages[id := Entry(NewTags(isList), StampText(name), name)];
            }
            modified := true;
        }
      }
      assert names[..|names|] == names;
      var removed := RemoveStaleEntries();
      if removed {
        modified := true;
      }
    }

    method RemoveStaleEntries() returns (removed: bool)
      modifies this`messages
      ensures messages == RemoveStale(old(messages), dir.files)
      ensures removed <==> exists id | id in old(messages) :: old(messages)[id].filename !in dir.files
    {
      var toRemove := set id | id in messages && messages[id].filename !in dir.files;
      removed := toRemove != {};
      ghost var start := messages;
      assert removed <==> exists id | id in start :: start[id].filename !in dir.files by {
        if toRemove != {} { var id :| id in toRemove; }
        if id :| id in start && start[id].filename !in dir.files { assert id in toRemove; }
      }
      var left := toRemove;
      while left != {}
        invariant left <= toRemove
        invariant messages == map id | id in start && id !in toRemove - left :: start[id]
      {
        var id :| id in left;
        messages := messages - {id};
        left := left - {id};
      }
    }

    /** True when the message exists and the tag is well-formed, also when it was tagged before. */
    method AddTag(id: string, tag: string) returns (ok: bool)
      modifies this`messages
      ensures messages == Tagged(old(messages), id, tag)
      ensures ok <==> ValidTag(tag) && id in old(messages)
    {
      ok := ValidTag(tag) && id in messages;
      if ok && tag !in messages[id].tags {
        messages := messages[id := messages[id].(tags := messages[id].tags + {tag})];
      }
      assert ok ==> messages[id].tags == old(messages)[id].tags + {tag};
    }

    method RemoveTag(id: string, tag: string) returns (ok: bool)
      modifies this`messages
      ensures messages == Untagged(old(messages), id, tag)
      ensures ok <==> id in old(messages)
    {
      ok := id in messages;
      if ok && tag in messages[id].tags {
        messages := messages[id := messages[id].(tags := messages[id].tags - {tag})];
      }
      assert ok ==> messages[id].tags == old(messages)[id].tags - {tag};
    }

    /** Only a message tagged Trash is deleted, and only the file its entry names is unlinked. */
    method DeleteMessage(id: string) returns (ok: bool)
      modifies this`messages, dir`files
      ensures ok == Deletable(old(messages), id)
      ensures messages == if ok then old(messages) - {id} else old(messages)
      ensures dir.files == if ok then old(dir.files) - {old(messages)[id].filename} else old(dir.files)
    {
      ok := id in messages && "Trash" in messages[id].tags;
      if ok {
        var filename := messages[id].filename;
        if filename in dir.files {
          dir.files := dir.files - {filename};
        }
        messages := messages - {id};
      }
    }
  }
}

/** `GmapHandler` after authentication: one request against one mailbox. */
module GmapHandler {
  import opened Wrappers
  import opened Text
  import opened Utf8
  import opened GmapIndex
  import opened GmapMailbox
  import Calendar

  datatype Operation =
    | Fetch(id: string)
    | ListAll
    | ListTag(tag: string)
    | ListSince(tag: string, since: string)
    | AddTag(tag: string, id: string)
    | RemoveTag(tag: string, id: string)
    | Delete(id: string)
    | Malformed
    | NoRoute

  datatype Reply = Content(data: seq<byte>) | Listed(ids: set<string>) | Done | Refused(status: int)

  const TEMP_FAILURE := 40
  const NOT_FOUND := 51
  const BAD_REQUEST := 59

  function After(path: string, prefix: string): Option<string> {
    if prefix <= path then Some(path[|prefix|..]) else None
  }

  predicate Segment(s: string) {
    s != "" && '/' !in s && '?' !in s
  }

  /** `YYYY-MM-DDTHH:MM:SSZ` in shape. */
  predicate SinceShape(s: string) {
    && |s| == 20 && AllDigits(s[..4]) && s[4] == '-' && AllDigits(s[5..7]) && s[7] == '-' && AllDigits(s[8..10])
    && s[10] == 'T' && AllDigits(s[11..13]) && s[13] == ':' && AllDigits(s[14..16]) && s[16] == ':'
    && AllDigits(s[17..19]) && s[19] == 'Z'
  }

  function RouteTag(rest: string, query: Option<string>): Operation {
    if UpToEnd(rest) == "" then (if query.Some? then Malformed else ListAll)
    else
      var slash := IndexOf(rest, '/');
      if slash < |rest| && Segment(rest[..slash]) && SinceShape(UpToEnd(rest[slash + 1..])) then
        ListSince(rest[..slash], UpToEnd(rest[slash + 1..]))
      else if Segment(rest) then
        match query {
          case Some(id) => AddTag(rest, id)
          case None => ListTag(rest)
        }
      else NoRoute
  }

  /** `.+$`: a text without line feeds, up to the end. */
  predicate OneLine(s: string) {
    s != "" && '\n' !in s
  }

  /** `_route` and `_route_tag`. */
  function Route(path: string, query: Option<string>): Operation {
    var message := After(path, "/msgid/");
    var tag := After(path, "/tag/");
    var untag := After(path, "/untag/");
    if message.Some? && OneLine(UpToEnd(message.value)) then Fetch(UpToEnd(message.value))
    else if tag.Some? then RouteTag(tag.value, query)
    else if untag.Some? && Segment(untag.value) then
      (if query.Some? then RemoveTag(untag.value, query.value) else Malformed)
    else if UpToEnd(path) == "/delete" then (if query.Some? then Delete(query.value) else Malformed)
    else NoRoute
  }

  /** The request path and query a client sends for an operation. */
  function PathOf(op: Operation): (string, Option<string>)
    requires !op.Malformed? && !op.NoRoute?
  {
    match op
    case Fetch(id) => ("/msgid/" + id, None)
    case ListAll => ("/tag/", None)
    case ListTag(tag) => ("/tag/" + tag, None)
    case ListSince(tag, since) => ("/tag/" + (tag + "/" + since), None)
    case AddTag(tag, id) => ("/tag/" + tag, Some(id))
    case RemoveTag(tag, id) => ("/untag/" + tag, Some(id))
    case Delete(id) => ("/delete", Some(id))
  }

  predicate Addressable(op: Operation) {
    match op
    case Fetch(id) => OneLine(id)
    case ListAll => true
    case ListTag(tag) => Segment(tag) && tag != "\n"
    case ListSince(tag, since) => Segment(tag) && SinceShape(since)
    case AddTag(tag, _) => Segment(tag) && tag != "\n"
    case RemoveTag(tag, _) => Segment(tag)
    case Delete(_) => true
    case _ => false
  }

  lemma AfterPrefix(prefix: string, rest: string)
    ensures After(prefix + rest, prefix) == Some(rest)
  {
  }

  lemma RoutedTag(tag: string, query: Option<string>)
    requires Segment(tag) && tag != "\n"
    ensures RouteTag(tag, query) == match query case Some(id) => AddTag(tag, id) case None => ListTag(tag)
  {
    SplitWhole(tag, '/');
    assert IndexOf(tag, '/') == |tag|;
  }

  lemma RoutedSince(tag: string, since: string)
    requires Segment(tag) && SinceShape(since)
    ensures RouteTag(tag + "/" + since, None) == ListSince(tag, since)
  {
    assert UpToEnd(since) == since;
    SinceIsNoEnd(tag, since);
    hide SinceShape;
    IndexOfAt(tag, '/', since);
    var rest := tag + ['/'] + since;
    assert rest == tag + "/" + since;
    assert rest[..|tag|] == tag && rest[|tag| + 1..] == since;
  }

  lemma SinceIsNoEnd(tag: string, since: string)
    requires SinceShape(since)
    ensures UpToEnd(tag + "/" + since) == tag + "/" + since
  {
    var rest := tag + "/" + since;
    assert rest[|rest| - 1] == since[19];
  }

  /** A path that differs from a prefix somewhere does not start with it. */
  lemma NotAfter(path: string, prefix: string, k: nat)
    requires k < |prefix| && (k < |path| ==> path[k] != prefix[k])
    ensures After(path, prefix) == None
  {
  }

  /** Every addressable operation is reached by its own path and query. */
  lemma RouteRoundTrip(op: Operation)
    requires Addressable(op)
    ensures var (path, query) := PathOf(op); Route(path, query) == op
  {
    hide RouteTag, SinceShape, Segment, After;
    var (path, query) := PathOf(op);
    if op.Fetch? {
      AfterPrefix("/msgid/", op.id);
      assert UpToEnd(op.id) == op.id;
    } else {
      assert path[1] == if op.RemoveTag? then 'u' else if op.Delete? then 'd' else 't';
      NotAfter(path, "/msgid/", 1);
      match op
      case ListAll =>
        assert path == "/tag/" + "";
        AfterPrefix("/tag/", "");
        AllRouted();
      case ListTag(tag) =>
        AfterPrefix("/tag/", tag);
        RoutedTag(tag, None);
      case ListSince(tag, since) =>
        AfterPrefix("/tag/", tag + "/" + since);
        assert tag + ("/" + since) == tag + "/" + since;
        RoutedSince(tag, since);
      case AddTag(tag, id) =>
        AfterPrefix("/tag/", tag);
        RoutedTag(tag, Some(id));
      case RemoveTag(tag, id) =>
        NotAfter(path, "/tag/", 1);
        AfterPrefix("/untag/", tag);
      case Delete(id) =>
        NotAfter(path, "/tag/", 1);
        NotAfter(path, "/untag/", 1);
    }
  }

  lemma AllRouted()
    ensures RouteTag("", None) == ListAll
  {
  }

  /** Nothing but addressable operations is ever carried out. */
  lemma RoutedIsAddressable(path: string, query: Option<string>)
    ensures var op := Route(path, query); op.Malformed? || op.NoRoute? || Addressable(op)
  {
    hide SinceShape;
  }

  /** An operation is reached by the path and query a client sends for it exactly when it is addressable. */
  lemma RouteExact(op: Operation)
    requires !op.Malformed? && !op.NoRoute?
    ensures var (path, query) := PathOf(op); Route(path, query) == op <==> Addressable(op)
  {
    hide Route, Addressable;
    var (path, query) := PathOf(op);
    RoutedIsAddressable(path, query);
    if Addressable(op) { RouteRoundTrip(op); }
  }

  datatype Box = Box(files: Files, index: IndexFile, isList: bool)

  /** The index a request works on, and the index file once the sync has been saved. */
  function Synced(box: Box, names: seq<string>): Index {
    Sync(LoadIndex(box.index), box.files, box.isList, names)
  }

  function AfterSync(box: Box, names: seq<string>): Box {
    if SyncFlag(LoadIndex(box.index), box.files, box.isList, names)
    then box.(index := Saved(Synced(box, names))) else box
  }

  /** Trash is hidden unless asked for by name. */
  function IdsTagged(idx: Index, tag: string): set<string> {
    set id | id in idx && tag in idx[id].tags && (tag == "Trash" || "Trash" !in idx[id].tags)
  }

  /** An entry without a readable timestamp is never filtered out. */
  function IdsSince(idx: Index, tag: string, since: Calendar.DateTime): set<string> {
    set id | id in IdsTagged(idx, tag)
             && (match Calendar.ParseStamp(idx[id].timestamp)
                 case None => true
                 case Some(t) => Calendar.Instant(t) >= Calendar.Instant(since))
  }

  function FetchReply(idx: Index, files: Files, id: string): Reply {
    if id !in idx then Refused(NOT_FOUND)
    else if Contains(idx[id].filename, ".enc") then Refused(TEMP_FAILURE)
    else if idx[id].filename !in files then Refused(NOT_FOUND)
    else Content(files[idx[id].filename])
  }

  /** The operation on the synced index: directory and index file, index in memory, reply. */
  function Perform(box: Box, idx: Index, op: Operation): (Box, Index, Reply) {
    match op
    case Fetch(id) => (box, idx, FetchReply(idx, box.files, id))
    case ListAll => (box, idx, Listed(set id | id in idx && "Trash" !in idx[id].tags))
    case ListTag(tag) => (box, idx, Listed(IdsTagged(idx, tag)))
    case ListSince(tag, since) =>
      (box, idx, match Calendar.ParseStamp(since)
                 case None => Refused(BAD_REQUEST)
                 case Some(t) => Listed(IdsSince(idx, tag, t)))
    case AddTag(tag, id) =>
      if !ValidTag(tag) then (box, idx, Refused(BAD_REQUEST))
      else if id !in idx then (box, idx, Refused(NOT_FOUND))
      else (box.(index := Saved(Tagged(idx, id, tag))), Tagged(idx, id, tag), Done)
    case RemoveTag(tag, id) =>
      if id !in idx then (box, idx, Refused(NOT_FOUND))
      else (box.(index := Saved(Untagged(idx, id, tag))), Untagged(idx, id, tag), Done)
    case Delete(id) =>
      if !Deletable(idx, id) then (box, idx, Refused(NOT_FOUND))
      else (box.(files := box.files - {idx[id].filename}, index := Saved(idx - {id})), idx - {id}, Done)
    case Malformed => (box, idx, Refused(BAD_REQUEST))
    case NoRoute => (box, idx, Refused(NOT_FOUND))
  }

  /** A whole request: load, sync, save if changed, operate. */
  function Serve(box: Box, op: Operation, names: seq<string>): (Box, Index, Reply) {
    Perform(AfterSync(box, names), Synced(box, names), op)
  }

  ghost function View(dir: MailboxDirectory): Box
    reads dir
  {
    Box(dir.files, dir.index, dir.isList)
  }

  method HandleRequest(dir: MailboxDirectory, path: string, query: Option<string>, names: seq<string>)
    returns (reply: Reply, ghost memory: Index)
    modifies dir
    ensures (View(dir), memory, reply) == Serve(old(View(dir)), Route(path, query), names)
  {
    hide Sync, SyncFlag, Route, LoadIndex;
    var mailbox := new GmapMailbox(dir);
    mailbox.Load();
    var modified := mailbox.SyncFilesystem(names);
    if modified {
      mailbox.Save();
    }
    assert View(dir) == AfterSync(old(View(dir)), names) && mailbox.messages == Synced(old(View(dir)), names);
    reply := RunOperation(mailbox, Route(path, query));
    memory := mailbox.messages;
  }

  method RunOperation(mailbox: GmapMailbox, op: Operation) returns (reply: Reply)
    modifies mailbox`messages, mailbox.dir`index, mailbox.dir`files
    ensures (View(mailbox.dir), mailbox.messages, reply)
            == Perform(old(View(mailbox.dir)), old(mailbox.messages), op)
  {
    hide ValidTag, FetchReply, IdsTagged, IdsSince, Tagged, Untagged;
    var idx := mailbox.messages;
    match op
    case Fetch(id) => reply := FetchReply(idx, mailbox.dir.files, id);
    case ListAll => reply := Listed(set id | id in idx && "Trash" !in idx[id].tags);
    case ListTag(tag) => reply := Listed(IdsTagged(idx, tag));
    case ListSince(tag, since) =>
      var limit := Calendar.ParseStamp(since);
      reply := if limit.None? then Refused(BAD_REQUEST) else Listed(IdsSince(idx, tag, limit.value));
    case AddTag(tag, id) =>
      if !ValidTag(tag) {
        reply := Refused(BAD_REQUEST);
      } else if id !in idx {
        reply := Refused(NOT_FOUND);
      } else {
        var _ := mailbox.AddTag(id, tag);
        mailbox.Save();
        reply := Done;
      }
    case RemoveTag(tag, id) =>
      if id !in idx {
        reply := Refused(NOT_FOUND);
      } else {
        var _ := mailbox.RemoveTag(id, tag);
        mailbox.Save();
        reply := Done;
      }
    case Delete(id) =>
      var ok := mailbox.DeleteMessage(id);
      if !ok {
        reply := Refused(NOT_FOUND);
      } else {
        mailbox.Save();
        reply := Done;
      }
    case Malformed => reply := Refused(BAD_REQUEST);
    case NoRoute => reply := Refused(NOT_FOUND);
  }
}
