/** Exactly which texts are read as which addresses, lists, messages and subjects. */
module GemmailReading {
  import opened Wrappers
  import opened Text
  import opened Utf8
  import opened Calendar
  import opened Gemmail
  import opened GemmailC
  import opened GemmailB
  import Request
  import AutoReply

  // -- Addresses --

  /** The stripped text is the address, or the address, a space and what strips to the blurb. */
  ghost predicate ReadsAs(text: string, a: Address) {
    || (Strip(text) == a.mailbox + "@" + a.hostname && a.blurb == "")
    || (exists rest :: Strip(text) == a.mailbox + "@" + a.hostname + " " + rest && a.blurb == Strip(rest))
  }

  ghost predicate AddressText(text: string, a: Address) {
    && a.mailbox != "" && a.hostname != "" && '@' !in a.hostname
    && ' ' !in a.mailbox && ' ' !in a.hostname && ',' !in a.blurb && '@' !in a.blurb
    && ReadsAs(text, a)
  }

  /** A text is read as an address exactly when it has this form. */
  lemma AddressExact(text: string, a: Address)
    ensures ParseAddress(text) == Success(a) <==> AddressText(text, a)
  {
    hide ParseAddress, AddressText;
    if ParseAddress(text) == Success(a) { AddressWhenRead(text, a); }
    if AddressText(text, a) { AddressIsRead(text, a); }
  }

  lemma AddressWhenRead(text: string, a: Address)
    requires ParseAddress(text) == Success(a)
    ensures AddressText(text, a)
  {
    hide Strip, Request.SplitAddress, IndexOf;
    var t := Strip(text);
    var space := IndexOf(t, ' ');
    var address := t[..space];
    assert address == a.mailbox + "@" + a.hostname;
    assert ' ' !in a.mailbox by { assert a.mailbox == address[..|a.mailbox|]; }
    assert ' ' !in a.hostname by { assert a.hostname == address[|a.mailbox| + 1..]; }
    if space < |t| {
      assert t == address + " " + t[space + 1..];
    } else {
      assert address == t;
    }
  }

  lemma AddressIsRead(text: string, a: Address)
    requires AddressText(text, a)
    ensures ParseAddress(text) == Success(a)
  {
    hide Strip, Request.SplitAddress, IndexOf;
    var t := Strip(text);
    var address := a.mailbox + "@" + a.hostname;
    assert ' ' !in address;
    Request.SplitJoinedAddress(a.mailbox, a.hostname);
    if t == address && a.blurb == "" {
      assert IndexOf(t, ' ') == |t| && t[..|t|] == t;
    } else {
      var rest :| t == address + " " + rest && a.blurb == Strip(rest);
      assert t == address + [' '] + rest;
      IndexOfAt(address, ' ', rest);
      assert t[..|address|] == address && t[|address| + 1..] == rest;
    }
  }

  // -- Lists --

  /** The items that are not blank, stripped. */
  function Filled(items: seq<string>): seq<string> {
    if items == [] then []
    else (if Strip(items[0]) == "" then [] else [Strip(items[0])]) + Filled(items[1..])
  }

  /** Every item is read, in order. */
  ghost predicate AllRead<T>(parse: ItemParser<T>, items: seq<string>, xs: seq<T>) {
    |xs| == |items| && forall k | 0 <= k < |items| :: parse(items[k]) == Success(xs[k])
  }

  lemma {:induction false} ItemsExact<T>(parse: ItemParser<T>, items: seq<string>, xs: seq<T>)
    ensures ParseItems(parse, items) == Success(xs) <==> AllRead(parse, Filled(items), xs)
  {
    hide Strip;
    if items != [] {
      var (first, rest) := (Strip(items[0]), items[1..]);
      if first == "" {
        ItemsExact(parse, rest, xs);
        assert [] + Filled(rest) == Filled(rest);
      } else {
        var filled := [first] + Filled(rest);
        assert Filled(items) == filled && filled[1..] == Filled(rest);
        if xs != [] {
          ItemsExact(parse, rest, xs[1..]);
          assert xs == [xs[0]] + xs[1..];
          AllReadStep(parse, first, Filled(rest), xs);
          ParseItemsStep(parse, items, xs);
        } else if ParseItems(parse, items).Success? {
          assert ParseItems(parse, items).value != [];
        }
      }
    }
  }

  lemma AllReadStep<T>(parse: ItemParser<T>, first: string, rest: seq<string>, xs: seq<T>)
    requires xs != []
    ensures AllRead(parse, [first] + rest, xs) <==> parse(first) == Success(xs[0]) && AllRead(parse, rest, xs[1..])
  {
    var items := [first] + rest;
    if AllRead(parse, items, xs) {
      assert items[0] == first;
      forall k | 0 <= k < |rest| ensures parse(rest[k]) == Success(xs[1..][k]) {
        assert items[k + 1] == rest[k];
      }
    }
    if parse(first) == Success(xs[0]) && AllRead(parse, rest, xs[1..]) {
      forall k | 0 <= k < |items| ensures parse(items[k]) == Success(xs[k]) {
        if k > 0 { assert items[k] == rest[k - 1] && xs[k] == xs[1..][k - 1]; }
      }
    }
  }

  lemma ParseItemsStep<T>(parse: ItemParser<T>, items: seq<string>, xs: seq<T>)
    requires items != [] && Strip(items[0]) != "" && xs != []
    ensures ParseItems(parse, items) == Success(xs)
            <==> parse(Strip(items[0])) == Success(xs[0]) && ParseItems(parse, items[1..]) == Success(xs[1..])
  {
    hide Strip;
    var (x, rest) := (parse(Strip(items[0])), ParseItems(parse, items[1..]));
    if x.Success? && rest.Success? {
      assert ([x.value] + rest.value)[0] == x.value && ([x.value] + rest.value)[1..] == rest.value;
      assert xs == [xs[0]] + xs[1..];
    }
  }

  /** A list line is read exactly when each of its items is, blank ones not counted. */
  lemma LineExact<T>(parse: ItemParser<T>, line: string, xs: seq<T>)
    ensures ParseLine(parse, line) == Success(xs) <==> AllRead(parse, Filled(Split(Strip(line), ',')), xs)
  {
    hide Strip;
    var t := Strip(line);
    if t == "" {
      SplitWhole("", ',');
      StripTrimmed("");
      assert [""][1..] == [];
      assert Filled(Split(t, ',')) == [];
    } else {
      ItemsExact(parse, Split(t, ','), xs);
    }
  }

  // -- Messages in C form --

  /** The text without CRLF is three lines of at most 1024 octets with their line feeds, and the body. */
  predicate LaidOut(text: string, a: string, b: string, c: string, body: string) {
    && NormalizeNewlines(text) == a + "\n" + (b + "\n" + (c + "\n" + body))
    && '\n' !in a && '\n' !in b && '\n' !in c
    && |Encode(a)| + 1 <= 1024 && |Encode(b)| + 1 <= 1024 && |Encode(c)| + 1 <= 1024
  }

  predicate LaidOutFor(text: string, a: string, b: string, c: string, m: Message) {
    && LaidOut(text, a, b, c, m.body)
    && ParseLine(ParseAddress, a) == Success(m.senders)
    && ParseLine(ParseAddress, b) == Success(m.recipients)
    && ParseLine(ParseTimestamp, c) == Success(m.timestamps)
  }

  lemma FitsExact(line: string)
    ensures LineFits(line) <==> |Encode(line)| + 1 <= 1024
  {
    EncodeConcat(line, "\n");
    assert "\n"[1..] == "" && Encode("") == [] && |Encode("\n")| == 1;
  }

  /** Bytes are read as a message exactly when they decode, hold no stray CR, and are laid out for it. */
  lemma MessageExact(data: seq<byte>, m: Message)
    ensures FromBytes(data) == Success(m)
            <==> && Decode(data).Some? && CrOnlyBeforeLf(Decode(data).value)
                 && exists a, b, c :: LaidOutFor(Decode(data).value, a, b, c, m)
  {
    hide ParseLine, NormalizeNewlines, Encode, Split, Decode, CrOnlyBeforeLf;
    if FromBytes(data) == Success(m) {
      var text := Decode(data).value;
      var lines := Split(NormalizeNewlines(text), '\n');
      FitsExact(lines[0]);
      FitsExact(lines[1]);
      FitsExact(lines[2]);
      LinesJoined(NormalizeNewlines(text));
      assert LaidOutFor(text, lines[0], lines[1], lines[2], m);
    }
    if Decode(data).Some? && CrOnlyBeforeLf(Decode(data).value) {
      var text := Decode(data).value;
      if a, b, c :| LaidOutFor(text, a, b, c, m) {
        SplitFour(a, b, c, m.body);
        FitsExact(a);
        FitsExact(b);
        FitsExact(c);
        JoinSplit(m.body, '\n');
      }
    }
  }

  lemma LinesJoined(s: string)
    requires |Split(s, '\n')| >= 4
    ensures var lines := Split(s, '\n');
            && s == lines[0] + "\n" + (lines[1] + "\n" + (lines[2] + "\n" + Join(lines[3..], "\n")))
            && '\n' !in lines[0] && '\n' !in lines[1] && '\n' !in lines[2]
  {
    hide Split, Join;
    var lines := Split(s, '\n');
    JoinSplit(s, '\n');
    assert lines == [lines[0]] + lines[1..] && lines[1..] == [lines[1]] + lines[2..];
    assert lines[2..] == [lines[2]] + lines[3..];
    JoinStep(lines[0], lines[1..], "\n");
    JoinStep(lines[1], lines[2..], "\n");
    JoinStep(lines[2], lines[3..], "\n");
    SplitPieces(s, '\n', lines[0]);
    SplitPieces(s, '\n', lines[1]);
    SplitPieces(s, '\n', lines[2]);
  }

  // -- Messages in B form --

  predicate IsSender(line: string) {
    "< " <= line && ParseAddress(line[2..]).Success?
  }

  /** The first line that starts with a mark. */
  predicate First(lines: seq<string>, mark: string, i: nat) {
    i < |lines| && mark <= lines[i] && forall j | 0 <= j < i :: !(mark <= lines[j])
  }

  predicate IsStamp(lines: seq<string>, i: nat) {
    First(lines, "@ ", i) && ParseStamp(Strip(lines[i][2..])).Some?
  }

  /** Where each line of a B message goes. */
  lemma PlacesExact(lines: seq<string>, i: nat)
    requires i < |lines|
    ensures PlaceOf(lines, i).AsSender? <==> IsSender(lines[i])
    ensures PlaceOf(lines, i).AsRecipients? <==> First(lines, ": ", i)
    ensures PlaceOf(lines, i).AsTimestamp? <==> IsStamp(lines, i)
    ensures PlaceOf(lines, i).AsBody?
            <==> !IsSender(lines[i]) && !First(lines, ": ", i) && !IsStamp(lines, i)
    ensures PlaceOf(lines, i).AsSender? ==> ParseAddress(lines[i][2..]) == Success(PlaceOf(lines, i).a)
    ensures PlaceOf(lines, i).AsTimestamp? ==> ParseStamp(Strip(lines[i][2..])) == Some(PlaceOf(lines, i).t)
  {
    hide ParseAddress, ParseStamp, Strip;
    MarksDiffer(lines[i]);
  }

  /** The line, behind its mark, is read as the address. */
  predicate MarksSender(line: string, a: Address) {
    "< " <= line && ParseAddress(line[2..]) == Success(a)
  }

  /** `idx` lists the sender lines among the first `n`, and `senders` what they are read as. */
  ghost predicate SendersAt(lines: seq<string>, n: nat, senders: seq<Address>, idx: seq<nat>)
    requires n <= |lines|
  {
    && Increasing(idx, n) && |idx| == |senders|
    && (forall k | 0 <= k < |idx| :: MarksSender(lines[idx[k]], senders[k]))
    && (forall i | 0 <= i < n :: IsSender(lines[i]) <==> i in idx)
  }

  /** The senders are the readable sender lines, all of them, in order. */
  lemma {:induction false} SendersKeepOrder(lines: seq<string>, n: nat) returns (idx: seq<nat>)
    requires n <= |lines|
    ensures SendersAt(lines, n, SendersTo(lines, n), idx)
  {
    hide PlaceOf, SendersAt;
    if n == 0 {
      idx := [];
      NoSenders(lines);
    } else {
      idx := SendersKeepOrder(lines, n - 1);
      SenderPlaced(lines, n - 1);
      var place := PlaceOf(lines, n - 1);
      if place.AsSender? {
        SenderAdded(lines, n, SendersTo(lines, n - 1), idx, place.a);
        idx := idx + [n - 1];
      } else {
        SenderNotAdded(lines, n, SendersTo(lines, n - 1), idx);
        assert SendersTo(lines, n - 1) + [] == SendersTo(lines, n - 1);
      }
    }
  }

  lemma NoSenders(lines: seq<string>)
    ensures SendersAt(lines, 0, [], [])
  {
  }

  lemma SenderAdded(lines: seq<string>, n: nat, senders: seq<Address>, idx: seq<nat>, a: Address)
    requires 0 < n <= |lines| && SendersAt(lines, n - 1, senders, idx)
    requires IsSender(lines[n - 1]) && MarksSender(lines[n - 1], a)
    ensures SendersAt(lines, n, senders + [a], idx + [n - 1])
  {
    hide IsSender, MarksSender;
  }

  lemma SenderNotAdded(lines: seq<string>, n: nat, senders: seq<Address>, idx: seq<nat>)
    requires 0 < n <= |lines| && SendersAt(lines, n - 1, senders, idx) && !IsSender(lines[n - 1])
    ensures SendersAt(lines, n, senders, idx)
  {
    hide IsSender, MarksSender;
  }

  lemma SenderPlaced(lines: seq<string>, i: nat)
    requires i < |lines|
    ensures PlaceOf(lines, i).AsSender? <==> IsSender(lines[i])
    ensures PlaceOf(lines, i).AsSender? ==> MarksSender(lines[i], PlaceOf(lines, i).a)
  {
    hide ParseAddress, ParseStamp;
  }

  /** A word is an address if it is read as one, and nothing otherwise. */
  lemma ReadableOne(w: string)
    ensures ReadableAddresses([w]) == match ParseAddress(w) case Success(a) => [a] case Failure(_) => []
  {
    hide ParseAddress;
    assert [w][..0] == [] && ReadableAddresses([]) == [];
  }

  /** The addresses among the words are found word by word, in order. */
  lemma {:induction false} ReadableConcat(words: seq<string>, more: seq<string>)
    ensures ReadableAddresses(words + more) == ReadableAddresses(words) + ReadableAddresses(more)
    decreases |more|
  {
    hide ParseAddress;
    if more == [] {
      assert words + more == words;
    } else {
      var all := words + more;
      assert all[..|all| - 1] == words + more[..|more| - 1] && all[|all| - 1] == more[|more| - 1];
      ReadableConcat(words, more[..|more| - 1]);
    }
  }

  /** Recipients come from the first recipients line only. */
  lemma {:induction false} RecipientsExact(lines: seq<string>, n: nat)
    requires n <= |lines|
    ensures (forall i | 0 <= i < n :: !First(lines, ": ", i)) ==> RecipientsTo(lines, n) == []
    ensures forall i | 0 <= i < n && First(lines, ": ", i) ::
              |lines[i]| >= 2 && RecipientsTo(lines, n) == ReadableAddresses(Words(lines[i][2..]))
  {
    hide PlaceOf, ParseAddress, ParseStamp, Strip, Words, ReadableAddresses;
    if n > 0 {
      RecipientsExact(lines, n - 1);
      PlacesExact(lines, n - 1);
    }
  }

  /** The timestamp comes from the first timestamp line only. */
  lemma {:induction false} StampsExact(lines: seq<string>, n: nat)
    requires n <= |lines|
    ensures (forall i | 0 <= i < n :: !IsStamp(lines, i)) ==> StampsTo(lines, n) == []
    ensures forall i | 0 <= i < n && IsStamp(lines, i) ::
              |lines[i]| >= 2 && ParseStamp(Strip(lines[i][2..])).Some?
              && StampsTo(lines, n) == [ParseStamp(Strip(lines[i][2..])).value]
  {
    hide PlaceOf, ParseAddress, ParseStamp, Strip;
    if n > 0 {
      StampsExact(lines, n - 1);
      PlacesExact(lines, n - 1);
    }
  }

  // -- Subjects --

  predicate Heads(line: string) {
    Strip(line) != "" && Strip(line)[0] == '#'
  }

  /** The stripped line is some hashes and a rest that starts with none, which strips to the subject. */
  ghost predicate HeadingOf(line: string, subject: string) {
    exists hashes, rest ::
      && Strip(line) == hashes + rest && hashes != "" && (forall c | c in hashes :: c == '#')
      && (rest == "" || rest[0] != '#') && subject == Strip(rest)
  }

  lemma {:induction false} DroppedExact(s: string) returns (hashes: string)
    ensures s == hashes + AutoReply.DropHashes(s) && forall c | c in hashes :: c == '#'
    ensures var rest := AutoReply.DropHashes(s); rest == "" || rest[0] != '#'
  {
    hashes := "";
    if s != "" && s[0] == '#' {
      hashes := DroppedExact(s[1..]);
      hashes := ['#'] + hashes;
      assert s == [s[0]] + s[1..];
    }
  }

  lemma {:induction false} DropAll(hashes: string, rest: string)
    requires (forall c | c in hashes :: c == '#') && (rest == "" || rest[0] != '#')
    ensures AutoReply.DropHashes(hashes + rest) == rest
  {
    if hashes == "" {
      assert hashes + rest == rest;
    } else {
      assert hashes[0] in hashes && (hashes + rest)[1..] == hashes[1..] + rest;
      assert forall c | c in hashes[1..] :: c in hashes;
      DropAll(hashes[1..], rest);
    }
  }

  lemma HeadingExact(line: string, subject: string)
    ensures Heads(line) && Strip(AutoReply.DropHashes(Strip(line))) == subject <==> HeadingOf(line, subject)
  {
    hide Strip;
    var t := Strip(line);
    var hashes := DroppedExact(t);
    if Heads(line) && Strip(AutoReply.DropHashes(t)) == subject {
      assert "" + AutoReply.DropHashes(t) == AutoReply.DropHashes(t);
    }
    if h, rest :| t == h + rest && h != "" && (forall c | c in h :: c == '#')
                  && (rest == "" || rest[0] != '#') && subject == Strip(rest) {
      DropAll(h, rest);
      assert t[0] == h[0] && h[0] in h;
    }
  }

  /** The first line that is a heading has this subject. */
  ghost predicate HeadedBy(lines: seq<string>, subject: string) {
    exists i :: 0 <= i < |lines| && HeadingOf(lines[i], subject) && forall j | 0 <= j < i :: !Heads(lines[j])
  }

  lemma {:induction false} FirstHeadingExact(lines: seq<string>, subject: string)
    ensures AutoReply.FirstHeading(lines) == Some(subject) <==> HeadedBy(lines, subject)
    ensures AutoReply.FirstHeading(lines) == None <==> forall i | 0 <= i < |lines| :: !Heads(lines[i])
  {
    hide Strip, HeadingOf, Heads, AutoReply.DropHashes;
    if lines != [] {
      var rest := lines[1..];
      FirstHeadingExact(rest, subject);
      HeadingExact(lines[0], subject);
      HeadsFirst(lines);
      OfHeading(lines[0], subject);
      if Heads(lines[0]) {
        if i :| 0 <= i < |lines| && HeadingOf(lines[i], subject) && forall j | 0 <= j < i :: !Heads(lines[j]) {
          assert i == 0;
        }
      } else {
        if i :| 0 <= i < |rest| && HeadingOf(rest[i], subject) && forall j | 0 <= j < i :: !Heads(rest[j]) {
          assert lines[i + 1] == rest[i];
          forall j | 0 <= j < i + 1 ensures !Heads(lines[j]) {
            if j > 0 { assert lines[j] == rest[j - 1]; }
          }
        }
        if i :| 0 <= i < |lines| && HeadingOf(lines[i], subject) && forall j | 0 <= j < i :: !Heads(lines[j]) {
          assert i > 0 && rest[i - 1] == lines[i];
          forall j | 0 <= j < i - 1 ensures !Heads(rest[j]) { assert rest[j] == lines[j + 1]; }
        }
        forall i | 0 <= i < |lines| ensures i > 0 ==> lines[i] == rest[i - 1] {
        }
      }
    }
  }

  lemma OfHeading(line: string, subject: string)
    ensures HeadingOf(line, subject) ==> Heads(line)
  {
    hide Strip;
    HeadingExact(line, subject);
  }

  lemma HeadsFirst(lines: seq<string>)
    requires lines != []
    ensures AutoReply.FirstHeading(lines)
            == if Heads(lines[0]) then Some(Strip(AutoReply.DropHashes(Strip(lines[0]))))
               else AutoReply.FirstHeading(lines[1..])
  {
  }

  /** The subject is the text of the first line of the body that starts, stripped, with a hash. */
  lemma SubjectExact(body: string, subject: string)
    ensures AutoReply.Subject(body) == Some(subject) <==> HeadedBy(Split(body, '\n'), subject)
    ensures AutoReply.Subject(body) == None <==> forall i | 0 <= i < |Split(body, '\n')| :: !Heads(Split(body, '\n')[i])
  {
    hide HeadedBy, Heads, Split;
    FirstHeadingExact(Split(body, '\n'), subject);
  }

  /** The body is made of the lines placed in it, one to a line. */
  lemma BodyLines(lines: seq<string>)
    requires forall line | line in lines :: '\n' !in line
    requires BodyTo(lines, |lines|) != []
    ensures Split(ScanLines(lines).body, '\n') == BodyTo(lines, |lines|)
  {
    hide PlaceOf;
    forall line | line in BodyTo(lines, |lines|) ensures '\n' !in line {
      BodyOrigin(lines, |lines|, line);
    }
    SplitJoin(BodyTo(lines, |lines|), '\n');
  }
}
