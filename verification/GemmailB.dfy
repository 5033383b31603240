/** The B message: metadata lines marked by a prefix anywhere in the body. */
module GemmailB {
  import opened Wrappers
  import opened Text
  import opened Utf8
  import opened Calendar
  import opened Gemmail
  import opened GemmailC

  const SENDER_MARK := "< "
  const RECIPIENTS_MARK := ": "
  const STAMP_MARK := "@ "

  /** Where a line of a B message goes. */
  datatype Place = AsSender(a: Address) | AsRecipients | AsTimestamp(t: DateTime) | AsBody

  /** Line `i` is the first one with the mark. */
  predicate FirstMarked(lines: seq<string>, mark: string, i: nat)
    requires i < |lines|
  {
    mark <= lines[i] && forall j | 0 <= j < i :: !(mark <= lines[j])
  }

  /**
   A readable sender line is a sender; the first recipients line names the recipients; the first
   timestamp line, if readable, is the timestamp; every other line belongs to the body.
   */
  function PlaceOf(lines: seq<string>, i: nat): Place
    requires i < |lines|
  {
    var line := lines[i];
    if SENDER_MARK <= line then
      match ParseAddress(line[2..])
      case Success(a) => AsSender(a)
      case Failure(_) => AsBody
    else if FirstMarked(lines, RECIPIENTS_MARK, i) then AsRecipients
    else if FirstMarked(lines, STAMP_MARK, i) then
      match ParseStamp(Strip(line[2..]))
      case Some(t) => AsTimestamp(t)
      case None => AsBody
    else AsBody
  }

  /** The readable addresses among the words of a recipients line. */
  function ReadableAddresses(words: seq<string>): seq<Address> {
    if words == [] then []
    else
      var last := words[|words| - 1];
      var before := ReadableAddresses(words[..|words| - 1]);
      if ParseAddress(last).Success? then before + [ParseAddress(last).value] else before
  }

  function SendersTo(lines: seq<string>, n: nat): seq<Address>
    requires n <= |lines|
  {
    if n == 0 then []
    else
      var p := PlaceOf(lines, n - 1);
      SendersTo(lines, n - 1) + (if p.AsSender? then [p.a] else [])
  }

  function RecipientsTo(lines: seq<string>, n: nat): seq<Address>
    requires n <= |lines|
  {
    if n == 0 then []
    else
      RecipientsTo(lines, n - 1)
      + (if PlaceOf(lines, n - 1).AsRecipients? then ReadableAddresses(Words(lines[n - 1][2..])) else [])
  }

  function StampsTo(lines: seq<string>, n: nat): seq<DateTime>
    requires n <= |lines|
  {
    if n == 0 then []
    else
      var p := PlaceOf(lines, n - 1);
      StampsTo(lines, n - 1) + (if p.AsTimestamp? then [p.t] else [])
  }

  function BodyTo(lines: seq<string>, n: nat): seq<string>
    requires n <= |lines|
  {
    if n == 0 then []
    else BodyTo(lines, n - 1) + (if PlaceOf(lines, n - 1).AsBody? then [lines[n - 1]] else [])
  }

  function ScanLines(lines: seq<string>): Message {
    var n := |lines|;
    Message(SendersTo(lines, n), RecipientsTo(lines, n), StampsTo(lines, n), Join(BodyTo(lines, n), "\n"))
  }

  /** `GemmailMessage.from_bytes_b`. */
  function FromBytesB(data: seq<byte>): Result<Message, FormatError> {
    match Decode(data)
    case None => Failure(InvalidUtf8)
    case Some(text) =>
      if !CrOnlyBeforeLf(text) then Failure(StrayCr)
      else Success(ScanLines(Split(NormalizeNewlines(text), '\n')))
  }

  predicate SomeMarked(lines: seq<string>, mark: string, n: nat)
    requires n <= |lines|
  {
    exists j | 0 <= j < n :: mark <= lines[j]
  }

  lemma SomeMarkedStep(lines: seq<string>, mark: string, n: nat)
    requires n < |lines|
    ensures SomeMarked(lines, mark, n + 1) <==> SomeMarked(lines, mark, n) || mark <= lines[n]
  {
  }

  /** No line carries two marks. */
  lemma MarksDiffer(line: string)
    ensures SENDER_MARK <= line ==> !(RECIPIENTS_MARK <= line) && !(STAMP_MARK <= line)
    ensures RECIPIENTS_MARK <= line ==> !(STAMP_MARK <= line)
  {
    if |line| >= 2 {
      assert SENDER_MARK <= line ==> line[0] == SENDER_MARK[0];
      assert RECIPIENTS_MARK <= line ==> line[0] == RECIPIENTS_MARK[0];
      assert STAMP_MARK <= line ==> line[0] == STAMP_MARK[0];
    }
  }

  /** `_parse_b_metadata`: one pass with two flags. */
  method ParseBMetadata(lines: seq<string>)
    returns (senders: seq<Address>, recipients: seq<Address>, timestamps: seq<DateTime>, body: string)
    ensures Message(senders, recipients, timestamps, body) == ScanLines(lines)
  {
    hide ParseAddress, ParseStamp, Words, ReadableAddresses;
    senders, recipients, timestamps := [], [], [];
    var bodyLines: seq<string> := [];
    var recipientsFound, timestampFound := false, false;
    for i := 0 to |lines|
      invariant senders == SendersTo(lines, i) && recipients == RecipientsTo(lines, i)
      invariant timestamps == StampsTo(lines, i) && bodyLines == BodyTo(lines, i)
      invariant recipientsFound <==> SomeMarked(lines, RECIPIENTS_MARK, i)
      invariant timestampFound <==> SomeMarked(lines, STAMP_MARK, i)
    {
      var line := lines[i];
      MarksDiffer(line);
      SomeMarkedStep(lines, RECIPIENTS_MARK, i);
      SomeMarkedStep(lines, STAMP_MARK, i);
      if SENDER_MARK <= line {
        match ParseAddress(line[2..])
        case Success(a) => senders := senders + [a];
        case Failure(_) => bodyLines := bodyLines + [line];
      } else if !recipientsFound && RECIPIENTS_MARK <= line {
        recipientsFound := true;
        var found := ParseTokens(Words(line[2..]));
        recipients := recipients + found;
      } else if !timestampFound && STAMP_MARK <= line {
        timestampFound := true;
        match ParseStamp(Strip(line[2..]))
        case Some(t) => timestamps := timestamps + [t];
        case None => bodyLines := bodyLines + [line];
      } else {
        bodyLines := bodyLines + [line];
      }
    }
    body := Join(bodyLines, "\n");
  }

  method ParseTokens(words: seq<string>) returns (found: seq<Address>)
    ensures found == ReadableAddresses(words)
  {
    hide ParseAddress;
    found := [];
    for i := 0 to |words|
      invariant found == ReadableAddresses(words[..i])
    {
      assert words[..i + 1][..i] == words[..i];
      match ParseAddress(words[i])
      case Success(a) => found := found + [a];
      case Failure(_) =>
    }
    assert words[..|words|] == words;
  }

  // -- Every line goes to exactly one place --

  /** No line is lost or used twice: senders, body, at most one timestamp and one recipients line. */
  lemma {:induction false} LinesAccountedFor(lines: seq<string>, n: nat)
    requires n <= |lines|
    ensures |SendersTo(lines, n)| + |BodyTo(lines, n)| + |StampsTo(lines, n)|
            + Bit(SomeMarked(lines, RECIPIENTS_MARK, n)) == n
    ensures |StampsTo(lines, n)| <= Bit(SomeMarked(lines, STAMP_MARK, n))
  {
    hide ParseAddress, ParseStamp;
    if n > 0 {
      LinesAccountedFor(lines, n - 1);
      var line := lines[n - 1];
      MarksDiffer(line);
      SomeMarkedStep(lines, RECIPIENTS_MARK, n - 1);
      SomeMarkedStep(lines, STAMP_MARK, n - 1);
    }
  }

  ghost predicate Increasing(idx: seq<nat>, bound: nat) {
    && (forall i, j | 0 <= i < j < |idx| :: idx[i] < idx[j])
    && (forall i | 0 <= i < |idx| :: idx[i] < bound)
  }

  /** The body consists of the lines placed in it, all of them, in their original order. */
  lemma {:induction false} BodyKeepsOrder(lines: seq<string>, n: nat) returns (idx: seq<nat>)
    requires n <= |lines|
    ensures Increasing(idx, n) && |idx| == |BodyTo(lines, n)|
    ensures forall k | 0 <= k < |idx| :: BodyTo(lines, n)[k] == lines[idx[k]]
    ensures forall i | 0 <= i < n :: PlaceOf(lines, i).AsBody? <==> i in idx
  {
    hide PlaceOf;
    idx := [];
    if n > 0 {
      idx := BodyKeepsOrder(lines, n - 1);
      if PlaceOf(lines, n - 1).AsBody? { idx := idx + [n - 1]; }
    }
  }

  /** A single line without a mark is the whole message. */
  lemma UnmarkedLine(line: string)
    requires !(SENDER_MARK <= line) && !(RECIPIENTS_MARK <= line) && !(STAMP_MARK <= line)
    ensures ScanLines([line]) == Message([], [], [], line)
  {
    var lines := [line];
    assert PlaceOf(lines, 0) == AsBody;
    assert BodyTo(lines, 1) == [] + [line];
    assert SendersTo(lines, 1) == [] && RecipientsTo(lines, 1) == [] && StampsTo(lines, 1) == [];
  }

  // -- What a scanned message looks like --

  lemma {:induction false} SenderOrigin(lines: seq<string>, n: nat, a: Address) returns (i: nat)
    requires n <= |lines| && a in SendersTo(lines, n)
    ensures i < n && SENDER_MARK <= lines[i] && ParseAddress(lines[i][2..]) == Success(a)
  {
    hide ParseAddress, ParseStamp;
    if PlaceOf(lines, n - 1) == AsSender(a) { i := n - 1; } else { i := SenderOrigin(lines, n - 1, a); }
  }

  lemma {:induction false} ReadableOrigin(words: seq<string>, a: Address) returns (w: string)
    requires a in ReadableAddresses(words)
    ensures w in words && ParseAddress(w) == Success(a)
  {
    var last := words[|words| - 1];
    if ParseAddress(last) == Success(a) {
      w := last;
    } else {
      w := ReadableOrigin(words[..|words| - 1], a);
    }
  }

  lemma {:induction false} WordCharacters(s: string, w: string, c: char)
    requires w in Words(s) && c in w
    ensures c in s
    decreases |s|
  {
    var t := LStrip(s);
    LStripSlice(s);
    var n := RunLength(t);
    if w != t[..n] { WordCharacters(t[n..], w, c); }
  }

  lemma {:induction false} RecipientOrigin(lines: seq<string>, n: nat, a: Address) returns (i: nat, w: string)
    requires n <= |lines| && a in RecipientsTo(lines, n)
    ensures i < n && |lines[i]| >= 2 && w in Words(lines[i][2..]) && ParseAddress(w) == Success(a)
  {
    hide ParseAddress, Words;
    if a in RecipientsTo(lines, n - 1) {
      i, w := RecipientOrigin(lines, n - 1, a);
    } else {
      i := n - 1;
      w := ReadableOrigin(Words(lines[i][2..]), a);
    }
  }

  lemma {:induction false} StampOrigin(lines: seq<string>, n: nat, t: DateTime)
    requires n <= |lines| && t in StampsTo(lines, n)
    ensures Valid(t)
  {
    hide ParseAddress;
    if t in StampsTo(lines, n - 1) { StampOrigin(lines, n - 1, t); }
  }

  lemma {:induction false} BodyOrigin(lines: seq<string>, n: nat, line: string)
    requires n <= |lines| && line in BodyTo(lines, n)
    ensures line in lines
  {
    hide PlaceOf;
    if line in BodyTo(lines, n - 1) { BodyOrigin(lines, n - 1, line); }
  }

  predicate CommaFree(a: Address) {
    ',' !in a.mailbox && ',' !in a.hostname
  }

  lemma ReadAddressSafe(text: string, a: Address)
    requires ParseAddress(text) == Success(a) && LineFree(text)
    ensures ListSafe(a) <==> CommaFree(a)
  {
    hide ParseAddress, Canonical;
    ParsedIsCanonical(text);
    forall c | c in a.mailbox || c in a.hostname || c in a.blurb ensures c in text {
      ParsedCharacters(text, c);
    }
    assert Canonical(a) ==> ',' !in a.blurb by { BlurbHasNoComma(a); }
  }

  lemma BlurbHasNoComma(a: Address)
    ensures Canonical(a) ==> ',' !in a.blurb
  {
  }

  /** Every address of a scanned message comes from a text on one line. */
  lemma ScannedAddress(lines: seq<string>, a: Address)
    requires forall p | p in lines :: LineFree(p)
    requires a in SendersTo(lines, |lines|) || a in RecipientsTo(lines, |lines|)
    ensures ListSafe(a) <==> CommaFree(a)
  {
    hide ListSafe, PlaceOf, ParseAddress, Words;
    var n := |lines|;
    if a in SendersTo(lines, n) {
      var i := SenderOrigin(lines, n, a);
      assert LineFree(lines[i]) && forall c | c in lines[i][2..] :: c in lines[i];
      ReadAddressSafe(lines[i][2..], a);
    } else {
      var i, w := RecipientOrigin(lines, n, a);
      forall c | c in w ensures c in lines[i] { WordCharacters(lines[i][2..], w, c); }
      assert LineFree(lines[i]);
      ReadAddressSafe(w, a);
    }
  }

  /** The lines that a B message is scanned by. */
  function LinesOf(data: seq<byte>): seq<string>
    requires Decode(data).Some?
  {
    Split(NormalizeNewlines(Decode(data).value), '\n')
  }

  lemma LinesAreLineFree(data: seq<byte>)
    requires FromBytesB(data).Success?
    ensures forall p | p in LinesOf(data) :: LineFree(p)
  {
    hide Split, NormalizeNewlines, ScanLines;
    var source := Decode(data).value;
    NormalizedIsCrFree(source);
    forall p | p in LinesOf(data) ensures LineFree(p) {
      SplitPieces(NormalizeNewlines(source), '\n', p);
    }
  }

  /** A scanned message has a body without CR and real times, and reads back unless an address holds a comma. */
  lemma ScannedIsPrintable(data: seq<byte>)
    requires FromBytesB(data).Success?
    ensures var m := FromBytesB(data).value;
            && '\r' !in m.body && (forall t | t in m.timestamps :: Valid(t))
            && (forall a | a in m.senders || a in m.recipients :: ListSafe(a) <==> CommaFree(a))
            && (Printable(m) <==> forall a | a in m.senders || a in m.recipients :: CommaFree(a))
  {
    hide Split, NormalizeNewlines, Join, ListSafe, PlaceOf, ParseAddress, Words, CommaFree;
    var m := FromBytesB(data).value;
    LinesAreLineFree(data);
    var lines := LinesOf(data);
    var n := |lines|;
    forall a | a in m.senders || a in m.recipients ensures ListSafe(a) <==> CommaFree(a) {
      ScannedAddress(lines, a);
    }
    forall t | t in m.timestamps ensures Valid(t) {
      StampOrigin(lines, n, t);
    }
    forall c | c in m.body && c != '\n' ensures c != '\r' {
      JoinPieces(BodyTo(lines, n), c);
      var p :| p in BodyTo(lines, n) && c in p;
      BodyOrigin(lines, n, p);
      assert LineFree(p);
    }
  }
}
