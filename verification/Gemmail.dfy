/** Gemmail messages: addresses, metadata lines, body; the C form and its printer. */
module Gemmail {
  import opened Wrappers
  import opened Text
  import opened Calendar
  import Request

  datatype FormatError =
    | InvalidUtf8 | StrayCr | TooFewLines | LineTooLong
    | EmptyAddress | CommaInBlurb | AtInBlurb | InvalidAddress | InvalidTimestamp

  datatype Address = Address(mailbox: string, hostname: string, blurb: string) {
    function Text(): string {
      mailbox + "@" + hostname
    }

    /** `__str__`. */
    function Print(): string {
      if blurb != "" then Text() + " " + blurb else Text()
    }
  }

  datatype Message = Message(
    senders: seq<Address>, recipients: seq<Address>, timestamps: seq<DateTime>, body: string)

  // -- Addresses --

  function ParseAddress(text: string): Result<Address, FormatError> {
    var t := Strip(text);
    if t == "" then Failure(EmptyAddress)
    else
      var space := IndexOf(t, ' ');
      var blurb := if space < |t| then Strip(t[space + 1..]) else "";
      if ',' in blurb then Failure(CommaInBlurb)
      else if '@' in blurb then Failure(AtInBlurb)
      else match Request.SplitAddress(t[..space]) {
        case Failure(_) => Failure(InvalidAddress)
        case Success((mailbox, hostname)) => Success(Address(mailbox, hostname, blurb))
      }
  }

  /** The addresses that survive printing and parsing unchanged. */
  predicate Canonical(a: Address) {
    && a.mailbox != "" && a.hostname != "" && '@' !in a.hostname
    && ' ' !in a.mailbox && ' ' !in a.hostname
    && ',' !in a.blurb && '@' !in a.blurb && Trimmed(a.blurb)
    && !IsSpace(a.mailbox[0])
    && (a.blurb == "" ==> !IsSpace(a.hostname[|a.hostname| - 1]))
  }

  lemma PrintIsTrimmed(a: Address)
    requires Canonical(a)
    ensures a.Print() != "" && Trimmed(a.Print())
  {
  }

  lemma ParseBare(a: Address)
    requires Canonical(a) && a.blurb == ""
    ensures ParseAddress(a.Text()) == Success(a)
  {
    hide IsSpace, Strip;
    var t := a.Text();
    assert Strip(t) == t by { PrintIsTrimmed(a); StripTrimmed(t); }
    assert ' ' !in t;
    assert IndexOf(t, ' ') == |t| && t[..|t|] == t;
    Request.SplitJoinedAddress(a.mailbox, a.hostname);
  }

  lemma ParseWithBlurb(a: Address)
    requires Canonical(a) && a.blurb != ""
    ensures ParseAddress(a.Text() + " " + a.blurb) == Success(a)
  {
    hide IsSpace, Strip;
    var address := a.Text();
    var t := address + " " + a.blurb;
    assert Strip(t) == t by { PrintIsTrimmed(a); StripTrimmed(t); }
    assert ' ' !in address;
    IndexOfAt(address, ' ', a.blurb);
    assert t == address + [' '] + a.blurb;
    assert t[..|address|] == address && t[|address| + 1..] == a.blurb;
    assert Strip(a.blurb) == a.blurb by { StripTrimmed(a.blurb); }
    Request.SplitJoinedAddress(a.mailbox, a.hostname);
  }

  lemma ParsePrintedAddress(a: Address)
    requires Canonical(a)
    ensures ParseAddress(a.Print()) == Success(a)
  {
    hide ParseAddress, Canonical;
    if a.blurb == "" { ParseBare(a); } else { ParseWithBlurb(a); }
  }

  lemma LastKept(t: string, i: nat)
    requires i < |t| && !IsSpace(t[|t| - 1])
    ensures Strip(t[i..]) != ""
  {
    StripBlank(t[i..]);
    assert t[i..][|t| - i - 1] in t[i..];
  }

  lemma ParsedIsCanonical(text: string)
    requires ParseAddress(text).Success?
    ensures Canonical(ParseAddress(text).value)
  {
    hide Strip, IsSpace;
    var t := Strip(text);
    var space := IndexOf(t, ' ');
    var a := ParseAddress(text).value;
    var address := t[..space];
    assert address == a.mailbox + "@" + a.hostname;
    assert a.mailbox[0] == t[0];
    assert ' ' !in a.mailbox by { assert a.mailbox == address[..|a.mailbox|]; }
    assert ' ' !in a.hostname by { assert a.hostname == address[|a.mailbox| + 1..]; }
    if space < |t| {
      LastKept(t, space + 1) by { assert t[space] == ' ' && IsSpace(' ') by { SpaceIsSpace(); } }
    } else {
      assert address == t;
    }
  }

  lemma SpaceIsSpace()
    ensures IsSpace(' ')
  {
  }

  /** Printing then parsing gives an address back exactly when it is canonical. */
  lemma CanonicalExact(a: Address)
    ensures ParseAddress(a.Print()) == Success(a) <==> Canonical(a)
  {
    if Canonical(a) {
      ParsePrintedAddress(a);
    } else if ParseAddress(a.Print()) == Success(a) {
      ParsedIsCanonical(a.Print());
    }
  }

  lemma ParsedCharacters(text: string, c: char)
    requires ParseAddress(text).Success?
    requires var a := ParseAddress(text).value; c in a.mailbox || c in a.hostname || c in a.blurb
    ensures c in text
  {
    hide Strip, IsSpace;
    var t := Strip(text);
    var space := IndexOf(t, ' ');
    var a := ParseAddress(text).value;
    assert t[..space] == a.mailbox + "@" + a.hostname;
    assert c in t by {
      if c in a.blurb {
        StripCharacters(t[space + 1..], c);
      } else {
        assert c in t[..space];
      }
    }
    StripCharacters(text, c);
  }

  // -- Comma-separated lists --

  type ItemParser<T> = string -> Result<T, FormatError>

  /** The items in order, blank ones skipped; the first unreadable one decides the error. */
  function ParseItems<T>(parse: ItemParser<T>, items: seq<string>): Result<seq<T>, FormatError> {
    if items == [] then Success([])
    else
      var item := Strip(items[0]);
      if item == "" then ParseItems(parse, items[1..])
      else
        var x :- parse(item);
        var rest :- ParseItems(parse, items[1..]);
        Success([x] + rest)
  }

  function ParseLine<T>(parse: ItemParser<T>, line: string): Result<seq<T>, FormatError> {
    var t := Strip(line);
    if t == "" then Success([]) else ParseItems(parse, Split(t, ','))
  }

  function Map<S, T>(f: S -> T, xs: seq<S>): (ys: seq<T>)
    ensures |ys| == |xs|
  {
    if xs == [] then [] else [f(xs[0])] + Map(f, xs[1..])
  }

  function PrintLine<T>(show: T -> string, xs: seq<T>): string {
    Join(Map(show, xs), ", ")
  }

  /** Printing an item gives text that a list line can hold and that reads back as `read` of it. */
  ghost predicate Listable<T>(parse: ItemParser<T>, show: T -> string, read: T -> T, x: T) {
    && show(x) != "" && Trimmed(show(x)) && ',' !in show(x)
    && parse(show(x)) == Success(read(x))
  }

  lemma LeadStripped(lead: string, text: string)
    requires (lead == "" || lead == " ") && Trimmed(text)
    ensures Strip(lead + text) == text
  {
    StripTrimmed(text);
    if lead == " " { StripLeading(' ', text); } else { assert lead + text == text; }
  }

  lemma PrintLineStep<T>(show: T -> string, xs: seq<T>)
    requires |xs| > 1
    ensures PrintLine(show, xs) == show(xs[0]) + ", " + PrintLine(show, xs[1..])
  {
    assert Map(show, xs)[1..] == Map(show, xs[1..]);
  }

  lemma ItemsStep<T>(parse: ItemParser<T>, first: string, rest: seq<string>)
    requires Strip(first) != "" && parse(Strip(first)).Success? && ParseItems(parse, rest).Success?
    ensures ParseItems(parse, [first] + rest)
            == Success([parse(Strip(first)).value] + ParseItems(parse, rest).value)
  {
    assert ([first] + rest)[1..] == rest;
  }

  lemma {:induction false} ItemsRoundTrip<T>(
      parse: ItemParser<T>, show: T -> string, read: T -> T, xs: seq<T>, lead: string)
    requires xs != [] && (lead == "" || lead == " ")
    requires forall x | x in xs :: Listable(parse, show, read, x)
    ensures ParseItems(parse, Split(lead + PrintLine(show, xs), ',')) == Success(Map(read, xs))
    decreases |xs|
  {
    hide Split, Strip, Join, IsSpace, Trimmed;
    var (x, rest) := (xs[0], xs[1..]);
    var item := lead + show(x);
    assert Listable(parse, show, read, x);
    LeadStripped(lead, show(x));
    if rest == [] {
      assert PrintLine(show, xs) == show(x) by { SingleItem(show, xs); }
      SplitWhole(item, ',');
      ItemsStep(parse, item, []);
      assert [item] + [] == [item];
    } else {
      assert forall y | y in rest :: y in xs;
      ItemsRoundTrip(parse, show, read, rest, " ");
      var tail := " " + PrintLine(show, rest);
      PrintLineStep(show, xs);
      assert lead + PrintLine(show, xs) == item + [','] + tail;
      SplitStep(item, ',', tail);
      ItemsStep(parse, item, Split(tail, ','));
    }
  }

  lemma SingleItem<T>(show: T -> string, xs: seq<T>)
    requires |xs| == 1
    ensures PrintLine(show, xs) == show(xs[0])
  {
  }

  lemma {:induction false} LineIsTrimmed<T>(parse: ItemParser<T>, show: T -> string, read: T -> T, xs: seq<T>)
    requires forall x | x in xs :: Listable(parse, show, read, x)
    ensures Trimmed(PrintLine(show, xs))
    ensures xs != [] ==> PrintLine(show, xs) != ""
    decreases |xs|
  {
    if xs != [] {
      assert Listable(parse, show, read, xs[0]);
      var texts := Map(show, xs);
      assert texts[1..] == Map(show, xs[1..]);
      if |xs| > 1 {
        assert forall y | y in xs[1..] :: y in xs;
        LineIsTrimmed(parse, show, read, xs[1..]);
      }
    }
  }

  /** A printed list line reads back item by item. */
  lemma LineRoundTrip<T>(parse: ItemParser<T>, show: T -> string, read: T -> T, xs: seq<T>)
    requires forall x | x in xs :: Listable(parse, show, read, x)
    ensures ParseLine(parse, PrintLine(show, xs)) == Success(Map(read, xs))
  {
    LineIsTrimmed(parse, show, read, xs);
    StripTrimmed(PrintLine(show, xs));
    if xs != [] {
      ItemsRoundTrip(parse, show, read, xs, "");
      assert "" + PrintLine(show, xs) == PrintLine(show, xs);
    }
  }

  lemma {:induction false} LineCharacters<T>(show: T -> string, xs: seq<T>, c: char)
    requires c in PrintLine(show, xs)
    ensures c == ',' || c == ' ' || exists x :: x in xs && c in show(x)
  {
    var texts := Map(show, xs);
    JoinCharacters(texts, ", ", c);
    if c != ',' && c != ' ' {
      var p :| p in texts && c in p;
      MappedFrom(show, xs, p);
    }
  }

  lemma {:induction false} MappedFrom<S, T>(f: S -> T, xs: seq<S>, y: T)
    requires y in Map(f, xs)
    ensures exists x :: x in xs && f(x) == y
  {
    if y == f(xs[0]) {
      assert xs[0] in xs;
    } else {
      MappedFrom(f, xs[1..], y);
      var x :| x in xs[1..] && f(x) == y;
      assert x in xs;
    }
  }

  function PrintAddress(a: Address): string {
    a.Print()
  }

  function ParseTimestamp(item: string): Result<DateTime, FormatError> {
    match ParseStamp(item)
    case None => Failure(InvalidTimestamp)
    case Some(t) => Success(t)
  }

  function Prefixed<T>(done: seq<T>, rest: Result<seq<T>, FormatError>): Result<seq<T>, FormatError> {
    match rest
    case Failure(e) => Failure(e)
    case Success(xs) => Success(done + xs)
  }

  lemma NonePrefixed<T>(rest: Result<seq<T>, FormatError>)
    ensures Prefixed([], rest) == rest
  {
    if rest.Success? { assert [] + rest.value == rest.value; }
  }

  /** One turn of the loop over the items of a line. */
  lemma ItemTurn<T>(parse: ItemParser<T>, items: seq<string>, i: nat, done: seq<T>)
    requires i < |items|
    ensures var item := Strip(items[i]);
            Prefixed(done, ParseItems(parse, items[i..]))
            == if item == "" then Prefixed(done, ParseItems(parse, items[i + 1..]))
               else match parse(item) {
                 case Failure(e) => Failure(e)
                 case Success(x) => Prefixed(done + [x], ParseItems(parse, items[i + 1..]))
               }
  {
    assert items[i..][1..] == items[i + 1..];
    match ParseItems(parse, items[i + 1..])
    case Failure(_) =>
    case Success(xs) =>
      if parse(Strip(items[i])).Success? {
        var x := parse(Strip(items[i])).value;
        assert done + ([x] + xs) == done + [x] + xs;
      }
  }

  /** `_parse_address_line`: the loop appends what each item parses to. */
  method ParseAddressLine(line: string) returns (r: Result<seq<Address>, FormatError>)
    ensures r == ParseLine(ParseAddress, line)
  {
    hide ParseAddress, ParseItems;
    var text := Strip(line);
    if text == "" {
      return Success([]);
    }
    var items := Split(text, ',');
    var addresses: seq<Address> := [];
    NonePrefixed(ParseItems(ParseAddress, items));
    assert items[0..] == items;
    for i := 0 to |items|
      invariant ParseItems(ParseAddress, items) == Prefixed(addresses, ParseItems(ParseAddress, items[i..]))
    {
      ItemTurn(ParseAddress, items, i, addresses);
      var item := Strip(items[i]);
      if item != "" {
        match ParseAddress(item)
        case Failure(e) => return Failure(e);
        case Success(a) => addresses := addresses + [a];
      }
    }
    NoItems(ParseAddress, items[|items|..]);
    assert addresses + [] == addresses;
    return Success(addresses);
  }

  /** `_parse_timestamp_line`. */
  method ParseTimestampLine(line: string) returns (r: Result<seq<DateTime>, FormatError>)
    ensures r == ParseLine(ParseTimestamp, line)
  {
    hide ParseTimestamp, ParseItems;
    var text := Strip(line);
    if text == "" {
      return Success([]);
    }
    var items := Split(text, ',');
    var timestamps: seq<DateTime> := [];
    NonePrefixed(ParseItems(ParseTimestamp, items));
    assert items[0..] == items;
    for i := 0 to |items|
      invariant ParseItems(ParseTimestamp, items) == Prefixed(timestamps, ParseItems(ParseTimestamp, items[i..]))
    {
      ItemTurn(ParseTimestamp, items, i, timestamps);
      var item := Strip(items[i]);
      if item != "" {
        match ParseTimestamp(item)
        case Failure(e) => return Failure(e);
        case Success(t) => timestamps := timestamps + [t];
      }
    }
    NoItems(ParseTimestamp, items[|items|..]);
    assert timestamps + [] == timestamps;
    return Success(timestamps);
  }

  lemma NoItems<T>(parse: ItemParser<T>, items: seq<string>)
    requires items == []
    ensures ParseItems(parse, items) == Success([])
  {
  }
}
