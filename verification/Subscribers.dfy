/** `subscribers.txt`: a text file that stands for an ordered set of addresses. */
module Subscribers {
  import opened Wrappers
  import opened Text

  /** The separators of `str.splitlines`, in text whose newlines `read_text` has already translated. */
  predicate IsBreak(c: char) {
    var n := c as int;
    n == 0x0A || n == 0x0B || n == 0x0C || 0x1C <= n <= 0x1E || n == 0x85 || n == 0x2028 || n == 0x2029
  }

  predicate BreakFree(s: string) {
    forall c | c in s :: !IsBreak(c)
  }

  /** The stretches between separators, with a last one that may be empty. */
  function Pieces(s: string): (ps: seq<string>)
    ensures |ps| >= 1
  {
    if s == "" then [""]
    else
      var rest := Pieces(s[1..]);
      if IsBreak(s[0]) then [""] + rest else [[s[0]] + rest[0]] + rest[1..]
  }

  function LastPiece(s: string): string {
    Pieces(s)[|Pieces(s)| - 1]
  }

  /** `s.splitlines()`. */
  function SplitLines(s: string): seq<string> {
    var ps := Pieces(s);
    if ps[|ps| - 1] == "" then ps[..|ps| - 1] else ps
  }

  predicate AddressChar(c: char) {
    IsDigit(c) || 'a' <= c <= 'z' || 'A' <= c <= 'Z' || c == '.' || c == '_' || c == '-'
  }

  /** `[a-zA-Z0-9._-]+@[a-zA-Z0-9._-]+`. */
  predicate ValidAddress(s: string) {
    var at := IndexOf(s, '@');
    && 0 < at && at + 1 < |s|
    && (forall c | c in s[..at] :: AddressChar(c)) && (forall c | c in s[at + 1..] :: AddressChar(c))
  }

  /** The subscriber a line names, in lower case; comments, blanks and malformed lines name none. */
  function Named(line: string): Option<string> {
    var t := Strip(line);
    if t == "" || t[0] == '#' || !ValidAddress(t) then None else Some(Lower(t))
  }

  function NamedIn(lines: seq<string>): seq<string> {
    if lines == [] then []
    else (match Named(lines[0]) case Some(a) => [a] case None => []) + NamedIn(lines[1..])
  }

  /** `load_subscribers`. */
  function Load(text: string): seq<string> {
    NamedIn(SplitLines(Strip(text)))
  }

  function Normal(address: string): string {
    Lower(Strip(address))
  }

  /** What was written, as `read_text` returns it: CRLF and lone CR become LF. */
  function AsRead(s: string): string
    decreases |s|
  {
    if s == "" then ""
    else if s[0] != '\r' then [s[0]] + AsRead(s[1..])
    else ['\n'] + AsRead(if |s| >= 2 && s[1] == '\n' then s[2..] else s[1..])
  }

  /** The file after `add_subscriber`. */
  function Added(text: string, address: string): string {
    var a := Normal(address);
    if a in Load(text) then text else text + AsRead(a) + "\n"
  }

  function Others(lines: seq<string>, a: string): seq<string> {
    if lines == [] then []
    else (if Normal(lines[0]) != a then [lines[0]] else []) + Others(lines[1..], a)
  }

  /** The file after `remove_subscriber`. */
  function Removed(text: string, address: string): string {
    var a := Normal(address);
    if a !in Load(text) then text else Join(Others(SplitLines(text), a), "\n") + "\n"
  }

  /** `is_subscriber`. */
  predicate IsSubscriber(address: string, subscribers: seq<string>) {
    Lower(address) in subscribers
  }

  class SubscribersFile {
    var text: string  // as `read_text` returns it

    constructor (text: string)
      ensures this.text == text
    {
      this.text := text;
    }

    method LoadSubscribers() returns (addresses: seq<string>)
      ensures addresses == Load(text)
    {
      hide Named, SplitLines, Strip, NamedIn;
      var lines := SplitLines(Strip(text));
      addresses := [];
      assert lines[0..] == lines && addresses + NamedIn(lines) == NamedIn(lines);
      for i := 0 to |lines|
        invariant NamedIn(lines) == addresses + NamedIn(lines[i..])
      {
        NamedTurn(lines, i, addresses);
        match Named(lines[i])
        case Some(a) => addresses := addresses + [a];
        case None =>
      }
      assert NamedIn(lines[|lines|..]) == [] by { NamedInNone(lines[|lines|..]); }
      assert addresses + [] == addresses;
    }

    /** False when the address is there already. */
    method AddSubscriber(address: string) returns (added: bool)
      modifies this
      ensures added <==> Normal(address) !in Load(old(text))
      ensures text == Added(old(text), address)
    {
      var existing := LoadSubscribers();
      var a := Normal(address);
      added := a !in existing;
      if added { text := text + AsRead(a) + "\n"; }
    }

    /** False when the address is not there. */
    method RemoveSubscriber(address: string) returns (removed: bool)
      modifies this
      ensures removed <==> Normal(address) in Load(old(text))
      ensures text == Removed(old(text), address)
    {
      hide Strip, SplitLines;
      var existing := LoadSubscribers();
      var a := Normal(address);
      removed := a in existing;
      if removed {
        var kept := OtherLines(SplitLines(text), a);
        text := Join(kept, "\n") + "\n";
      }
    }

    static method OtherLines(lines: seq<string>, a: string) returns (kept: seq<string>)
      ensures kept == Others(lines, a)
    {
      hide Normal, Others;
      kept := [];
      assert lines[0..] == lines && kept + Others(lines, a) == Others(lines, a);
      for i := 0 to |lines|
        invariant Others(lines, a) == kept + Others(lines[i..], a)
      {
        OthersTurn(lines, i, a, kept);
        if Normal(lines[i]) != a { kept := kept + [lines[i]]; }
      }
      assert Others(lines[|lines|..], a) == [] by { OthersNone(lines[|lines|..], a); }
      assert kept + [] == kept;
    }
  }

  lemma NamedInNone(lines: seq<string>)
    requires lines == []
    ensures NamedIn(lines) == []
  {
  }

  lemma OthersNone(lines: seq<string>, a: string)
    requires lines == []
    ensures Others(lines, a) == []
  {
  }

  lemma NamedTurn(lines: seq<string>, i: nat, done: seq<string>)
    requires i < |lines|
    ensures done + NamedIn(lines[i..])
            == (match Named(lines[i]) case Some(a) => done + [a] case None => done) + NamedIn(lines[i + 1..])
  {
    hide Named;
    assert lines[i..][1..] == lines[i + 1..];
  }

  lemma OthersTurn(lines: seq<string>, i: nat, a: string, done: seq<string>)
    requires i < |lines|
    ensures done + Others(lines[i..], a)
            == (if Normal(lines[i]) != a then done + [lines[i]] else done) + Others(lines[i + 1..], a)
  {
    hide Normal;
    assert lines[i..][1..] == lines[i + 1..];
  }

  // -- Laws of splitting --

  lemma PiecesCons(c: char, s: string)
    ensures Pieces([c] + s) == if IsBreak(c) then [""] + Pieces(s) else [[c] + Pieces(s)[0]] + Pieces(s)[1..]
  {
    assert ([c] + s)[1..] == s;
  }

  lemma {:induction false} PiecesAtBreak(a: string, c: char, b: string)
    requires IsBreak(c)
    ensures Pieces(a + [c] + b) == Pieces(a) + Pieces(b)
  {
    hide IsBreak, Pieces;
    if a == "" {
      PiecesCons(c, b);
      assert a + [c] + b == [c] + b;
      assert Pieces("") == [""] by { PiecesOfNothing(); }
    } else {
      var tail := a[1..] + [c] + b;
      PiecesAtBreak(a[1..], c, b);
      assert a + [c] + b == [a[0]] + tail && a == [a[0]] + a[1..];
      PiecesCons(a[0], tail);
      PiecesCons(a[0], a[1..]);
    }
  }

  lemma PiecesOfNothing()
    ensures Pieces("") == [""]
  {
  }

  lemma {:induction false} PiecesWhole(t: string)
    requires BreakFree(t)
    ensures Pieces(t) == [t]
  {
    if t != "" {
      PiecesWhole(t[1..]);
      assert t == [t[0]] + t[1..];
    }
  }

  /** Text without separators extends the last piece. */
  lemma {:induction false} PiecesExtended(s: string, t: string)
    requires BreakFree(t)
    ensures Pieces(s + t) == Pieces(s)[..|Pieces(s)| - 1] + [LastPiece(s) + t]
  {
    hide IsBreak, Pieces;
    if s == "" {
      assert s + t == t;
      PiecesWhole(t);
      PiecesOfNothing();
    } else {
      PiecesExtended(s[1..], t);
      var (c, rest, longer) := (s[0], Pieces(s[1..]), Pieces(s[1..] + t));
      assert s + t == [c] + (s[1..] + t) && s == [c] + s[1..];
      PiecesCons(c, s[1..]);
      PiecesCons(c, s[1..] + t);
      if |rest| == 1 {
        assert [c] + (rest[0] + t) == ([c] + rest[0]) + t;
      } else {
        assert longer[0] == rest[0] && longer[1..] == rest[1..][..|rest| - 2] + [LastPiece(s[1..]) + t];
      }
    }
  }

  lemma {:induction false} PiecesBreakFree(s: string, p: string)
    requires p in Pieces(s)
    ensures BreakFree(p)
  {
    if s != "" {
      var rest := Pieces(s[1..]);
      assert rest[0] in rest;
      if p in rest { PiecesBreakFree(s[1..], p); } else { PiecesBreakFree(s[1..], rest[0]); }
    }
  }

  lemma {:induction false} NamedInConcat(a: seq<string>, b: seq<string>)
    ensures NamedIn(a + b) == NamedIn(a) + NamedIn(b)
  {
    hide Named;
    if a == [] {
      assert a + b == b;
    } else {
      assert (a + b)[1..] == a[1..] + b;
      NamedInConcat(a[1..], b);
    }
  }

  lemma NamedInOne(line: string)
    ensures NamedIn([line]) == match Named(line) case Some(a) => [a] case None => []
  {
    assert [line][1..] == [];
  }

  // -- Stripping the whole text loses no subscriber --

  function LoadPieces(s: string): seq<string> {
    NamedIn(Pieces(s))
  }

  lemma LoadIsLoadPieces(s: string)
    ensures NamedIn(SplitLines(s)) == LoadPieces(s)
  {
    var ps := Pieces(s);
    if ps[|ps| - 1] == "" {
      NamedInConcat(ps[..|ps| - 1], [""]);
      assert ps == ps[..|ps| - 1] + [""];
      NamedInOne("");
    }
  }

  lemma SpaceBefore(c: char, p: string)
    requires IsSpace(c)
    ensures Named([c] + p) == Named(p)
  {
    StripLeading(c, p);
  }

  lemma {:induction false} LStripTrailing(p: string, c: char)
    requires IsSpace(c)
    ensures LStrip(p + [c]) == if Blank(p) then "" else LStrip(p) + [c]
  {
    if p == "" {
      assert p + [c] == [c] && [c][1..] == "";
    } else {
      assert (p + [c])[0] == p[0] && (p + [c])[1..] == p[1..] + [c];
      assert Blank(p) <==> IsSpace(p[0]) && Blank(p[1..]) by { assert p == [p[0]] + p[1..]; }
      if IsSpace(p[0]) { LStripTrailing(p[1..], c); }
    }
  }

  lemma SpaceAfter(p: string, c: char)
    requires IsSpace(c)
    ensures Strip(p + [c]) == Strip(p)
  {
    LStripTrailing(p, c);
    var l := LStrip(p);
    assert (l + [c])[..|l + [c]| - 1] == l;
    if Blank(p) { StripBlank(p); }
  }

  lemma {:induction false} LoadLStrip(s: string)
    ensures LoadPieces(LStrip(s)) == LoadPieces(s)
  {
    if s != "" && IsSpace(s[0]) {
      LoadLStrip(s[1..]);
      var rest := Pieces(s[1..]);
      assert rest == [rest[0]] + rest[1..];
      if IsBreak(s[0]) {
        NamedInConcat([""], rest);
        NamedInOne("");
      } else {
        SpaceBefore(s[0], rest[0]);
        NamedInConcat([rest[0]], rest[1..]);
        NamedInConcat([[s[0]] + rest[0]], rest[1..]);
        NamedInOne(rest[0]);
        NamedInOne([s[0]] + rest[0]);
      }
    }
  }

  lemma {:induction false} LoadRStrip(s: string)
    ensures LoadPieces(RStrip(s)) == LoadPieces(s)
  {
    hide IsSpace, LoadPieces;
    if s != "" && IsSpace(s[|s| - 1]) {
      var (t, c) := (s[..|s| - 1], s[|s| - 1]);
      LoadRStrip(t);
      assert s == t + [c];
      TrailingSpace(t, c);
    }
  }

  lemma TrailingSpace(t: string, c: char)
    requires IsSpace(c)
    ensures LoadPieces(t + [c]) == LoadPieces(t)
  {
    hide Named, Strip, IsSpace, IsBreak;
    var ps := Pieces(t);
    var (front, last) := (ps[..|ps| - 1], ps[|ps| - 1]);
    assert ps == front + [last];
    if IsBreak(c) {
      assert t + [c] + "" == t + [c];
      PiecesAtBreak(t, c, "");
      NamedInConcat(ps, [""]);
      assert NamedIn([""]) == [] by { NamedInOne(""); BlankNamesNone(); }
    } else {
      PiecesExtended(t, [c]);
      NamedInConcat(front, [last]);
      NamedInConcat(front, [last + [c]]);
      NamedInOne(last);
      NamedInOne(last + [c]);
      assert Named(last + [c]) == Named(last) by { SpaceAfterNamed(last, c); }
    }
  }

  lemma BlankNamesNone()
    ensures Named("") == None
  {
  }

  lemma SpaceAfterNamed(p: string, c: char)
    requires IsSpace(c)
    ensures Named(p + [c]) == Named(p)
  {
    SpaceAfter(p, c);
  }

  lemma LoadByPieces(text: string)
    ensures Load(text) == LoadPieces(text)
  {
    LoadIsLoadPieces(Strip(text));
    LoadLStrip(text);
    LoadRStrip(LStrip(text));
  }

  // -- Adding --

  /** The file ends where a line ends, so that an appended line stands on its own. */
  predicate Terminated(text: string) {
    text == "" || text[|text| - 1] == '\n'
  }

  lemma TerminatedLastPiece(text: string)
    requires Terminated(text)
    ensures LastPiece(text) == ""
  {
    if text != "" {
      var front := text[..|text| - 1];
      assert text == front + ['\n'] + "";
      PiecesAtBreak(front, '\n', "");
    }
  }

  function FrontPieces(text: string): seq<string> {
    Pieces(text)[..|Pieces(text)| - 1]
  }

  /** The names in a text, and in the text with a line appended to it. */
  lemma AppendedLine(text: string, a: string)
    requires BreakFree(a)
    ensures Load(text) == NamedIn(FrontPieces(text)) + NamedIn([LastPiece(text)])
    ensures Load(text + a + "\n") == NamedIn(FrontPieces(text)) + NamedIn([LastPiece(text) + a])
  {
    hide Load, Named, Strip;
    LoadByPieces(text);
    LoadByPieces(text + a + "\n");
    var (front, last) := (FrontPieces(text), LastPiece(text));
    assert Pieces(text) == front + [last];
    NamedInConcat(front, [last]);
    PiecesExtended(text, a);
    assert text + a + "\n" == (text + a) + ['\n'] + "";
    PiecesAtBreak(text + a, '\n', "");
    assert Pieces(text + a + "\n") == front + [last + a] + [""];
    NamedInConcat(front + [last + a], [""]);
    NamedInConcat(front, [last + a]);
    assert NamedIn([""]) == [] by { NamedInOne(""); BlankNamesNone(); }
  }

  lemma ValidCharacters(a: string, c: char)
    requires ValidAddress(a) && c in a
    ensures AddressChar(c) || c == '@'
  {
    var at := IndexOf(a, '@');
    assert a == a[..at] + [a[at]] + a[at + 1..];
  }

  lemma ValidIsPlain(a: string)
    requires ValidAddress(a)
    ensures a != "" && BreakFree(a) && SpaceFree(a) && '#' !in a
  {
    forall c | c in a ensures !IsBreak(c) && !IsSpace(c) && c != '#' {
      ValidCharacters(a, c);
    }
  }

  lemma SpaceFreeTrimmed(a: string)
    requires SpaceFree(a)
    ensures Strip(a) == a
  {
    if a != "" { assert a[0] in a && a[|a| - 1] in a; }
    StripTrimmed(a);
  }

  lemma ValidNamed(a: string)
    requires ValidAddress(a) && Lower(a) == a
    ensures Named(a) == Some(a) && Normal(a) == a
  {
    ValidIsPlain(a);
    SpaceFreeTrimmed(a);
    assert a[0] in a;
  }

  /** A non-blank stretch before an address makes the stripped line longer than the address. */
  lemma BlankAt(s: string, k: nat)
    requires Blank(s) && k < |s|
    ensures IsSpace(s[k])
  {
    assert s[k] in s;
  }

  lemma PrecededIsLonger(last: string, a: string)
    requires !Blank(last) && SpaceFree(a) && a != ""
    ensures |Strip(last + a)| > |a|
  {
    hide Strip, IsSpace, Blank;
    var line := last + a;
    var i := StripSlice(line);
    var n := |Strip(line)|;
    var k := NonSpaceAt(last);
    assert line[k] == last[k];
    assert !IsSpace(a[|a| - 1]) by { assert a[|a| - 1] in a; }
    if i > k {
      BlankAt(line[..i], k);
    }
    if i + n < |line| {
      BlankAt(line[i + n..], |line| - 1 - i - n);
    }
  }

  lemma NonSpaceAt(s: string) returns (k: nat)
    requires !Blank(s)
    ensures k < |s| && !IsSpace(s[k])
  {
    k :| 0 <= k < |s| && !IsSpace(s[k]);
  }

  lemma {:induction false} BlankBefore(last: string, a: string)
    requires Blank(last)
    ensures Strip(last + a) == Strip(a)
  {
    if last == "" {
      assert last + a == a;
    } else {
      assert last + a == [last[0]] + (last[1..] + a);
      StripLeading(last[0], last[1..] + a);
      BlankBefore(last[1..], a);
    }
  }

  /**
   Adding a new, well-formed, lower-case address appends it to the loaded list exactly when what the
   file holds after its last line break is blank.
   */
  lemma AddExact(text: string, a: string)
    requires ValidAddress(a) && Lower(a) == a && a !in Load(text)
    ensures Load(Added(text, a)) == Load(text) + [a] <==> Blank(LastPiece(text))
  {
    hide Load, Strip, ValidAddress, Pieces, IsSpace, IsBreak, Named, Blank, NamedIn;
    ValidIsPlain(a);
    ValidNamed(a);
    PlainReadUnchanged(a);
    AppendedLine(text, a);
    var (front, last) := (NamedIn(FrontPieces(text)), LastPiece(text));
    NamedInOne(last);
    NamedInOne(last + a);
    NamedAfter(last, a);
    var (x, y) := (NamedIn([last + a]), NamedIn([last]) + [a]);
    assert (front + x)[|front|..] == x && (front + y)[|front|..] == y;
    assert Load(text) + [a] == front + y && y[|y| - 1] == a;
  }

  /** What a line names once a well-formed address is glued to its end. */
  lemma NamedAfter(last: string, a: string)
    requires ValidAddress(a) && Lower(a) == a
    ensures Blank(last) ==> Named(last) == None && Named(last + a) == Some(a)
    ensures !Blank(last) ==> Named(last + a) != Some(a)
  {
    hide ValidAddress, IsSpace;
    ValidIsPlain(a);
    ValidNamed(a);
    if Blank(last) {
      BlankBefore(last, a);
      StripBlank(last);
    } else {
      PrecededIsLonger(last, a);
    }
  }

  /** Whom the written line names once it is read back; an address may hold line separators. */
  function Names(address: string): seq<string> {
    Load(AsRead(Normal(address)))
  }

  /** Adding to a terminated file adds exactly the names of the new line, whatever the address holds. */
  lemma AddTerminated(text: string, address: string)
    requires Terminated(text)
    ensures Terminated(Added(text, address))
    ensures Load(Added(text, address))
            == if Normal(address) in Load(text) then Load(text) else Load(text) + Names(address)
  {
    hide Load, Pieces, NamedIn, Normal, AsRead;
    if Normal(address) !in Load(text) {
      var line := AsRead(Normal(address));
      LoadByPieces(text);
      LoadByPieces(line);
      LoadByPieces(text + line + "\n");
      TrailingSpace(line, '\n');
      if text == "" {
        assert text + line + "\n" == line + ['\n'];
        LoadOfNothing();
        assert [] + Names(address) == Names(address);
      } else {
        var front := text[..|text| - 1];
        assert text == front + ['\n'];
        TrailingSpace(front, '\n');
        assert text + line + "\n" == front + ['\n'] + (line + ['\n']);
        PiecesAtBreak(front, '\n', line + ['\n']);
        NamedInConcat(Pieces(front), Pieces(line + ['\n']));
      }
    }
  }

  lemma LoadOfNothing()
    ensures Load("") == []
  {
  }

  lemma {:induction false} ReadUnchanged(s: string)
    requires '\r' !in s
    ensures AsRead(s) == s
  {
    if s != "" {
      ReadUnchanged(s[1..]);
      assert s == [s[0]] + s[1..];
    }
  }

  /** A well-formed address, or one whose line names nobody. */
  predicate Sound(address: string) {
    ValidAddress(Normal(address)) || Names(address) == []
  }

  lemma NormalTwice(address: string)
    ensures Lower(Normal(address)) == Normal(address) && Strip(Normal(address)) == Normal(address)
  {
    var t := Strip(address);
    forall c | IsSpace(LowerChar(c)) ensures IsSpace(c) {
    }
    StripTrimmed(Normal(address));
    assert Lower(Normal(address)) == Normal(address);
  }

  lemma NamesOfValid(address: string)
    requires ValidAddress(Normal(address))
    ensures Names(address) == [Normal(address)]
  {
    hide Strip, Pieces, Load, NamedIn, ValidAddress, Named;
    var a := Normal(address);
    NormalTwice(address);
    ValidIsPlain(a);
    PlainReadUnchanged(a);
    LoadByPieces(a);
    PiecesWhole(a);
    NamedInOne(a);
    ValidNamed(a);
  }

  lemma PlainReadUnchanged(s: string)
    requires SpaceFree(s)
    ensures '\r' !in s && AsRead(s) == s
  {
    assert IsSpace('\r');
    ReadUnchanged(s);
  }

  lemma NamesAreValid(address: string, x: string)
    requires x in Names(address)
    ensures ValidAddress(x) && Lower(x) == x
  {
    LoadedIsValid(SplitLines(Strip(AsRead(Normal(address)))), x);
  }

  /** The line of an address names no one but the address exactly when the address is sound. */
  lemma SoundExact(address: string)
    ensures (forall x | x in Names(address) :: x == Normal(address)) <==> Sound(address)
  {
    hide Names, ValidAddress, Normal;
    if ValidAddress(Normal(address)) {
      NamesOfValid(address);
    } else if Names(address) != [] {
      var x := Names(address)[0];
      assert x in Names(address);
      NamesAreValid(address, x);
    }
  }

  /** In particular an address on one line is sound: whatever else is wrong with it names nobody. */
  lemma OneLineIsSound(address: string)
    requires BreakFree(Normal(address)) && '\r' !in Normal(address)
    ensures Sound(address)
  {
    hide Strip, Pieces, Load, NamedIn, ValidAddress, Normal;
    var a := Normal(address);
    NormalTwice(address);
    ReadUnchanged(a);
    LoadByPieces(a);
    PiecesWhole(a);
    NamedInOne(a);
  }

  /**
   Over all terminated files, adding an address brings in no other name exactly when the address is
   sound.
   */
  lemma AddBringsExact(address: string)
    ensures (forall text, x | Terminated(text) && x in Load(Added(text, address)) ::
               x in Load(text) || x == Normal(address))
            <==> Sound(address)
  {
    hide Load, Added, Names, Normal, Sound, Terminated;
    SoundExact(address);
    if Sound(address) {
      forall text, x | Terminated(text) && x in Load(Added(text, address))
        ensures x in Load(text) || x == Normal(address)
      {
        AddTerminated(text, address);
      }
    } else {
      var x :| x in Names(address) && x != Normal(address);
      EmptyIsTerminated();
      LoadOfNothing();
      AddTerminated("", address);
      assert x in Load(Added("", address)) && x !in Load("");
    }
  }

  lemma EmptyIsTerminated()
    ensures Terminated("")
  {
  }

  /** Behind a comment without a line break, an added address is part of the comment. */
  lemma CommentSwallows(a: string)
    requires ValidAddress(a) && Lower(a) == a
    ensures Load("# note") == [] && Load(Added("# note", a)) == []
  {
    hide Load, Strip, ValidAddress, Pieces, IsSpace, NamedIn, Blank, Named;
    var text := "# note";
    ValidIsPlain(a);
    ValidNamed(a);
    PlainReadUnchanged(a);
    assert BreakFree(text);
    PiecesWhole(text);
    NoteIsComment("");
    NoteIsComment(a);
    assert text + "" == text;
    AppendedLine(text, a);
    NamedInOne(text);
    NamedInOne(text + a);
    assert FrontPieces(text) == [];
    assert NamedIn([]) == [] by { NamedInNone([]); }
  }

  lemma NoteIsComment(tail: string)
    requires SpaceFree(tail)
    ensures Named("# note" + tail) == None
  {
    var line := "# note" + tail;
    assert Trimmed(line) by { if tail != "" { assert line[|line| - 1] in tail; } }
    StripTrimmed(line);
  }

  // -- Removing --

  function Without(xs: seq<string>, a: string): seq<string> {
    if xs == [] then [] else (if xs[0] != a then [xs[0]] else []) + Without(xs[1..], a)
  }

  lemma WithoutCons(b: string, xs: seq<string>, a: string)
    ensures Without([b] + xs, a) == (if b != a then [b] else []) + Without(xs, a)
  {
    assert ([b] + xs)[1..] == xs;
  }

  lemma {:induction false} NamedInOthers(lines: seq<string>, a: string)
    requires ValidAddress(a) && Lower(a) == a
    ensures NamedIn(Others(lines, a)) == Without(NamedIn(lines), a)
  {
    hide Strip, Lower, Named, Normal, ValidAddress, Without;
    if lines == [] {
      assert Without([], a) == [] by { WithoutAbsent([], a); }
    } else {
      NamedInOthers(lines[1..], a);
      var (line, rest) := (lines[0], NamedIn(lines[1..]));
      var others := Others(lines[1..], a);
      NamedInOne(line);
      NamedWhen(line, a);
      NamedInConcat([line], others);
      assert [] + others == others && [] + rest == rest && [] + Without(rest, a) == Without(rest, a);
      if Named(line).Some? { WithoutCons(Named(line).value, rest, a); }
    }
  }

  /** A line stands for the well-formed address `a` exactly when its normal form is `a`. */
  lemma NamedWhen(line: string, a: string)
    requires ValidAddress(a) && Lower(a) == a
    ensures Named(line) == Some(a) <==> Normal(line) == a
  {
    if Normal(line) == a {
      var t := Strip(line);
      ValidIsPlain(a);
      CaseKeepsValidity(t);
      assert a[0] in a && a[0] == LowerChar(t[0]);
    }
  }

  lemma {:induction false} LowerIndex(t: string)
    ensures IndexOf(Lower(t), '@') == IndexOf(t, '@')
  {
    if t != "" && t[0] != '@' {
      LowerIndex(t[1..]);
      assert Lower(t)[1..] == Lower(t[1..]);
    }
  }

  lemma CaseKeepsValidity(t: string)
    ensures ValidAddress(Lower(t)) <==> ValidAddress(t)
  {
    LowerIndex(t);
    var at := IndexOf(t, '@');
    var l := Lower(t);
    if 0 < at && at + 1 < |t| {
      assert l[..at] == Lower(t[..at]) && l[at + 1..] == Lower(t[at + 1..]);
      CaseKeepsChars(t[..at]);
      CaseKeepsChars(t[at + 1..]);
    }
  }

  lemma CaseKeepsChars(t: string)
    ensures (forall c | c in Lower(t) :: AddressChar(c)) <==> (forall c | c in t :: AddressChar(c))
  {
    forall i | 0 <= i < |t| ensures AddressChar(Lower(t)[i]) <==> AddressChar(t[i]) {
    }
    assert forall i | 0 <= i < |t| :: Lower(t)[i] in Lower(t) && t[i] in t;
  }

  lemma {:induction false} LoadedIsValid(lines: seq<string>, a: string)
    requires a in NamedIn(lines)
    ensures ValidAddress(a) && Lower(a) == a
  {
    hide Strip;
    if Named(lines[0]) == Some(a) {
      CaseKeepsValidity(Strip(lines[0]));
      assert Lower(a) == a;
    } else {
      LoadedIsValid(lines[1..], a);
    }
  }

  lemma {:induction false} JoinedLines(lines: seq<string>)
    requires forall l | l in lines :: BreakFree(l)
    ensures Pieces(Join(lines, "\n") + "\n") == if lines == [] then ["", ""] else lines + [""]
  {
    hide Pieces, BreakFree;
    PiecesOfNothing();
    if lines == [] {
      assert Join(lines, "\n") + "\n" == "" + ['\n'] + "";
      PiecesAtBreak("", '\n', "");
    } else {
      var (l, rest) := (lines[0], lines[1..]);
      assert l in lines && forall m | m in rest :: m in lines;
      PiecesWhole(l);
      if rest == [] {
        assert Join(lines, "\n") + "\n" == l + ['\n'] + "";
        PiecesAtBreak(l, '\n', "");
        assert lines == [l];
      } else {
        JoinedLines(rest);
        assert Join(lines, "\n") + "\n" == l + ['\n'] + (Join(rest, "\n") + "\n");
        PiecesAtBreak(l, '\n', Join(rest, "\n") + "\n");
        assert lines == [l] + rest;
      }
    }
  }

  lemma {:induction false} OthersFrom(lines: seq<string>, a: string, l: string)
    requires l in Others(lines, a)
    ensures l in lines
  {
    if l != lines[0] { OthersFrom(lines[1..], a, l); }
  }

  lemma KeptLinesBreakFree(text: string, a: string)
    ensures forall l | l in Others(SplitLines(text), a) :: BreakFree(l)
  {
    forall l | l in Others(SplitLines(text), a) ensures BreakFree(l) {
      OthersFrom(SplitLines(text), a, l);
      PiecesBreakFree(text, l);
    }
  }

  /** Removing an address takes it out of the loaded list, whatever the file looks like. */
  lemma RemoveLoads(text: string, address: string)
    ensures Load(Removed(text, address)) == Without(Load(text), Normal(address))
    ensures Terminated(text) ==> Terminated(Removed(text, address))
  {
    hide Normal, Strip, Named, Pieces, Load;
    var a := Normal(address);
    LoadByPieces(text);
    LoadIsLoadPieces(text);
    var lines := SplitLines(text);
    if a in Load(text) {
      LoadedIsValid(lines, a);
      NamedInOthers(lines, a);
      var kept := Others(lines, a);
      KeptLinesBreakFree(text, a);
      JoinedLines(kept);
      LoadByPieces(Removed(text, address));
      BlankNamesNone();
      NamedInConcat(kept, [""]);
      NamedInOne("");
      if kept == [] { NamedInConcat([""], [""]); assert ["", ""] == [""] + [""]; }
    } else {
      WithoutAbsent(Load(text), a);
    }
  }

  /** Which lines of a file are kept when an address is removed: line by line, those not standing for it. */
  lemma {:induction false} KeptExact(lines: seq<string>, more: seq<string>, a: string)
    ensures Others(lines + more, a) == Others(lines, a) + Others(more, a)
  {
    hide Normal;
    if lines == [] {
      assert lines + more == more;
    } else {
      assert (lines + more)[1..] == lines[1..] + more;
      KeptExact(lines[1..], more, a);
    }
  }

  lemma KeptOne(line: string, a: string)
    ensures Others([line], a) == if Lower(Strip(line)) == a then [] else [line]
  {
    hide Strip, Lower;
    assert [line][1..] == [];
  }

  /** The file is rewritten with exactly these lines, each with a line feed. */
  lemma RemovedLines(text: string, address: string)
    requires Normal(address) in Load(text) && Others(SplitLines(text), Normal(address)) != []
    ensures SplitLines(Removed(text, address)) == Others(SplitLines(text), Normal(address))
    ensures Terminated(Removed(text, address))
  {
    hide Normal, Load, Pieces, Strip;
    var kept := Others(SplitLines(text), Normal(address));
    KeptLinesBreakFree(text, Normal(address));
    JoinedLines(kept);
    assert (kept + [""])[..|kept|] == kept;
  }

  lemma {:induction false} WithoutAbsent(xs: seq<string>, a: string)
    requires a !in xs
    ensures Without(xs, a) == xs
  {
    if xs != [] {
      WithoutAbsent(xs[1..], a);
      assert xs == [xs[0]] + xs[1..];
    }
  }

  lemma {:induction false} WithoutMembers(xs: seq<string>, a: string, x: string)
    ensures x in Without(xs, a) <==> x in xs && x != a
  {
    if xs != [] {
      WithoutMembers(xs[1..], a, x);
      assert xs == [xs[0]] + xs[1..];
    }
  }

  // -- Comments --

  predicate IsComment(line: string) {
    Strip(line) != "" && Strip(line)[0] == '#'
  }

  function CommentsIn(lines: seq<string>): seq<string> {
    if lines == [] then [] else (if IsComment(lines[0]) then [lines[0]] else []) + CommentsIn(lines[1..])
  }

  function Comments(text: string): seq<string> {
    CommentsIn(Pieces(text))
  }

  lemma {:induction false} CommentsInConcat(a: seq<string>, b: seq<string>)
    ensures CommentsIn(a + b) == CommentsIn(a) + CommentsIn(b)
  {
    hide IsComment;
    if a == [] {
      assert a + b == b;
    } else {
      assert (a + b)[1..] == a[1..] + b;
      CommentsInConcat(a[1..], b);
    }
  }

  lemma {:induction false} CommentsInOthers(lines: seq<string>, a: string)
    requires ValidAddress(a)
    ensures CommentsIn(Others(lines, a)) == CommentsIn(lines)
  {
    hide ValidAddress, Strip;
    if lines != [] {
      var (line, others) := (lines[0], Others(lines[1..], a));
      CommentsInOthers(lines[1..], a);
      assert ([line] + others)[1..] == others && [] + others == others;
      if Normal(line) == a {
        ValidIsPlain(a);
        assert a[0] in a && a[0] == LowerChar(Strip(line)[0]);
      }
    }
  }

  lemma PlainIsNoComment(a: string)
    requires SpaceFree(a) && '#' !in a
    ensures CommentsIn([a]) == []
  {
    SpaceFreeTrimmed(a);
    assert [a][1..] == [];
    if a != "" { assert a[0] in a; }
  }

  lemma CommentsAfterAdd(text: string, a: string)
    requires Terminated(text) && BreakFree(a) && SpaceFree(a) && '#' !in a
    ensures Comments(text + a + "\n") == Comments(text)
  {
    hide Pieces, IsComment, CommentsIn, BreakFree, SpaceFree;
    TerminatedLastPiece(text);
    PiecesExtended(text, a);
    assert text + a + "\n" == (text + a) + ['\n'] + "" && "" + a == a;
    PiecesAtBreak(text + a, '\n', "");
    PiecesOfNothing();
    var front := FrontPieces(text);
    assert Pieces(text) == front + [""] && Pieces(text + a + "\n") == front + [a] + [""];
    CommentsInConcat(front + [a], [""]);
    CommentsInConcat(front, [a]);
    CommentsInConcat(front, [""]);
    PlainIsNoComment(a);
    assert CommentsIn(front) + [] + CommentsIn([""]) == CommentsIn(front) + CommentsIn([""]);
  }

  lemma CommentsAfterJoin(lines: seq<string>)
    requires forall l | l in lines :: BreakFree(l)
    ensures Comments(Join(lines, "\n") + "\n") == CommentsIn(lines)
  {
    hide Pieces, IsComment, CommentsIn;
    JoinedLines(lines);
    PlainIsNoComment("");
    CommentsInConcat(lines, [""]);
    assert CommentsIn(lines) + [] == CommentsIn(lines);
    if lines == [] {
      CommentsInConcat([""], [""]);
      assert ["", ""] == [""] + [""] && lines + [""] == [""];
    }
  }

  lemma CommentsAfterLine(text: string, line: string)
    requires Terminated(text)
    ensures Comments(text) <= Comments(text + line + "\n")
  {
    hide Pieces, IsComment, CommentsIn;
    PlainIsNoComment("");
    if text == "" {
      PiecesOfNothing();
    } else {
      var front := text[..|text| - 1];
      assert text == front + ['\n'] + "" && text + line + "\n" == front + ['\n'] + (line + "\n");
      PiecesAtBreak(front, '\n', "");
      PiecesAtBreak(front, '\n', line + "\n");
      PiecesOfNothing();
      CommentsInConcat(Pieces(front), [""]);
      CommentsInConcat(Pieces(front), Pieces(line + "\n"));
      assert CommentsIn(Pieces(front)) + [] == CommentsIn(Pieces(front));
    }
  }

  /**
   Comment lines survive the addition of any address to a terminated file, where a well-formed address
   adds none, and the removal of any address from any file.
   */
  lemma CommentsSurvive(text: string, address: string)
    ensures Terminated(text) ==> Comments(text) <= Comments(Added(text, address))
    ensures Terminated(text) && ValidAddress(Normal(address)) ==> Comments(Added(text, address)) == Comments(text)
    ensures Comments(Removed(text, address)) == Comments(text)
  {
    hide Load, Comments, ValidAddress, Normal, AsRead, Pieces;
    var a := Normal(address);
    if Terminated(text) {
      CommentsAfterLine(text, AsRead(a));
      if ValidAddress(a) {
        ValidIsPlain(a);
        PlainReadUnchanged(a);
        CommentsAfterAdd(text, a);
      }
    }
    if a in Load(text) {
      LoadedAreValid(text, a);
      KeptLinesBreakFree(text, a);
      CommentsInOthers(SplitLines(text), a);
      CommentsAfterJoin(Others(SplitLines(text), a));
      CommentsOfLines(text);
    }
  }

  lemma LoadedAreValid(text: string, a: string)
    requires a in Load(text)
    ensures ValidAddress(a)
  {
    LoadedIsValid(SplitLines(Strip(text)), a);
  }

  lemma CommentsOfLines(text: string)
    ensures CommentsIn(SplitLines(text)) == Comments(text)
  {
    hide IsComment, Pieces;
    var ps := Pieces(text);
    if ps[|ps| - 1] == "" {
      PlainIsNoComment("");
      CommentsInConcat(ps[..|ps| - 1], [""]);
      assert ps == ps[..|ps| - 1] + [""];
    }
  }
}
