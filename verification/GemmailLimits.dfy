/** Messages that do not survive a round of parsing and printing: a fraction of a second, crowded lines. */
module GemmailLimits {
  import opened Wrappers
  import opened Text
  import opened Utf8
  import opened Calendar
  import opened Gemmail
  import opened GemmailC

  /** Reading a message laid out line by line. */
  lemma ReadLines(a: string, b: string, c: string)
    requires LineFree(a) && LineFree(b) && LineFree(c)
    requires LineFits(a) && LineFits(b) && LineFits(c)
    ensures var data := Encode(a + "\n" + (b + "\n" + (c + "\n" + "")));
            FromBytes(data) == ParseMetadata([a, b, c, ""])
  {
    hide Split, Encode, LineFits, ParseMetadata;
    var text := a + "\n" + (b + "\n" + (c + "\n" + ""));
    assert '\r' !in text;
    DecodeEncode(text);
    NormalizeCrFree(text);
    SplitFour(a, b, c, "");
    SplitWhole("", '\n');
    var lines := Split(text, '\n');
    assert lines == lines[..3] + lines[3..] == [a, b, c, ""];
  }

  lemma EmptyLine<T>(parse: ItemParser<T>)
    ensures ParseLine(parse, "") == Success([]) && LineFits("") && LineFree("")
  {
    EncodeBound("" + "\n");
  }

  // -- Fractions of a second --

  lemma IsoLine(t: DateTime)
    ensures |IsoFormat(t)| <= 40 && Trimmed(IsoFormat(t)) && LineFree(IsoFormat(t)) && ',' !in IsoFormat(t)
    ensures LineFits(IsoFormat(t)) && IsoFormat(t) != ""
  {
    hide IsSpace, SecondText, Fraction;
    var s := IsoFormat(t);
    assert |Fraction(t)| <= 7 by { FractionLength(t); }
    forall c | c in s ensures !IsSpace(c) && c != ',' && c != '\n' && c != '\r' {
      IsoCharacters(t, c);
      assert !IsSpace(c) by { StampCharIsNoSpace(c); }
    }
    assert s[0] in s && s[|s| - 1] in s;
    EncodeBound(s + "\n");
  }

  lemma FractionLength(t: DateTime)
    ensures |Fraction(t)| <= 7
  {
  }

  lemma StampCharIsNoSpace(c: char)
    requires IsDigit(c) || c in "-T:.+"
    ensures !IsSpace(c)
  {
  }

  lemma IsoRead(t: DateTime)
    requires Valid(t)
    ensures ParseLine(ParseTimestamp, IsoFormat(t)) == Success([t])
  {
    hide IsoFormat, ParseStamp, ParseLine;
    IsoLine(t);
    IsoRoundTrip(t);
    assert Listable(ParseTimestamp, IsoFormat, Same<DateTime>(), t);
    LineRoundTrip(ParseTimestamp, IsoFormat, Same<DateTime>(), [t]);
    SingleItem(IsoFormat, [t]);
    MapSame([t]);
  }

  /** A message with a fraction of a second parses, and is another one once printed. */
  lemma FractionIsLost(t: DateTime)
    requires Valid(t) && t.micro != 0
    ensures var data := Encode("" + "\n" + ("" + "\n" + (IsoFormat(t) + "\n" + "")));
            && FromBytes(data) == Success(Message([], [], [t], ""))
            && FromBytes(ToBytes(FromBytes(data).value)) != FromBytes(data)
  {
    hide FromBytes, ToBytes, IsoFormat, Encode, ParseLine, Fits, LineFits;
    var line := IsoFormat(t);
    var data := Encode("" + "\n" + ("" + "\n" + (line + "\n" + "")));
    IsoLine(t);
    EmptyLine(ParseAddress);
    ReadLines("", "", line);
    IsoRead(t);
    var lines := ["", "", line, ""];
    assert lines[3..] == [""];
    NormalFormExact(data);
  }

  // -- Crowded lines --

  function Copies<T>(x: T, n: nat): (xs: seq<T>)
    ensures |xs| == n && forall y | y in xs :: y == x
  {
    seq(n, _ => x)
  }

  lemma CopiesStep<T>(x: T, n: nat)
    requires n > 0
    ensures Copies(x, n)[0] == x && Copies(x, n)[1..] == Copies(x, n - 1)
  {
  }

  lemma {:induction false} CopiesLength(p: string, sep: string, n: nat)
    requires n > 0
    ensures |Join(Copies(p, n), sep)| == n * |p| + (n - 1) * |sep|
  {
    CopiesStep(p, n);
    if n > 1 {
      CopiesLength(p, sep, n - 1);
      assert n * |p| == (n - 1) * |p| + |p| && (n - 1) * |sep| == (n - 2) * |sep| + |sep|;
    }
  }

  const SMALL := Address("a", "b", "")

  lemma SmallPrinted()
    ensures SMALL.Print() == "a@b" && ParseAddress("a@b") == Success(SMALL) && Strip("a@b") == "a@b"
  {
    hide ParseAddress, Strip;
    assert SMALL.Print() == "a@b";
    ParsePrintedAddress(SMALL);
    PrintIsTrimmed(SMALL);
    StripTrimmed("a@b");
  }

  lemma {:induction false} CopiesParsed(n: nat)
    ensures ParseItems(ParseAddress, Copies("a@b", n)) == Success(Copies(SMALL, n))
  {
    hide ParseAddress, Strip;
    if n > 0 {
      SmallPrinted();
      CopiesStep("a@b", n);
      CopiesStep(SMALL, n);
      CopiesParsed(n - 1);
      assert Copies(SMALL, n) == [SMALL] + Copies(SMALL, n - 1);
    }
  }

  lemma {:induction false} CopiesMapped(n: nat)
    ensures Map(PrintAddress, Copies(SMALL, n)) == Copies("a@b", n)
  {
    if n > 0 {
      assert PrintAddress(SMALL) == "a@b";
      CopiesStep(SMALL, n);
      CopiesMapped(n - 1);
      assert Copies("a@b", n) == ["a@b"] + Copies("a@b", n - 1);
    }
  }

  /** 255 senders on one line, without a space after the comma. */
  const CROWD := 255

  function CrowdedLine(): string {
    Join(Copies("a@b", CROWD), ",")
  }

  lemma CrowdedShape()
    ensures |CrowdedLine()| == 1019 && Trimmed(CrowdedLine())
    ensures forall c | c in CrowdedLine() :: c in "a@b,"
  {
    CopiesLength("a@b", ",", CROWD);
    forall c | c in CrowdedLine() ensures c in "a@b," {
      JoinCharacters(Copies("a@b", CROWD), ",", c);
    }
    var line := CrowdedLine();
    assert line[0] in line && line[|line| - 1] in line;
    assert !IsSpace('a') && !IsSpace('@') && !IsSpace('b') && !IsSpace(',');
  }

  lemma CrowdedRead()
    ensures ParseLine(ParseAddress, CrowdedLine()) == Success(Copies(SMALL, CROWD))
    ensures LineFits(CrowdedLine()) && LineFree(CrowdedLine())
  {
    hide ParseAddress, Strip, Split, Join;
    var line := CrowdedLine();
    CrowdedShape();
    StripTrimmed(line);
    SplitJoin(Copies("a@b", CROWD), ',');
    CopiesParsed(CROWD);
    AsciiLength(line + "\n");
  }

  lemma CrowdedPrinted()
    ensures !LineFits(PrintLine(PrintAddress, Copies(SMALL, CROWD)))
  {
    hide Join;
    var line := PrintLine(PrintAddress, Copies(SMALL, CROWD));
    CopiesMapped(CROWD);
    CopiesLength("a@b", ", ", CROWD);
    EncodeNonEmpty(line + "\n");
  }

  /** A message whose senders fill their line parses, and is refused once printed. */
  lemma CrowdedIsRefused()
    ensures var data := Encode(CrowdedLine() + "\n" + ("" + "\n" + ("" + "\n" + "")));
            && FromBytes(data) == Success(Message(Copies(SMALL, CROWD), [], [], ""))
            && FromBytes(ToBytes(FromBytes(data).value)) == Failure(LineTooLong)
  {
    hide FromBytes, ToBytes, Encode, ParseLine, CrowdedLine, LineFits, PrintLine;
    var line := CrowdedLine();
    var data := Encode(line + "\n" + ("" + "\n" + ("" + "\n" + "")));
    CrowdedRead();
    EmptyLine(ParseAddress);
    EmptyLine(ParseTimestamp);
    ReadLines(line, "", "");
    var lines := [line, "", "", ""];
    assert lines[3..] == [""];
    ParsedIsPrintable(data);
    CrowdedPrinted();
    Reparse(Message(Copies(SMALL, CROWD), [], [], ""));
  }
}
