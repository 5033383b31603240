/** Python string operations on sequences, with the laws the parsers and printers rest on. */
module Text {
  import opened Wrappers

  /** A truth value as a count. */
  function Bit(b: bool): nat {
    if b then 1 else 0
  }

  // -- Searching and splitting --

  /** Position of the first `c` in `s`, or |s| when there is none. */
  function IndexOf<T(==)>(s: seq<T>, c: T): (i: nat)
    ensures i <= |s| && c !in s[..i]
    ensures i < |s| ==> s[i] == c
  {
    if s == [] || s[0] == c then 0 else 1 + IndexOf(s[1..], c)
  }

  /** Position of the last `c` in `s`. */
  function LastIndexOf<T(==)>(s: seq<T>, c: T): (i: nat)
    requires c in s
    ensures i < |s| && s[i] == c && c !in s[i + 1..]
  {
    if s[|s| - 1] == c then |s| - 1
    else
      assert s == s[..|s| - 1] + [s[|s| - 1]];
      LastIndexOf(s[..|s| - 1], c)
  }

  lemma IndexOfAt<T>(a: seq<T>, c: T, b: seq<T>)
    requires c !in a
    ensures IndexOf(a + [c] + b, c) == |a|
  {
    var s := a + [c] + b;
    assert s[|a|] == c;
    assert forall j | 0 <= j < |a| :: s[j] == a[j];
    var i := IndexOf(s, c);
  }

  lemma LastIndexOfAt<T>(a: seq<T>, c: T, b: seq<T>)
    requires c !in b
    ensures c in a + [c] + b && LastIndexOf(a + [c] + b, c) == |a|
  {
    var s := a + [c] + b;
    assert s[|a|] == c;
    var i := LastIndexOf(s, c);
  }

  /** `s.split(c)`. */
  function Split<T(==)>(s: seq<T>, c: T): (parts: seq<seq<T>>)
    ensures |parts| >= 1
    decreases |s|
  {
    var i := IndexOf(s, c);
    if i == |s| then [s] else [s[..i]] + Split(s[i + 1..], c)
  }

  /** `sep.join(parts)`. */
  function Join<T>(parts: seq<seq<T>>, sep: seq<T>): seq<T> {
    if parts == [] then []
    else if |parts| == 1 then parts[0]
    else parts[0] + sep + Join(parts[1..], sep)
  }

  lemma SplitStep<T>(a: seq<T>, c: T, b: seq<T>)
    requires c !in a
    ensures Split(a + [c] + b, c) == [a] + Split(b, c)
  {
    IndexOfAt(a, c, b);
    var s := a + [c] + b;
    assert s[..|a|] == a && s[|a| + 1..] == b;
  }

  lemma SplitWhole<T>(a: seq<T>, c: T)
    requires c !in a
    ensures Split(a, c) == [a]
  {
  }

  lemma {:induction false} JoinSplit<T>(s: seq<T>, c: T)
    ensures Join(Split(s, c), [c]) == s
    decreases |s|
  {
    hide Join;
    var i := IndexOf(s, c);
    if i < |s| {
      JoinSplit(s[i + 1..], c);
      JoinStep(s[..i], Split(s[i + 1..], c), [c]);
      assert s == s[..i] + [c] + s[i + 1..];
    } else {
      JoinOne(s, [c]);
    }
  }

  lemma JoinStep<T>(first: seq<T>, rest: seq<seq<T>>, sep: seq<T>)
    requires rest != []
    ensures Join([first] + rest, sep) == first + sep + Join(rest, sep)
  {
    assert ([first] + rest)[1..] == rest;
  }

  lemma JoinOne<T>(part: seq<T>, sep: seq<T>)
    ensures Join([part], sep) == part
  {
  }

  lemma {:induction false} SplitJoin<T>(parts: seq<seq<T>>, c: T)
    requires parts != []
    requires forall p | p in parts :: c !in p
    ensures Split(Join(parts, [c]), c) == parts
  {
    if |parts| == 1 {
      SplitWhole(parts[0], c);
    } else {
      assert forall p | p in parts[1..] :: p in parts;
      SplitJoin(parts[1..], c);
      SplitStep(parts[0], c, Join(parts[1..], [c]));
      assert parts == [parts[0]] + parts[1..];
    }
  }

  /** The pieces are free of the separator and made of characters of the original. */
  lemma {:induction false} SplitPieces<T>(s: seq<T>, c: T, p: seq<T>)
    requires p in Split(s, c)
    ensures c !in p
    ensures forall x | x in p :: x in s
    decreases |s|
  {
    var i := IndexOf(s, c);
    if i == |s| {
    } else if p == s[..i] {
    } else {
      SplitPieces(s[i + 1..], c, p);
    }
  }

  lemma {:induction false} JoinCharacters<T>(parts: seq<seq<T>>, sep: seq<T>, x: T)
    requires x in Join(parts, sep)
    ensures x in sep || exists p :: p in parts && x in p
  {
    if |parts| > 1 {
      if x in parts[0] || x in sep {
        assert parts[0] in parts;
      } else {
        JoinCharacters(parts[1..], sep, x);
        var p :| p in parts[1..] && x in p;
        assert p in parts;
      }
    } else if |parts| == 1 {
      assert parts[0] in parts;
    }
  }

  // -- White space --

  /** The characters `str.isspace` accepts. */
  predicate IsSpace(c: char) {
    var n := c as int;
    || 0x09 <= n <= 0x0D || 0x1C <= n <= 0x20 || n == 0x85 || n == 0xA0 || n == 0x1680
    || 0x2000 <= n <= 0x200A || n == 0x2028 || n == 0x2029 || n == 0x202F || n == 0x205F || n == 0x3000
  }

  predicate SpaceFree(s: string) {
    forall c | c in s :: !IsSpace(c)
  }

  predicate Blank(s: string) {
    forall c | c in s :: IsSpace(c)
  }

  /** No white space at either end. */
  predicate Trimmed(s: string) {
    s != "" ==> !IsSpace(s[0]) && !IsSpace(s[|s| - 1])
  }

  function LStrip(s: string): (r: string)
    ensures |r| <= |s|
    ensures r != "" ==> !IsSpace(r[0])
  {
    if s != "" && IsSpace(s[0]) then LStrip(s[1..]) else s
  }

  function RStrip(s: string): (r: string)
    ensures r <= s
    ensures r != "" ==> !IsSpace(r[|r| - 1])
  {
    if s != "" && IsSpace(s[|s| - 1]) then RStrip(s[..|s| - 1]) else s
  }

  /** `s.strip()`. */
  function Strip(s: string): (r: string)
    ensures Trimmed(r) && |r| <= |s|
  {
    var l := LStrip(s);
    var r := RStrip(l);
    if r != "" then assert r[0] == l[0]; r else r
  }

  lemma {:induction false} LStripSlice(s: string)
    ensures var r := LStrip(s); r == s[|s| - |r|..] && Blank(s[..|s| - |r|])
  {
    if s != "" && IsSpace(s[0]) {
      LStripSlice(s[1..]);
      var r := LStrip(s);
      assert s[..|s| - |r|] == [s[0]] + s[1..][..|s| - 1 - |r|];
    }
  }

  lemma {:induction false} RStripSlice(s: string)
    ensures var r := RStrip(s); Blank(s[|r|..])
  {
    if s != "" && IsSpace(s[|s| - 1]) {
      RStripSlice(s[..|s| - 1]);
      var r := RStrip(s);
      assert s[|r|..] == s[..|s| - 1][|r|..] + [s[|s| - 1]];
    }
  }

  lemma StripTrimmed(s: string)
    requires Trimmed(s)
    ensures Strip(s) == s
  {
  }

  lemma StripLeading(c: char, s: string)
    requires IsSpace(c)
    ensures Strip([c] + s) == Strip(s)
  {
    assert ([c] + s)[1..] == s;
  }

  /** Where the stripped text sits in the original. */
  lemma StripSlice(s: string) returns (i: nat)
    ensures i + |Strip(s)| <= |s|
    ensures s == s[..i] + Strip(s) + s[i + |Strip(s)|..]
    ensures Blank(s[..i]) && Blank(s[i + |Strip(s)|..])
  {
    hide IsSpace, LStrip, RStrip;
    var l := LStrip(s);
    i := |s| - |l|;
    LStripSlice(s);
    RStripSlice(l);
    var n := |RStrip(l)|;
    assert s[i..] == l && l[..n] == RStrip(l);
    assert s[i + n..] == l[n..];
  }

  lemma StripCharacters(s: string, c: char)
    requires c in Strip(s)
    ensures c in s
  {
    var i := StripSlice(s);
  }

  lemma StripBlank(s: string)
    ensures Strip(s) == "" <==> Blank(s)
  {
    var i := StripSlice(s);
    if Strip(s) == "" {
      forall c | c in s ensures IsSpace(c) {
        assert c in s[..i] || c in s[i..];
      }
    } else {
      assert Strip(s)[0] in s;
    }
  }

  /** `s.split()`: the maximal runs of non-space characters. */
  function Words(s: string): (ws: seq<string>)
    ensures forall w | w in ws :: w != "" && SpaceFree(w)
    decreases |s|
  {
    var t := LStrip(s);
    if t == "" then []
    else
      var n := RunLength(t);
      [t[..n]] + Words(t[n..])
  }

  function RunLength(t: string): (n: nat)
    ensures n <= |t| && SpaceFree(t[..n])
    ensures n < |t| ==> IsSpace(t[n])
    ensures t != "" && !IsSpace(t[0]) ==> n > 0
  {
    if t == "" || IsSpace(t[0]) then 0
    else
      var n := RunLength(t[1..]);
      assert t[..1 + n] == [t[0]] + t[1..][..n];
      1 + n
  }

  /** `" ".join(s.split())`. */
  function Collapse(s: string): string {
    Join(Words(s), " ")
  }

  lemma CollapseSpaces(s: string, c: char)
    requires c in Collapse(s) && IsSpace(c)
    ensures c == ' '
  {
    JoinCharacters(Words(s), " ", c);
  }

  lemma WordsStep(w: string, c: char, s: string)
    requires w != "" && SpaceFree(w) && IsSpace(c)
    ensures Words(w + [c] + s) == [w] + Words(s)
  {
    var t := w + [c] + s;
    assert t[0] == w[0] && t[0] in w;
    assert LStrip(t) == t;
    var n := RunLength(t);
    assert t[|w|] == c;
    assert t[..n] == w;
    assert t[n..] == [c] + s;
    assert ([c] + s)[1..] == s;
    assert LStrip([c] + s) == LStrip(s);
    assert Words([c] + s) == Words(s);
  }

  /** White space separates the words on its two sides. */
  lemma {:induction false} WordsConcat(a: string, c: char, b: string)
    requires IsSpace(c)
    ensures Words(a + [c] + b) == Words(a) + Words(b)
    decreases |a|
  {
    hide IsSpace, Words, LStrip;
    if a == "" {
      assert a + [c] + b == [c] + b;
      WordsLeading(c, b);
      NoWords();
    } else if IsSpace(a[0]) {
      var rest := a[1..] + [c] + b;
      assert a + [c] + b == [a[0]] + rest && a == [a[0]] + a[1..];
      WordsConcat(a[1..], c, b);
      WordsLeading(a[0], rest);
      WordsLeading(a[0], a[1..]);
    } else {
      var n := RunLength(a);
      var w := a[..n];
      if n == |a| {
        WordsStep(a, c, b);
        OneWord(a);
      } else {
        var rest := a[n + 1..];
        assert a == w + [a[n]] + rest && a + [c] + b == w + [a[n]] + (rest + [c] + b);
        WordsConcat(rest, c, b);
        WordsStep(w, a[n], rest);
        WordsStep(w, a[n], rest + [c] + b);
      }
    }
  }

  lemma WordsLeading(c: char, s: string)
    requires IsSpace(c)
    ensures Words([c] + s) == Words(s)
  {
    assert ([c] + s)[1..] == s;
  }

  /** White space at the ends belongs to no word. */
  lemma WordsStripped(s: string)
    ensures Words(Strip(s)) == Words(s)
  {
    hide IsSpace;
    assert Words(LStrip(s)) == Words(s) by { assert LStrip(LStrip(s)) == LStrip(s); }
    WordsRStripped(LStrip(s));
  }

  lemma {:induction false} WordsRStripped(s: string)
    ensures Words(RStrip(s)) == Words(s)
  {
    hide IsSpace, Words;
    if s != "" && IsSpace(s[|s| - 1]) {
      var (t, c) := (s[..|s| - 1], s[|s| - 1]);
      WordsRStripped(t);
      assert s == t + [c] + "";
      WordsConcat(t, c, "");
      assert Words("") == [] by { NoWords(); }
    }
  }

  lemma NoWords()
    ensures Words("") == []
  {
  }

  lemma OneWord(w: string)
    requires w != "" && SpaceFree(w)
    ensures Words(w) == [w]
  {
    assert w[0] in w && LStrip(w) == w;
    var n := RunLength(w);
    forall i | 0 <= i < |w| ensures !IsSpace(w[i]) {
      assert w[i] in w;
    }
    assert w[..n] == w && w[n..] == "";
    assert Words("") == [];
  }

  // -- Line endings --

  /** Every CR stands immediately before an LF. */
  predicate CrOnlyBeforeLf(s: string) {
    forall i | 0 <= i < |s| && s[i] == '\r' :: i + 1 < |s| && s[i + 1] == '\n'
  }

  /** `s.replace("\r\n", "\n")`. */
  function NormalizeNewlines(s: string): string
    decreases |s|
  {
    if s == "" then ""
    else if |s| >= 2 && s[0] == '\r' && s[1] == '\n' then ['\n'] + NormalizeNewlines(s[2..])
    else [s[0]] + NormalizeNewlines(s[1..])
  }

  lemma {:induction false} NormalizeCharacters(s: string, c: char)
    requires c in NormalizeNewlines(s)
    ensures c in s
    decreases |s|
  {
    if s != "" {
      if |s| >= 2 && s[0] == '\r' && s[1] == '\n' {
        if c != '\n' { NormalizeCharacters(s[2..], c); }
      } else if c != s[0] {
        NormalizeCharacters(s[1..], c);
      }
    }
  }

  lemma {:induction false} NormalizedIsCrFree(s: string)
    requires CrOnlyBeforeLf(s)
    ensures '\r' !in NormalizeNewlines(s)
    decreases |s|
  {
    if s == "" {
    } else if s[0] == '\r' {
      assert forall i | 0 <= i < |s[2..]| :: s[2..][i] == s[i + 2];
      NormalizedIsCrFree(s[2..]);
    } else {
      assert forall i | 0 <= i < |s[1..]| :: s[1..][i] == s[i + 1];
      NormalizedIsCrFree(s[1..]);
    }
  }

  lemma {:induction false} NormalizeCrFree(s: string)
    requires '\r' !in s
    ensures CrOnlyBeforeLf(s) && NormalizeNewlines(s) == s
  {
    if s != "" {
      NormalizeCrFree(s[1..]);
      assert s == [s[0]] + s[1..];
    }
  }

  /** A CR at its end could still be followed by an LF. */
  predicate EndsInCr(s: string) {
    s != "" && s[|s| - 1] == '\r'
  }

  lemma {:induction false} NormalizeConcat(a: string, b: string)
    requires !EndsInCr(a)
    ensures NormalizeNewlines(a + b) == NormalizeNewlines(a) + NormalizeNewlines(b)
    decreases |a|
  {
    if a == "" {
      assert a + b == b;
    } else if |a| >= 2 && a[0] == '\r' && a[1] == '\n' {
      assert (a + b)[0] == a[0] && (a + b)[1] == a[1] && (a + b)[2..] == a[2..] + b;
      NormalizeConcat(a[2..], b);
    } else {
      assert (a + b)[0] == a[0] && (a + b)[1..] == a[1..] + b;
      assert |a| >= 2 ==> (a + b)[1] == a[1];
      NormalizeConcat(a[1..], b);
    }
  }

  /** Stray CRs are found on either side of a place that does not separate a CR from its LF. */
  lemma StrayConcat(a: string, b: string)
    requires !EndsInCr(a)
    ensures CrOnlyBeforeLf(a + b) <==> CrOnlyBeforeLf(a) && CrOnlyBeforeLf(b)
  {
    var s := a + b;
    if CrOnlyBeforeLf(s) {
      forall i | 0 <= i < |a| && a[i] == '\r' ensures i + 1 < |a| && a[i + 1] == '\n' {
        assert s[i] == a[i] && s[i + 1] == '\n';
        assert i + 1 < |a| ==> s[i + 1] == a[i + 1];
      }
      StrayInSuffix(a, b);
    }
    if CrOnlyBeforeLf(a) && CrOnlyBeforeLf(b) {
      forall i | 0 <= i < |s| && s[i] == '\r' ensures i + 1 < |s| && s[i + 1] == '\n' {
        if i < |a| { assert a[i] == '\r'; } else { assert b[i - |a|] == '\r'; }
      }
    }
  }

  /** A stray CR stays stray whatever comes before it. */
  lemma StrayInSuffix(p: string, s: string)
    ensures CrOnlyBeforeLf(p + s) ==> CrOnlyBeforeLf(s)
  {
    if CrOnlyBeforeLf(p + s) {
      forall i | 0 <= i < |s| && s[i] == '\r' ensures i + 1 < |s| && s[i + 1] == '\n' {
        var t := p + s;
        assert t[|p| + i] == s[i];
        assert |p| + i + 1 < |t| && t[|p| + i + 1] == s[i + 1];
      }
    }
  }

  // -- Fields that a line feed follows --

  /** A text with the line feed behind it, once newlines are normalized. */
  function Ended(field: string): string {
    NormalizeNewlines(field + "\n")
  }

  /** No CR is stray once the line feed follows. */
  predicate Sturdy(field: string) {
    CrOnlyBeforeLf(field + "\n")
  }

  lemma EndedStep(field: string)
    requires field != ""
    ensures Ended(field)
            == if field == "\r" then "\n"
               else if field[0] == '\r' && field[1] == '\n' then ['\n'] + Ended(field[2..])
               else [field[0]] + Ended(field[1..])
  {
    var s := field + "\n";
    assert s[0] == field[0] && s[1..] == field[1..] + "\n";
    if |field| >= 2 {
      assert s[1] == field[1] && s[2..] == field[2..] + "\n";
    } else if field == "\r" {
      assert s[1] == '\n' && s[2..] == "";
      assert NormalizeNewlines(s) == ['\n'] + "";
    }
  }

  lemma EndedNothing()
    ensures Ended("") == "\n"
  {
    assert "" + "\n" == "\n" && "\n"[1..] == "";
  }

  lemma {:induction false} EndedInLf(field: string)
    ensures Ended(field) != "" && Ended(field)[|Ended(field)| - 1] == '\n'
    ensures '\n' in Ended(field)[..|Ended(field)| - 1] <==> '\n' in field
    decreases |field|
  {
    hide Ended;
    if field == "" {
      EndedNothing();
    } else {
      EndedStep(field);
      if field == "\r" {
      } else if field[0] == '\r' && field[1] == '\n' {
        EndedInLf(field[2..]);
        EndedFront('\n', Ended(field[2..]));
      } else {
        EndedInLf(field[1..]);
        EndedFront(field[0], Ended(field[1..]));
        assert field == [field[0]] + field[1..];
      }
    }
  }

  lemma EndedFront(c: char, e: string)
    requires e != ""
    ensures ([c] + e)[..|e|] == [c] + e[..|e| - 1]
  {
  }

  /** The lines that a text, with the line feed printed behind it, reads back as. */
  function FieldLines(field: string): (lines: seq<string>)
    ensures |lines| >= 1
  {
    EndedInLf(field);
    Split(Ended(field)[..|Ended(field)| - 1], '\n')
  }

  /** Lines on both sides of a separator are split on their own. */
  lemma {:induction false} SplitConcat<T>(a: seq<T>, c: T, b: seq<T>)
    ensures Split(a + [c] + b, c) == Split(a, c) + Split(b, c)
    decreases |a|
  {
    hide Split;
    var i := IndexOf(a, c);
    if i == |a| {
      assert a[..i] == a;
      SplitWhole(a, c);
      SplitStep(a, c, b);
    } else {
      var (first, rest) := (a[..i], a[i + 1..]);
      assert a == first + [c] + rest;
      SplitConcat(rest, c, b);
      SplitStep(first, c, rest);
      SplitStep(first, c, rest + [c] + b);
      assert a + [c] + b == first + [c] + (rest + [c] + b);
    }
  }

  lemma FieldSplit(field: string, rest: string)
    ensures Split(NormalizeNewlines(field + "\n" + rest), '\n')
            == FieldLines(field) + Split(NormalizeNewlines(rest), '\n')
    ensures CrOnlyBeforeLf(field + "\n" + rest) <==> Sturdy(field) && CrOnlyBeforeLf(rest)
  {
    hide NormalizeNewlines, Split, CrOnlyBeforeLf;
    var e := Ended(field);
    EndedInLf(field);
    NormalizeConcat(field + "\n", rest);
    StrayConcat(field + "\n", rest);
    assert e == e[..|e| - 1] + ['\n'];
    SplitConcat(e[..|e| - 1], '\n', NormalizeNewlines(rest));
  }

  /** A text without line breaks is its one line. */
  lemma FieldIsLine(field: string)
    requires '\n' !in field && '\r' !in field
    ensures FieldLines(field) == [field] && Sturdy(field)
  {
    NormalizeCrFree(field + "\n");
    assert Ended(field)[..|Ended(field)| - 1] == field;
    SplitWhole(field, '\n');
  }

  /** Only line feeds make further lines. */
  lemma FieldLinesCount(field: string)
    ensures |FieldLines(field)| == 1 <==> '\n' !in field
  {
    EndedInLf(field);
    var t := Ended(field)[..|Ended(field)| - 1];
    if '\n' !in t { SplitWhole(t, '\n'); }
  }

  // -- Case and substrings --

  function LowerChar(c: char): char {
    if 'A' <= c <= 'Z' then (c as int + 32) as char else c
  }

  /** `s.lower()` on ASCII letters. */
  function Lower(s: string): (r: string)
    ensures |r| == |s| && forall i | 0 <= i < |s| :: r[i] == LowerChar(s[i])
  {
    seq(|s|, i requires 0 <= i < |s| => LowerChar(s[i]))
  }

  predicate Contains<T(==)>(s: seq<T>, t: seq<T>) {
    exists i | 0 <= i <= |s| :: t <= s[i..]
  }

  // -- Decimal numbers --

  predicate IsDigit(c: char) {
    '0' <= c <= '9'
  }

  predicate AllDigits(s: string) {
    forall c | c in s :: IsDigit(c)
  }

  function DigitValue(c: char): (d: nat)
    requires IsDigit(c)
    ensures d < 10
  {
    c as int - '0' as int
  }

  function DigitChar(d: nat): (c: char)
    requires d < 10
    ensures IsDigit(c) && DigitValue(c) == d
  {
    ('0' as int + d) as char
  }

  function NatToString(n: nat): (s: string)
    ensures s != "" && AllDigits(s)
  {
    if n < 10 then [DigitChar(n)] else NatToString(n / 10) + [DigitChar(n % 10)]
  }

  function IntToString(n: int): string {
    if n < 0 then "-" + NatToString(-n) else NatToString(n)
  }

  /** Digits in groups joined by single underscores, as `int()` reads them. */
  function ParseDigits(s: string): Option<nat> {
    if s == "" || !IsDigit(s[|s| - 1]) then None
    else
      var d := DigitValue(s[|s| - 1]);
      if |s| == 1 then Some(d)
      else
        var k := if s[|s| - 2] == '_' then |s| - 2 else |s| - 1;
        match ParseDigits(s[..k])
        case None => None
        case Some(high) => Some(high * 10 + d)
  }

  /** `int(s)`; None where Python raises ValueError. */
  function ParseInt(s: string): Option<int> {
    var t := Strip(s);
    if t != "" && (t[0] == '-' || t[0] == '+') then
      match ParseDigits(t[1..])
      case None => None
      case Some(n) => var v: int := n; Some(if t[0] == '-' then -v else v)
    else
      match ParseDigits(t)
      case None => None
      case Some(n) => Some(n)
  }

  lemma {:induction false} ParsePrintedNat(n: nat)
    ensures ParseDigits(NatToString(n)) == Some(n)
  {
    if n >= 10 {
      ParsePrintedNat(n / 10);
      var high := NatToString(n / 10);
      var s := high + [DigitChar(n % 10)];
      assert s[..|s| - 1] == high;
      assert s[|s| - 2] in high;
    }
  }

  lemma ParseSigned(t: string)
    requires Trimmed(t)
    ensures t != "" && t[0] == '-' && ParseDigits(t[1..]).Some? ==>
              ParseInt(t) == Some(0 - ParseDigits(t[1..]).value as int)
    ensures t != "" && IsDigit(t[0]) && ParseDigits(t).Some? ==> ParseInt(t) == Some(ParseDigits(t).value)
  {
    StripTrimmed(t);
  }

  lemma ParsePrintedInt(n: int)
    ensures ParseInt(IntToString(n)) == Some(n)
  {
    hide NatToString;
    var m: nat := if n < 0 then -n else n;
    var s := NatToString(m);
    ParsePrintedNat(m);
    assert s[0] in s && s[|s| - 1] in s;
    if n < 0 { assert ("-" + s)[1..] == s; }
    ParseSigned(IntToString(n));
  }

  // -- Exactly which texts are numbers --

  /** Digits, with single underscores between them. */
  predicate Grouped(s: string) {
    && s != "" && IsDigit(s[0]) && IsDigit(s[|s| - 1])
    && (forall c | c in s :: IsDigit(c) || c == '_')
    && (forall i | 0 <= i && i + 1 < |s| :: !(s[i] == '_' && s[i + 1] == '_'))
  }

  /** The value of the digits in a text, other characters left out. */
  function DigitsOf(s: string): nat {
    if s == "" then 0
    else if IsDigit(s[|s| - 1]) then DigitsOf(s[..|s| - 1]) * 10 + DigitValue(s[|s| - 1])
    else DigitsOf(s[..|s| - 1])
  }

  lemma {:induction false} DigitsExact(s: string)
    ensures ParseDigits(s) == if Grouped(s) then Some(DigitsOf(s)) else None
  {
    if s != "" && IsDigit(s[|s| - 1]) {
      var last := s[|s| - 1];
      if |s| == 1 {
        assert DigitsOf(s) == DigitsOf(s[..0]) * 10 + DigitValue(last);
        assert s[0] in s;
      } else {
        var k := if s[|s| - 2] == '_' then |s| - 2 else |s| - 1;
        var front := s[..k];
        DigitsExact(front);
        assert forall c | c in front :: c in s;
        GroupedFront(s, k);
        if s[|s| - 2] == '_' { assert s[..|s| - 1][..|s| - 2] == front; }
      }
    }
  }

  lemma GroupedFront(s: string, k: nat)
    requires |s| >= 2 && IsDigit(s[|s| - 1]) && k == if s[|s| - 2] == '_' then |s| - 2 else |s| - 1
    ensures Grouped(s) <==> Grouped(s[..k])
  {
    var front := s[..k];
    assert forall c | c in front :: c in s;
    if Grouped(s) {
      assert s[|s| - 2] in s;
      if k == |s| - 2 && k > 0 { assert s[k - 1] in s; }
    }
    if Grouped(front) {
      forall c | c in s ensures IsDigit(c) || c == '_' {
        assert s == front + s[k..];
        if c !in front { assert c in s[k..]; }
      }
      forall i | 0 <= i && i + 1 < |s| ensures !(s[i] == '_' && s[i + 1] == '_') {
        if i + 1 < k { assert front[i] == s[i] && front[i + 1] == s[i + 1]; }
      }
    }
  }

  /** `int()` reads a text exactly when, stripped, it is an optional sign and grouped digits. */
  lemma IntExact(s: string)
    ensures var t := Strip(s);
            var signed := t != "" && (t[0] == '-' || t[0] == '+');
            var (digits, negative) := if signed then (t[1..], t[0] == '-') else (t, false);
            ParseInt(s) == if !Grouped(digits) then None
                           else Some(if negative then 0 - DigitsOf(digits) as int else DigitsOf(digits) as int)
  {
    hide Strip, ParseDigits, Grouped, DigitsOf;
    var t := Strip(s);
    DigitsExact(t);
    if t != "" { DigitsExact(t[1..]); }
  }
}
