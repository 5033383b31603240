/** UTC datetimes, their texts, and the agreement of text order with time order. */
module Calendar {
  import opened Wrappers
  import opened Text

  datatype DateTime = DateTime(
    year: nat, month: nat, day: nat, hour: nat, minute: nat, second: nat, micro: nat)

  predicate LeapYear(y: nat) {
    y % 4 == 0 && (y % 100 != 0 || y % 400 == 0)
  }

  function DaysInMonth(y: nat, m: nat): (d: nat)
    ensures 28 <= d <= 31
  {
    if m == 2 then (if LeapYear(y) then 29 else 28)
    else if m == 4 || m == 6 || m == 9 || m == 11 then 30
    else 31
  }

  predicate Valid(t: DateTime) {
    && 1 <= t.year <= 9999 && 1 <= t.month <= 12 && 1 <= t.day <= DaysInMonth(t.year, t.month)
    && t.hour < 24 && t.minute < 60 && t.second < 60 && t.micro < 1000000
  }

  function WholeSecond(t: DateTime): DateTime {
    t.(micro := 0)
  }

  // -- Fixed-width numbers --

  function Pow10(w: nat): nat {
    if w == 0 then 1 else 10 * Pow10(w - 1)
  }

  /** `n` in exactly `w` digits, the low ones. */
  function Fixed(n: nat, w: nat): (s: string)
    ensures |s| == w && AllDigits(s)
  {
    if w == 0 then "" else Fixed(n / 10, w - 1) + [DigitChar(n % 10)]
  }

  function Number(s: string): nat
    requires AllDigits(s)
  {
    if s == "" then 0
    else
      assert forall c | c in s[..|s| - 1] :: c in s;
      Number(s[..|s| - 1]) * 10 + DigitValue(s[|s| - 1])
  }

  lemma {:induction false} NumberOfFixed(n: nat, w: nat)
    requires n < Pow10(w)
    ensures Number(Fixed(n, w)) == n
  {
    if w > 0 {
      NumberOfFixed(n / 10, w - 1);
      var s := Fixed(n, w);
      assert s[..w - 1] == Fixed(n / 10, w - 1);
    }
  }

  // -- Texts --

  /** The 19 characters up to the second. */
  function SecondText(t: DateTime): (s: string)
    ensures |s| == 19
  {
    Fixed(t.year, 4) + "-" + Fixed(t.month, 2) + "-" + Fixed(t.day, 2) + "T"
    + Fixed(t.hour, 2) + ":" + Fixed(t.minute, 2) + ":" + Fixed(t.second, 2)
  }

  /** `strftime("%Y-%m-%dT%H:%M:%SZ")`. */
  function Stamp(t: DateTime): string {
    SecondText(t) + "Z"
  }

  function Fraction(t: DateTime): string {
    if t.micro == 0 then "" else "." + Fixed(t.micro, 6)
  }

  /** `isoformat()`: the fraction is left out when it is zero. */
  function IsoFormat(t: DateTime): string {
    SecondText(t) + Fraction(t) + "+00:00"
  }

  /** A fraction of any number of digits, truncated or padded to six. */
  function ParseFraction(f: string): Option<nat> {
    if f == "" then Some(0)
    else if f[0] == '.' && |f| > 1 && AllDigits(f[1..]) then
      var six := (f[1..] + "000000")[..6];
      assert AllDigits("000000");
      Some(Number(six))
    else None
  }

  predicate SecondShape(c: string) {
    && |c| >= 19
    && AllDigits(c[..4]) && c[4] == '-' && AllDigits(c[5..7]) && c[7] == '-' && AllDigits(c[8..10])
    && AllDigits(c[11..13]) && c[13] == ':' && AllDigits(c[14..16]) && c[16] == ':' && AllDigits(c[17..19])
  }

  function ParseCore(c: string): Option<DateTime> {
    if !SecondShape(c) then None
    else match ParseFraction(c[19..]) {
      case None => None
      case Some(micro) =>
        var t := DateTime(Number(c[..4]), Number(c[5..7]), Number(c[8..10]),
                          Number(c[11..13]), Number(c[14..16]), Number(c[17..19]), micro);
        if Valid(t) then Some(t) else None
    }
  }

  const UTC_OFFSET := "+00:00"

  /** `datetime.fromisoformat(item.replace("Z", "+00:00")).astimezone(UTC)`. */
  function ParseStamp(item: string): (r: Option<DateTime>)
    ensures r.Some? ==> Valid(r.value)
  {
    var t := Join(Split(item, 'Z'), UTC_OFFSET);
    if |t| < 25 || t[|t| - 6..] != UTC_OFFSET then None else ParseCore(t[..|t| - 6])
  }

  lemma SecondFields(t: DateTime, rest: string)
    requires Valid(t)
    ensures var c := SecondText(t) + rest;
            && SecondShape(c)
            && Number(c[..4]) == t.year && Number(c[5..7]) == t.month && Number(c[8..10]) == t.day
            && Number(c[11..13]) == t.hour && Number(c[14..16]) == t.minute && Number(c[17..19]) == t.second
  {
    hide Fixed, Number;
    var c := SecondText(t) + rest;
    assert Pow10(2) == 100 && Pow10(4) == 10000 by { assert Pow10(1) == 10 && Pow10(3) == 1000; }
    assert c[..4] == Fixed(t.year, 4) && c[5..7] == Fixed(t.month, 2) && c[8..10] == Fixed(t.day, 2);
    assert c[11..13] == Fixed(t.hour, 2) && c[14..16] == Fixed(t.minute, 2) && c[17..19] == Fixed(t.second, 2);
    NumberOfFixed(t.year, 4);
    NumberOfFixed(t.month, 2);
    NumberOfFixed(t.day, 2);
    NumberOfFixed(t.hour, 2);
    NumberOfFixed(t.minute, 2);
    NumberOfFixed(t.second, 2);
  }

  lemma FractionRead(t: DateTime)
    requires Valid(t)
    ensures ParseFraction(Fraction(t)) == Some(t.micro)
  {
    if t.micro != 0 {
      var f := Fraction(t);
      assert f[1..] == Fixed(t.micro, 6);
      assert (f[1..] + "000000")[..6] == f[1..];
      assert Pow10(6) == 1000000 by { assert Pow10(2) == 100 && Pow10(4) == 10000; }
      NumberOfFixed(t.micro, 6);
    }
  }

  lemma SecondTextHasNoZ(t: DateTime)
    ensures 'Z' !in SecondText(t)
  {
    hide Fixed;
    assert !IsDigit('Z');
  }

  /** Reading a printed stamp gives the time back without its fraction of a second. */
  lemma StampRoundTrip(t: DateTime)
    requires Valid(t)
    ensures ParseStamp(Stamp(t)) == Some(WholeSecond(t))
  {
    hide SecondText, Split, Number, SecondShape;
    var c := SecondText(t);
    SecondTextHasNoZ(t);
    SplitStep(c, 'Z', "");
    assert Stamp(t) == c + ['Z'] + "";
    SplitWhole("", 'Z');
    assert Split(Stamp(t), 'Z') == [c, ""];
    assert [c, ""][1..] == [""];
    var joined := c + UTC_OFFSET;
    assert Join(Split(Stamp(t), 'Z'), UTC_OFFSET) == c + UTC_OFFSET + "" == joined;
    assert joined[..|joined| - 6] == c && joined[|joined| - 6..] == UTC_OFFSET;
    SecondFields(t, "");
    assert c + "" == c && c[19..] == "";
  }

  /** `fromisoformat` undoes `isoformat`. */
  lemma IsoRoundTrip(t: DateTime)
    requires Valid(t)
    ensures ParseStamp(IsoFormat(t)) == Some(t)
  {
    hide SecondText;
    var c := SecondText(t) + Fraction(t);
    var text := IsoFormat(t);
    SecondTextHasNoZ(t);
    assert 'Z' !in Fixed(t.micro, 6) by { assert !IsDigit('Z'); }
    SplitWhole(text, 'Z');
    assert text[..|text| - 6] == c && text[|text| - 6..] == UTC_OFFSET;
    SecondFields(t, Fraction(t));
    assert c[19..] == Fraction(t);
    FractionRead(t);
  }

  lemma IsoCharacters(t: DateTime, c: char)
    requires c in IsoFormat(t)
    ensures IsDigit(c) || c in "-T:.+"
  {
    hide Fixed;
    assert forall n: nat, w: nat :: AllDigits(Fixed(n, w));
  }

  lemma StampCharacters(t: DateTime, c: char)
    requires c in Stamp(t)
    ensures IsDigit(c) || c in "-T:Z"
  {
    hide Fixed;
  }

  // -- Exactly what is read --

  lemma {:induction false} FixedOfNumber(s: string)
    requires AllDigits(s)
    ensures Fixed(Number(s), |s|) == s && Number(s) < Pow10(|s|)
  {
    if s != "" {
      var front := s[..|s| - 1];
      assert forall c | c in front :: c in s;
      FixedOfNumber(front);
      assert s == front + [s[|s| - 1]] && s[|s| - 1] in s;
      DigitOfValue(s[|s| - 1]);
    }
  }

  lemma DigitOfValue(c: char)
    requires IsDigit(c)
    ensures DigitChar(DigitValue(c)) == c
  {
  }

  lemma {:induction false} NumberConcat(x: string, y: string)
    requires AllDigits(x) && AllDigits(y)
    ensures AllDigits(x + y) && Number(x + y) == Number(x) * Pow10(|y|) + Number(y)
    decreases |y|
  {
    if y == "" {
      assert x + y == x;
    } else {
      var front := y[..|y| - 1];
      assert forall c | c in front :: c in y;
      NumberConcat(x, front);
      assert (x + y)[..|x + y| - 1] == x + front && (x + y)[|x + y| - 1] == y[|y| - 1];
      assert Number(x) * Pow10(|y|) == Number(x) * Pow10(|front|) * 10;
    }
  }

  lemma {:induction false} NumberOfZeros(w: nat)
    ensures var zeros := seq(w, _ => '0'); AllDigits(zeros) && Number(zeros) == 0
  {
    if w > 0 {
      NumberOfZeros(w - 1);
      var zeros := seq(w, _ => '0');
      assert zeros[..w - 1] == seq(w - 1, _ => '0');
    }
  }

  lemma {:induction false} Pow10Sum(v: nat, w: nat)
    ensures Pow10(v + w) == Pow10(v) * Pow10(w)
  {
    if v > 0 { Pow10Sum(v - 1, w); }
  }

  /** `micro` is the number, taken as a fraction, in microseconds rounded down. */
  predicate RoundedDown(micro: nat, number: nat, w: nat) {
    micro * Pow10(w) <= number * Pow10(6) < (micro + 1) * Pow10(w)
  }

  /** A fraction of a second counts in whole microseconds, rounded down, however many digits it has. */
  lemma FractionExact(digits: string)
    requires digits != "" && AllDigits(digits)
    ensures var micro := ParseFraction("." + digits);
            micro.Some? && RoundedDown(micro.value, Number(digits), |digits|)
  {
    hide Number, RoundedDown, ParseFraction, AllDigits;
    var six := SixDigits(digits);
    if |digits| >= 6 {
      assert six == digits[..6];
      LongFraction(digits);
    } else {
      assert six == digits + seq(6 - |digits|, _ => '0');
      ShortFraction(digits);
    }
    DotFraction(digits);
  }

  function SixDigits(digits: string): string {
    (digits + "000000")[..6]
  }

  lemma DotFraction(digits: string)
    requires digits != "" && AllDigits(digits)
    ensures AllDigits(SixDigits(digits)) && ParseFraction("." + digits) == Some(Number(SixDigits(digits)))
  {
    hide Number;
    var f := "." + digits;
    assert f[1..] == digits;
  }

  lemma LongFraction(digits: string)
    requires |digits| >= 6 && AllDigits(digits)
    ensures AllDigits(digits[..6]) && RoundedDown(Number(digits[..6]), Number(digits), |digits|)
  {
    hide Number, Pow10;
    var (six, tail) := (digits[..6], digits[6..]);
    assert digits == six + tail;
    assert forall c | c in six || c in tail :: c in digits;
    NumberConcat(six, tail);
    FixedOfNumber(tail);
    Pow10Sum(6, |tail|);
    Pow10Positive(6);
    LongArithmetic(Number(six), Number(tail), Pow10(6), Pow10(|tail|));
  }

  lemma LongArithmetic(six: nat, tail: nat, p: nat, q: nat)
    requires tail < q && p > 0
    ensures six * (p * q) <= (six * q + tail) * p < (six + 1) * (p * q)
  {
    assert six * (p * q) == six * q * p;
    assert (six * q + tail) * p == six * q * p + tail * p;
    assert (six + 1) * (p * q) == six * q * p + q * p;
    assert tail * p < q * p;
  }

  lemma ShortFraction(digits: string)
    requires |digits| < 6 && AllDigits(digits)
    ensures var six := digits + seq(6 - |digits|, _ => '0');
            AllDigits(six) && RoundedDown(Number(six), Number(digits), |digits|)
  {
    hide Number, Pow10;
    var n := |digits|;
    NumberOfZeros(6 - n);
    NumberConcat(digits, seq(6 - n, _ => '0'));
    Pow10Sum(6 - n, n);
    Pow10Positive(n);
    ShortArithmetic(Number(digits), Pow10(6 - n), Pow10(n));
  }

  lemma ShortArithmetic(n: nat, p: nat, q: nat)
    requires q > 0
    ensures (n * p + 0) * q <= n * (p * q) < (n * p + 0 + 1) * q
  {
    assert (n * p) * q == n * (p * q);
    assert (n * p + 1) * q == (n * p) * q + q;
  }

  lemma Pow10Positive(w: nat)
    ensures Pow10(w) > 0
  {
  }

  /** The text for a time with `z` between date and time and this fraction. */
  function Written(t: DateTime, sep: char, fraction: string): string {
    Fixed(t.year, 4) + "-" + Fixed(t.month, 2) + "-" + Fixed(t.day, 2) + [sep]
    + Fixed(t.hour, 2) + ":" + Fixed(t.minute, 2) + ":" + Fixed(t.second, 2) + fraction + "+00:00"
  }

  /** An item is read as a time exactly when, with `Z` replaced, it is the text of that existing time. */
  lemma StampExact(item: string, t: DateTime)
    ensures ParseStamp(item) == Some(t)
            <==> Valid(t) && exists sep, fraction ::
                   Join(Split(item, 'Z'), "+00:00") == Written(t, sep, fraction)
                   && ParseFraction(fraction) == Some(t.micro)
  {
    hide Split, Join, ParseFraction, Fixed, Number;
    var text := Join(Split(item, 'Z'), "+00:00");
    if ParseStamp(item) == Some(t) {
      var c := text[..|text| - 6];
      CoreIsWritten(c, t);
      assert text == c + "+00:00";
      assert text == Written(t, c[10], c[19..]);
    }
    if Valid(t) {
      if sep, fraction :| text == Written(t, sep, fraction) && ParseFraction(fraction) == Some(t.micro) {
        WrittenIsRead(t, sep, fraction);
      }
    }
  }

  lemma CoreIsWritten(c: string, t: DateTime)
    requires ParseCore(c) == Some(t)
    ensures Valid(t) && ParseFraction(c[19..]) == Some(t.micro)
    ensures c + "+00:00" == Written(t, c[10], c[19..])
  {
    hide ParseFraction, Fixed, Number;
    FixedOfNumber(c[..4]);
    FixedOfNumber(c[5..7]);
    FixedOfNumber(c[8..10]);
    FixedOfNumber(c[11..13]);
    FixedOfNumber(c[14..16]);
    FixedOfNumber(c[17..19]);
    Sliced(c);
  }

  lemma Sliced(c: string)
    requires SecondShape(c)
    ensures c == c[..4] + "-" + c[5..7] + "-" + c[8..10] + [c[10]]
                 + c[11..13] + ":" + c[14..16] + ":" + c[17..19] + c[19..]
  {
  }

  lemma WrittenIsRead(t: DateTime, sep: char, fraction: string)
    requires Valid(t) && ParseFraction(fraction) == Some(t.micro)
    ensures var text := Written(t, sep, fraction);
            |text| >= 25 && text[|text| - 6..] == "+00:00" && ParseCore(text[..|text| - 6]) == Some(t)
  {
    hide ParseFraction, Fixed, Number;
    var text := Written(t, sep, fraction);
    var c := text[..|text| - 6];
    assert c[..4] == Fixed(t.year, 4) && c[5..7] == Fixed(t.month, 2) && c[8..10] == Fixed(t.day, 2);
    assert c[11..13] == Fixed(t.hour, 2) && c[14..16] == Fixed(t.minute, 2) && c[17..19] == Fixed(t.second, 2);
    assert c[19..] == fraction;
    assert Pow10(2) == 100 && Pow10(4) == 10000 by { assert Pow10(1) == 10 && Pow10(3) == 1000; }
    NumberOfFixed(t.year, 4);
    NumberOfFixed(t.month, 2);
    NumberOfFixed(t.day, 2);
    NumberOfFixed(t.hour, 2);
    NumberOfFixed(t.minute, 2);
    NumberOfFixed(t.second, 2);
  }

  // -- Instants --

  function DaysInYear(y: nat): nat {
    if LeapYear(y) then 366 else 365
  }

  /** Days from the start of year 1 to the start of year `y`. */
  function DaysBeforeYear(y: nat): nat {
    if y <= 1 then 0 else DaysBeforeYear(y - 1) + DaysInYear(y - 1)
  }

  function DaysBeforeMonth(y: nat, m: nat): nat {
    if m <= 1 then 0 else DaysBeforeMonth(y, m - 1) + DaysInMonth(y, m - 1)
  }

  function DayNumber(t: DateTime): nat {
    DaysBeforeYear(t.year) + DaysBeforeMonth(t.year, t.month) + t.day
  }

  function SecondNumber(t: DateTime): nat {
    ((DayNumber(t) * 24 + t.hour) * 60 + t.minute) * 60 + t.second
  }

  /** Microseconds on the proleptic Gregorian time line. */
  function Instant(t: DateTime): nat {
    SecondNumber(t) * 1000000 + t.micro
  }

  lemma {:induction false} MonthsGrow(y: nat, m: nat, n: nat)
    requires 1 <= m < n
    ensures DaysBeforeMonth(y, m) + DaysInMonth(y, m) <= DaysBeforeMonth(y, n)
  {
    if n > m + 1 { MonthsGrow(y, m, n - 1); }
  }

  lemma TwelveMonths(y: nat)
    ensures DaysBeforeMonth(y, 13) == DaysInYear(y)
  {
    var february := DaysInMonth(y, 2);
    assert DaysBeforeMonth(y, 2) == 31;
    assert DaysBeforeMonth(y, 4) == 62 + february;
    assert DaysBeforeMonth(y, 6) == 123 + february;
    assert DaysBeforeMonth(y, 8) == 184 + february;
    assert DaysBeforeMonth(y, 10) == 245 + february;
    assert DaysBeforeMonth(y, 12) == 306 + february;
  }

  lemma {:induction false} YearsGrow(y: nat, z: nat)
    requires 1 <= y < z
    ensures DaysBeforeYear(y) + DaysInYear(y) <= DaysBeforeYear(z)
  {
    if z > y + 1 { YearsGrow(y, z - 1); }
  }

  /** The day fits before the next month, and the month before the next year. */
  lemma DayWithinYear(t: DateTime)
    requires Valid(t)
    ensures DaysBeforeMonth(t.year, t.month) + t.day <= DaysInYear(t.year)
  {
    MonthsGrow(t.year, t.month, 13);
    TwelveMonths(t.year);
  }

  // -- Order --

  /** Lexicographic order by code point, as SQLite compares ASCII text. */
  predicate TextLess(a: string, b: string) {
    if b == "" then false
    else if a == "" then true
    else a[0] < b[0] || (a[0] == b[0] && TextLess(a[1..], b[1..]))
  }

  lemma {:induction false} TextLessAppend(a: string, b: string, x: string, y: string)
    requires |a| == |b|
    ensures TextLess(a + x, b + y) <==> TextLess(a, b) || (a == b && TextLess(x, y))
  {
    if a == "" {
      assert a + x == x && b + y == y;
    } else {
      assert (a + x)[1..] == a[1..] + x && (b + y)[1..] == b[1..] + y;
      TextLessAppend(a[1..], b[1..], x, y);
      assert a == [a[0]] + a[1..] && b == [b[0]] + b[1..];
    }
  }

  lemma {:induction false} FixedOrder(m: nat, n: nat, w: nat)
    requires m < Pow10(w) && n < Pow10(w)
    ensures TextLess(Fixed(m, w), Fixed(n, w)) <==> m < n
    ensures Fixed(m, w) == Fixed(n, w) <==> m == n
  {
    hide Number;
    NumberOfFixed(m, w);
    NumberOfFixed(n, w);
    if w > 0 {
      FixedOrder(m / 10, n / 10, w - 1);
      var (c, d) := (DigitChar(m % 10), DigitChar(n % 10));
      TextLessAppend(Fixed(m / 10, w - 1), Fixed(n / 10, w - 1), [c], [d]);
      assert TextLess([c], [d]) <==> c < d;
    }
  }

  /** A field, then the rest: the order of two such texts. */
  lemma FieldOrder(m: nat, n: nat, w: nat, x: string, y: string)
    requires m < Pow10(w) && n < Pow10(w)
    ensures TextLess(Fixed(m, w) + x, Fixed(n, w) + y) <==> m < n || (m == n && TextLess(x, y))
  {
    FixedOrder(m, n, w);
    TextLessAppend(Fixed(m, w), Fixed(n, w), x, y);
  }

  lemma SeparatorOrder(c: char, x: string, y: string)
    ensures TextLess([c] + x, [c] + y) <==> TextLess(x, y)
  {
    TextLessAppend([c], [c], x, y);
  }

  /** The time of day, with what follows it. */
  function ClockText(t: DateTime): string {
    Fixed(t.hour, 2) + (":" + (Fixed(t.minute, 2) + (":" + (Fixed(t.second, 2) + (Fraction(t) + UTC_OFFSET)))))
  }

  function DateClockText(t: DateTime): string {
    Fixed(t.year, 4) + ("-" + (Fixed(t.month, 2) + ("-" + (Fixed(t.day, 2) + ("T" + ClockText(t))))))
  }

  lemma IsoIsDateClock(t: DateTime)
    ensures IsoFormat(t) == DateClockText(t)
  {
    hide Fixed, Fraction;
  }

  /** '+' comes before '.', so a time without a fraction comes before one with it. */
  lemma FractionOrder(a: DateTime, b: DateTime)
    requires Valid(a) && Valid(b)
    ensures TextLess(Fraction(a) + UTC_OFFSET, Fraction(b) + UTC_OFFSET) <==> a.micro < b.micro
  {
    hide Fixed;
    assert Pow10(6) == 1000000 by { assert Pow10(2) == 100 && Pow10(4) == 10000; }
    if a.micro > 0 && b.micro > 0 {
      assert Fraction(a) + UTC_OFFSET == "." + (Fixed(a.micro, 6) + UTC_OFFSET);
      assert Fraction(b) + UTC_OFFSET == "." + (Fixed(b.micro, 6) + UTC_OFFSET);
      SeparatorOrder('.', Fixed(a.micro, 6) + UTC_OFFSET, Fixed(b.micro, 6) + UTC_OFFSET);
      FieldOrder(a.micro, b.micro, 6, UTC_OFFSET, UTC_OFFSET);
      Irreflexive(UTC_OFFSET);
    } else if a.micro == 0 && b.micro == 0 {
      Irreflexive("" + UTC_OFFSET);
    } else {
      assert (Fraction(a) + UTC_OFFSET)[0] == if a.micro == 0 then '+' else '.';
      assert (Fraction(b) + UTC_OFFSET)[0] == if b.micro == 0 then '+' else '.';
    }
  }

  lemma {:induction false} Irreflexive(a: string)
    ensures !TextLess(a, a)
  {
    if a != "" { Irreflexive(a[1..]); }
  }

  predicate ClockBefore(a: DateTime, b: DateTime) {
    || a.hour < b.hour
    || (a.hour == b.hour &&
        (a.minute < b.minute ||
         (a.minute == b.minute && (a.second < b.second || (a.second == b.second && a.micro < b.micro)))))
  }

  predicate DateBefore(a: DateTime, b: DateTime) {
    || a.year < b.year
    || (a.year == b.year && (a.month < b.month || (a.month == b.month && a.day < b.day)))
  }

  predicate SameDate(a: DateTime, b: DateTime) {
    a.year == b.year && a.month == b.month && a.day == b.day
  }

  lemma ClockOrder(a: DateTime, b: DateTime)
    requires Valid(a) && Valid(b)
    ensures TextLess(ClockText(a), ClockText(b)) <==> ClockBefore(a, b)
  {
    hide Fixed, Fraction;
    assert Pow10(2) == 100 by { assert Pow10(1) == 10; }
    var (fa, fb) := (Fraction(a) + UTC_OFFSET, Fraction(b) + UTC_OFFSET);
    var (sa, sb) := (Fixed(a.second, 2) + fa, Fixed(b.second, 2) + fb);
    var (ma, mb) := (Fixed(a.minute, 2) + (":" + sa), Fixed(b.minute, 2) + (":" + sb));
    FractionOrder(a, b);
    FieldOrder(a.second, b.second, 2, fa, fb);
    SeparatorOrder(':', sa, sb);
    FieldOrder(a.minute, b.minute, 2, ":" + sa, ":" + sb);
    SeparatorOrder(':', ma, mb);
    FieldOrder(a.hour, b.hour, 2, ":" + ma, ":" + mb);
  }

  lemma TextOrder(a: DateTime, b: DateTime)
    requires Valid(a) && Valid(b)
    ensures TextLess(IsoFormat(a), IsoFormat(b)) <==> DateBefore(a, b) || (SameDate(a, b) && ClockBefore(a, b))
  {
    hide Fixed, ClockText;
    assert Pow10(2) == 100 && Pow10(4) == 10000 by { assert Pow10(1) == 10 && Pow10(3) == 1000; }
    IsoIsDateClock(a);
    IsoIsDateClock(b);
    var (ta, tb) := ("T" + ClockText(a), "T" + ClockText(b));
    var (da, db) := (Fixed(a.day, 2) + ta, Fixed(b.day, 2) + tb);
    var (ma, mb) := (Fixed(a.month, 2) + ("-" + da), Fixed(b.month, 2) + ("-" + db));
    ClockOrder(a, b);
    SeparatorOrder('T', ClockText(a), ClockText(b));
    FieldOrder(a.day, b.day, 2, ta, tb);
    SeparatorOrder('-', da, db);
    FieldOrder(a.month, b.month, 2, "-" + da, "-" + db);
    SeparatorOrder('-', ma, mb);
    FieldOrder(a.year, b.year, 4, "-" + ma, "-" + mb);
  }

  lemma DayOrder(a: DateTime, b: DateTime)
    requires Valid(a) && Valid(b)
    ensures DayNumber(a) < DayNumber(b) <==> DateBefore(a, b)
    ensures DayNumber(a) == DayNumber(b) <==> SameDate(a, b)
  {
    hide DaysBeforeYear, DaysBeforeMonth;
    DayWithinYear(a);
    DayWithinYear(b);
    if a.year < b.year {
      YearsGrow(a.year, b.year);
    } else if b.year < a.year {
      YearsGrow(b.year, a.year);
    } else if a.month < b.month {
      MonthsGrow(a.year, a.month, b.month);
    } else if b.month < a.month {
      MonthsGrow(a.year, b.month, a.month);
    }
  }

  lemma InstantOrder(a: DateTime, b: DateTime)
    requires Valid(a) && Valid(b)
    ensures Instant(a) < Instant(b) <==> DateBefore(a, b) || (SameDate(a, b) && ClockBefore(a, b))
  {
    hide DayNumber;
    DayOrder(a, b);
  }

  /**
   Comparing `isoformat()` texts compares instants, for all years 1 to 9999 and with the
   microsecond part left out when it is zero.
   */
  lemma TextOrderIsTimeOrder(a: DateTime, b: DateTime)
    requires Valid(a) && Valid(b)
    ensures TextLess(IsoFormat(a), IsoFormat(b)) <==> Instant(a) < Instant(b)
  {
    TextOrder(a, b);
    InstantOrder(a, b);
  }

  /** The instant `ttl` seconds before now. */
  ghost predicate IsCutoff(cutoff: DateTime, now: DateTime, ttl: nat) {
    Valid(cutoff) && Valid(now) && Instant(cutoff) + ttl * 1000000 == Instant(now)
  }

  /** The text filter `>= cutoff` selects exactly the times whose age is within the time to live. */
  lemma UnexpiredExact(t: DateTime, cutoff: DateTime, now: DateTime, ttl: nat)
    requires Valid(t) && IsCutoff(cutoff, now, ttl)
    ensures !TextLess(IsoFormat(t), IsoFormat(cutoff)) <==> Instant(now) - Instant(t) <= ttl * 1000000
  {
    TextOrderIsTimeOrder(t, cutoff);
  }
}
