/**
 UTF-8 as `bytes.decode("utf-8")` and `str.encode("utf-8")` use it: section 3 of RFC 3629,
 with overlong forms, surrogates and values above U+10FFFF rejected.
 */
module Utf8 {
  import opened Wrappers
  import opened Text

  type byte = x: int | 0 <= x < 256

  function EncodeChar(c: char): (r: seq<byte>)
    ensures 1 <= |r| <= 4
  {
    var n := c as int;
    if n < 0x80 then [n]
    else if n < 0x800 then [0xC0 + n / 64, Tail(n)]
    else if n < 0x1_0000 then [0xE0 + n / 64 / 64, Tail(n / 64), Tail(n)]
    else [0xF0 + n / 64 / 64 / 64, Tail(n / 64 / 64), Tail(n / 64), Tail(n)]
  }

  function Tail(n: int): byte
    requires 0 <= n
  {
    0x80 + n % 64
  }

  function Append(high: int, tail: int): int {
    high * 64 + (tail - 0x80)
  }

  function Encode(s: string): seq<byte> {
    if s == "" then [] else EncodeChar(s[0]) + Encode(s[1..])
  }

  predicate Continuation(b: byte) {
    0x80 <= b < 0xC0
  }

  predicate IsScalar(n: int) {
    0 <= n < 0xD800 || 0xE000 <= n < 0x11_0000
  }

  /** The first character of `b` and the number of octets it takes, if `b` starts with one. */
  function DecodeChar(b: seq<byte>): (r: Option<(char, nat)>)
    ensures r.Some? ==> 1 <= r.value.1 <= |b|
  {
    if b == [] then None
    else if b[0] < 0x80 then Some((b[0] as char, 1))
    else if 0xC0 <= b[0] < 0xE0 && |b| >= 2 && Continuation(b[1]) then
      var n := Append(b[0] - 0xC0, b[1]);
      if 0x80 <= n then Some((n as char, 2)) else None
    else if 0xE0 <= b[0] < 0xF0 && |b| >= 3 && Continuation(b[1]) && Continuation(b[2]) then
      var n := Append(Append(b[0] - 0xE0, b[1]), b[2]);
      if 0x800 <= n && IsScalar(n) then Some((n as char, 3)) else None
    else if 0xF0 <= b[0] < 0xF8 && |b| >= 4
            && Continuation(b[1]) && Continuation(b[2]) && Continuation(b[3]) then
      var n := Append(Append(Append(b[0] - 0xF0, b[1]), b[2]), b[3]);
      if 0x1_0000 <= n && IsScalar(n) then Some((n as char, 4)) else None
    else None
  }

  /** The text `b` encodes; None where Python raises UnicodeDecodeError. */
  function Decode(b: seq<byte>): Option<string> {
    if b == [] then Some("")
    else match DecodeChar(b) {
      case None => None
      case Some((c, n)) =>
        match Decode(b[n..])
        case None => None
        case Some(s) => Some([c] + s)
    }
  }

  lemma AppendInverse(high: int, tail: byte)
    requires 0 <= high && Continuation(tail)
    ensures Append(high, tail) / 64 == high
    ensures Tail(Append(high, tail)) == tail
  {
  }

  lemma DecodeCharInverse(c: char, rest: seq<byte>)
    ensures DecodeChar(EncodeChar(c) + rest) == Some((c, |EncodeChar(c)|))
  {
    var e := EncodeChar(c);
    var b := e + rest;
    assert forall i | 0 <= i < |e| :: b[i] == e[i];
  }

  lemma EncodeTwoOctets(n: int, b: seq<byte>)
    requires |b| == 2 && 0xC0 <= b[0] && Continuation(b[1])
    requires n == Append(b[0] - 0xC0, b[1]) && 0x80 <= n < 0x800
    ensures [0xC0 + n / 64, Tail(n)] == b
  {
    AppendInverse(b[0] - 0xC0, b[1]);
  }

  lemma EncodeTwo(b: seq<byte>)
    requires |b| == 2 && DecodeChar(b).Some? && DecodeChar(b).value.1 == 2
    ensures b == EncodeChar(DecodeChar(b).value.0)
  {
    hide Tail, EncodeChar;
    var c := DecodeChar(b).value.0;
    EncodeTwoOctets(c as int, b);
    CharOfTwo(c);
  }

  lemma CharOfTwo(c: char)
    requires 0x80 <= c as int < 0x800
    ensures EncodeChar(c) == [0xC0 + c as int / 64, Tail(c as int)]
  {
  }

  lemma EncodeThreeOctets(n: int, b: seq<byte>)
    requires |b| == 3 && 0xE0 <= b[0] && Continuation(b[1]) && Continuation(b[2])
    requires n == Append(Append(b[0] - 0xE0, b[1]), b[2]) && 0x800 <= n < 0x1_0000
    ensures [0xE0 + n / 64 / 64, Tail(n / 64), Tail(n)] == b
  {
    var high := Append(b[0] - 0xE0, b[1]);
    AppendInverse(high, b[2]);
    AppendInverse(b[0] - 0xE0, b[1]);
  }

  lemma EncodeThree(b: seq<byte>)
    requires |b| == 3 && DecodeChar(b).Some? && DecodeChar(b).value.1 == 3
    ensures b == EncodeChar(DecodeChar(b).value.0)
  {
    hide Tail, EncodeChar;
    var c := DecodeChar(b).value.0;
    EncodeThreeOctets(c as int, b);
    CharOfThree(c);
  }

  lemma CharOfThree(c: char)
    requires 0x800 <= c as int < 0x1_0000
    ensures EncodeChar(c) == [0xE0 + c as int / 64 / 64, Tail(c as int / 64), Tail(c as int)]
  {
  }

  lemma EncodeFourOctets(n: int, b: seq<byte>)
    requires |b| == 4 && 0xF0 <= b[0] && Continuation(b[1]) && Continuation(b[2]) && Continuation(b[3])
    requires n == Append(Append(Append(b[0] - 0xF0, b[1]), b[2]), b[3]) && 0x1_0000 <= n < 0x11_0000
    ensures [0xF0 + n / 64 / 64 / 64, Tail(n / 64 / 64), Tail(n / 64), Tail(n)] == b
  {
    var higher := Append(b[0] - 0xF0, b[1]);
    var high := Append(higher, b[2]);
    AppendInverse(high, b[3]);
    AppendInverse(higher, b[2]);
    AppendInverse(b[0] - 0xF0, b[1]);
  }

  lemma EncodeFour(b: seq<byte>)
    requires |b| == 4 && DecodeChar(b).Some? && DecodeChar(b).value.1 == 4
    ensures b == EncodeChar(DecodeChar(b).value.0)
  {
    hide Tail, EncodeChar;
    var c := DecodeChar(b).value.0;
    EncodeFourOctets(c as int, b);
    CharOfFour(c);
  }

  lemma CharOfFour(c: char)
    requires 0x1_0000 <= c as int
    ensures EncodeChar(c)
            == [0xF0 + c as int / 64 / 64 / 64, Tail(c as int / 64 / 64), Tail(c as int / 64), Tail(c as int)]
  {
  }

  lemma DecodePrefix(b: seq<byte>)
    requires DecodeChar(b).Some?
    ensures DecodeChar(b[..DecodeChar(b).value.1]) == DecodeChar(b)
  {
  }

  lemma EncodeCharInverse(b: seq<byte>)
    requires DecodeChar(b).Some?
    ensures var (c, n) := DecodeChar(b).value; b[..n] == EncodeChar(c)
  {
    var n := DecodeChar(b).value.1;
    DecodePrefix(b);
    if n == 2 {
      EncodeTwo(b[..n]);
    } else if n == 3 {
      EncodeThree(b[..n]);
    } else if n == 4 {
      EncodeFour(b[..n]);
    }
  }

  lemma {:induction false} DecodeEncode(s: string)
    ensures Decode(Encode(s)) == Some(s)
  {
    hide EncodeChar, DecodeChar;
    if s != "" {
      DecodeEncode(s[1..]);
      DecodeCharInverse(s[0], Encode(s[1..]));
      assert Encode(s)[|EncodeChar(s[0])|..] == Encode(s[1..]);
      assert s == [s[0]] + s[1..];
    }
  }

  lemma {:induction false} EncodeDecode(b: seq<byte>)
    requires Decode(b).Some?
    ensures Encode(Decode(b).value) == b
  {
    hide EncodeChar;
    if b != [] {
      var (c, n) := DecodeChar(b).value;
      EncodeDecode(b[n..]);
      EncodeStep(c, Decode(b[n..]).value);
      EncodeCharInverse(b);
      assert b == b[..n] + b[n..];
    }
  }

  lemma EncodeStep(c: char, s: string)
    ensures Encode([c] + s) == EncodeChar(c) + Encode(s)
  {
    assert ([c] + s)[1..] == s;
  }

  lemma {:induction false} EncodeConcat(s: string, t: string)
    ensures Encode(s + t) == Encode(s) + Encode(t)
  {
    if s == "" {
      assert s + t == t;
    } else {
      assert (s + t)[1..] == s[1..] + t;
      EncodeConcat(s[1..], t);
    }
  }

  /** ASCII octets never occur inside a multi-octet character (section 3 of RFC 3629). */
  lemma {:induction false} AsciiTransparent(s: string, x: byte)
    requires x < 0x80
    ensures x in Encode(s) <==> x as char in s
  {
    if s != "" {
      AsciiTransparent(s[1..], x);
      assert x in EncodeChar(s[0]) <==> x as char == s[0];
      assert s == [s[0]] + s[1..];
    }
  }

  function EncodeAll(parts: seq<string>): seq<seq<byte>> {
    if parts == [] then [] else [Encode(parts[0])] + EncodeAll(parts[1..])
  }

  /** So splitting the octets at an ASCII octet is splitting the text at its character. */
  lemma {:induction false} AsciiSplit(s: string, x: byte)
    requires x < 0x80
    ensures Split(Encode(s), x) == EncodeAll(Split(s, x as char))
    decreases |s|
  {
    hide Encode, Split;
    var c := x as char;
    var i := IndexOf(s, c);
    if i == |s| {
      assert s[..i] == s;
      AsciiTransparent(s, x);
      SplitWhole(s, c);
      SplitWhole(Encode(s), x);
      assert [s][1..] == [] && EncodeAll([]) == [];
    } else {
      var (a, b) := (s[..i], s[i + 1..]);
      assert s == a + [c] + b;
      AsciiTransparent(a, x);
      EncodeConcat(a + [c], b);
      EncodeConcat(a, [c]);
      OneOctet(x);
      AsciiSplit(b, x);
      SplitStep(a, c, b);
      SplitStep(Encode(a), x, Encode(b));
      assert ([a] + Split(b, c))[1..] == Split(b, c);
    }
  }

  lemma OneOctet(x: byte)
    requires x < 0x80
    ensures Encode([x as char]) == [x]
  {
    assert [x as char][1..] == "" && Encode("") == [];
  }

  /** No character takes more than four octets. */
  lemma {:induction false} EncodeBound(s: string)
    ensures |Encode(s)| <= 4 * |s|
  {
    if s != "" { EncodeBound(s[1..]); }
  }

  lemma {:induction false} AsciiLength(s: string)
    requires forall c | c in s :: c as int < 0x80
    ensures |Encode(s)| == |s|
  {
    if s != "" {
      assert s[0] in s && forall c | c in s[1..] :: c in s;
      AsciiLength(s[1..]);
    }
  }

  lemma {:induction false} EncodeNonEmpty(s: string)
    ensures |s| <= |Encode(s)|
  {
    if s != "" { EncodeNonEmpty(s[1..]); }
  }
}
