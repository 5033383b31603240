/** Response lines: `<status> <meta>` CRLF. */
module Response {
  import opened Wrappers
  import opened Text
  import opened Utf8

  datatype Response = Response(status: int, meta: string)

  /** `MisfinResponse.from_line`; None where it raises ValueError. */
  function FromLine(line: string): Option<Response> {
    var space := IndexOf(line, ' ');
    match ParseInt(line[..space])
    case None => None
    case Some(status) => Some(Response(status, if space < |line| then line[space + 1..] else ""))
  }

  function LineText(r: Response): string {
    IntToString(r.status) + [' '] + r.meta
  }

  function ToBytes(r: Response): seq<byte> {
    Encode(LineText(r) + "\r\n")
  }

  predicate IsRedirect(status: int) {
    30 <= status < 40
  }

  /** `redirect_address`: the stripped meta of a redirect, unless blank. */
  function RedirectAddress(r: Response): Option<string> {
    if IsRedirect(r.status) && Strip(r.meta) != "" then Some(Strip(r.meta)) else None
  }

  lemma IntTextCharacters(n: int, c: char)
    requires c in IntToString(n)
    ensures IsDigit(c) || c == '-'
  {
    var s := NatToString(if n < 0 then -n else n);
    assert AllDigits(s);
  }

  lemma LineRoundTrip(r: Response)
    ensures FromLine(LineText(r)) == Some(r)
  {
    var digits := IntToString(r.status);
    var line := LineText(r);
    assert ' ' !in digits by { if ' ' in digits { IntTextCharacters(r.status, ' '); } }
    IndexOfAt(digits, ' ', r.meta);
    assert line[..|digits|] == digits && line[|digits| + 1..] == r.meta;
    ParsePrintedInt(r.status);
  }

  /** A line is read as a response exactly when it is a number, or a number, a space and the meta. */
  lemma LineExact(line: string, r: Response)
    ensures FromLine(line) == Some(r)
            <==> exists digits ::
                   && ParseInt(digits) == Some(r.status) && ' ' !in digits
                   && ((line == digits && r.meta == "") || line == digits + " " + r.meta)
  {
    hide ParseInt;
    var space := IndexOf(line, ' ');
    if FromLine(line) == Some(r) {
      var digits := line[..space];
      if space < |line| {
        assert line == digits + " " + line[space + 1..];
      } else {
        assert line == digits;
      }
    }
    if digits :| ParseInt(digits) == Some(r.status) && ' ' !in digits
                 && ((line == digits && r.meta == "") || line == digits + " " + r.meta) {
      if line == digits {
        assert line[..space] == digits;
      } else {
        assert line == digits + [' '] + r.meta;
        IndexOfAt(digits, ' ', r.meta);
        assert line[..|digits|] == digits && line[|digits| + 1..] == r.meta;
      }
    }
  }
}
