/** Message IDs and the file names that carry them. */
module MessageId {
  import opened Wrappers
  import opened Text

  const ENC_NEW := ".gemmail.enc.new"
  const ENC := ".gemmail.enc"
  const NEW := ".gemmail.new"
  const PLAIN := ".gemmail"

  predicate EndsWith(s: string, t: string) {
    |t| <= |s| && s[|s| - |t|..] == t
  }

  predicate IsHex(c: char) {
    IsDigit(c) || 'a' <= c <= 'f'
  }

  /** `YYYYMMDDTHHMMSSZ`, digits only. */
  predicate StampId(s: string) {
    |s| == 16 && AllDigits(s[..8]) && s[8] == 'T' && AllDigits(s[9..15]) && s[15] == 'Z'
  }

  /** A stamp alone, or a stamp, a hyphen and lower-case hexadecimal digits. */
  predicate ValidId(s: string) {
    || StampId(s)
    || (|s| > 17 && StampId(s[..16]) && s[16] == '-' && forall c | c in s[17..] :: IsHex(c))
  }

  /** `parse_message_id_from_filename`: the first suffix that matches is cut off. */
  function ParseMessageId(filename: string): Option<string> {
    if EndsWith(filename, ENC_NEW) then Checked(filename, |ENC_NEW|)
    else if EndsWith(filename, ENC) then Checked(filename, |ENC|)
    else if EndsWith(filename, NEW) then Checked(filename, |NEW|)
    else if EndsWith(filename, PLAIN) then Checked(filename, |PLAIN|)
    else None
  }

  function Checked(filename: string, suffix: nat): Option<string>
    requires suffix <= |filename|
  {
    var stem := filename[..|filename| - suffix];
    if ValidId(stem) then Some(stem) else None
  }

  predicate Suffix(s: string) {
    s == ENC_NEW || s == ENC || s == NEW || s == PLAIN
  }

  /** A name ends with at most one of the four suffixes. */
  lemma SuffixUnique(name: string, s: string, t: string)
    requires Suffix(s) && Suffix(t) && EndsWith(name, s) && EndsWith(name, t)
    ensures s == t
  {
    var n := |name|;
    assert name[n - 1] == s[|s| - 1] == t[|t| - 1];
    assert name[n - 5] == s[|s| - 5] == t[|t| - 5];
  }

  /** A file carries an ID exactly when its name is a well-formed ID and one of the suffixes. */
  lemma MessageIdExact(filename: string, id: string)
    ensures ParseMessageId(filename) == Some(id)
            <==> ValidId(id) && exists s :: Suffix(s) && filename == id + s
  {
    if ParseMessageId(filename) == Some(id) {
      var k := |filename| - |id|;
      assert filename == filename[..|id|] + filename[|id|..];
      assert Suffix(filename[|id|..]);
    }
    if ValidId(id) && exists s :: Suffix(s) && filename == id + s {
      var s :| Suffix(s) && filename == id + s;
      NamedById(id, s);
    }
  }

  lemma NamedById(id: string, s: string)
    requires ValidId(id) && Suffix(s)
    ensures ParseMessageId(id + s) == Some(id)
  {
    hide ValidId;
    var name := id + s;
    assert EndsWith(name, s) && name[..|name| - |s|] == id;
    if EndsWith(name, ENC_NEW) { SuffixUnique(name, s, ENC_NEW); }
    if EndsWith(name, ENC) { SuffixUnique(name, s, ENC); }
    if EndsWith(name, NEW) { SuffixUnique(name, s, NEW); }
    if EndsWith(name, PLAIN) { SuffixUnique(name, s, PLAIN); }
  }
}
