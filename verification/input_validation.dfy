/** Name and address validators of the API layer (`api/middleware.py`).

    Both validators rest on Python regular expressions anchored with `^` and
    `$` and applied with `re.match`. In Python, `$` matches at the very end
    of the text and also just before one final newline, so each pattern
    accepts its language optionally followed by a single `"\n"`; the model
    keeps that behaviour. */
module InputValidation {
  import opened Wrappers
  import opened Text

  /** Longest certificate or configuration name accepted. */
  const MaxNameLength := 100

  /** The character class `[a-zA-Z0-9._-]`. */
  predicate IsSafeChar(c: char) {
    IsAlnum(c) || c == '.' || c == '_' || c == '-'
  }

  predicate SafeRun(s: string) {
    |s| > 0 && forall k :: 0 <= k < |s| ==> IsSafeChar(s[k])
  }

  /** `re.match(r'^[a-zA-Z0-9._-]+$', s)` succeeds: the whole text is a safe
      run, or the text is a safe run followed by one newline. */
  predicate MatchesSafePattern(s: string) {
    || SafeRun(s)
    || (|s| > 1 && s[|s| - 1] == '\n' && SafeRun(s[..|s| - 1]))
  }

  /** What both name validators accept. */
  predicate AcceptedName(name: string) {
    0 < |name| <= MaxNameLength && MatchesSafePattern(name)
  }

  /** The regular-expression engine's scan for the safe-name pattern. */
  method ScanSafePattern(s: string) returns (m: bool)
    ensures m <==> MatchesSafePattern(s)
  {
    var n := |s|;
    if n > 0 && s[n - 1] == '\n' {
      n := n - 1;
    }
    if n == 0 {
      return false;
    }
    var i := 0;
    while i < n
      invariant 0 <= i <= n
      invariant forall k :: 0 <= k < i ==> IsSafeChar(s[k])
    {
      if !IsSafeChar(s[i]) {
        assert !SafeRun(s);
        assert n < |s| ==> !SafeRun(s[..n]) by {
          if n < |s| {
            assert s[..n][i] == s[i];
          }
        }
        return false;
      }
      i := i + 1;
    }
    if n < |s| {
      assert SafeRun(s[..n]);
    }
    return true;
  }

  /** `validate_certificate_name`: non-empty, at most 100 characters, and
      matching the safe-name pattern. */
  method ValidateCertificateName(name: string) returns (ok: bool)
    ensures ok <==> AcceptedName(name)
    ensures |name| == 0 || |name| > MaxNameLength ==> !ok
    ensures ok ==> forall k :: 0 <= k < |name| ==> IsSafeChar(name[k]) || (k == |name| - 1 && name[k] == '\n')
  {
    if |name| == 0 || |name| > MaxNameLength {
      return false;
    }
    ok := ScanSafePattern(name);
  }

  /** `validate_config_name`: the same rule as for certificate names. */
  method ValidateConfigName(name: string) returns (ok: bool)
    ensures ok <==> AcceptedName(name)
  {
    if |name| == 0 || |name| > MaxNameLength {
      return false;
    }
    ok := ScanSafePattern(name);
  }

  // ---------------------------------------------------------------------
  // validate_ip_cidr

  /** The pieces of a text matching `^(\d{1,3}\.){3}\d{1,3}/\d{1,2}$`: four
      octet digit runs, a prefix digit run, and whether the `$` consumed a
      final newline. */
  datatype CidrText = CidrText(octets: seq<string>, prefix: string, newline: bool)

  predicate WellShaped(c: CidrText) {
    && |c.octets| == 4
    && (forall k :: 0 <= k < 4 ==> DigitRun(c.octets[k], 1, 3))
    && DigitRun(c.prefix, 1, 2)
  }

  function NewlineText(newline: bool): string {
    if newline then "\n" else ""
  }

  function Render(c: CidrText): string
    requires |c.octets| >= 1
  {
    Join(c.octets, '.') + "/" + c.prefix + NewlineText(c.newline)
  }

  /** The language of the address pattern, `$` behaviour included. */
  ghost predicate MatchesCidrPattern(s: string) {
    exists c :: WellShaped(c) && Render(c) == s
  }

  /** The octets are at most 255 and the prefix length at most 32, as
      section 3.1 of RFC 4632 requires of an IPv4 prefix. */
  predicate InRange(c: CidrText)
    requires WellShaped(c)
  {
    && (forall k :: 0 <= k < 4 ==> DecimalValue(c.octets[k]) <= 255)
    && DecimalValue(c.prefix) <= 32
  }

  /** A character that is neither the separator nor in any piece is not in
      the joined text. */
  lemma {:induction false} JoinAvoids(parts: seq<string>, sep: char, x: char)
    requires |parts| >= 1 && x != sep
    requires forall k :: 0 <= k < |parts| ==> x !in parts[k]
    ensures x !in Join(parts, sep)
  {
    if |parts| > 1 {
      JoinAvoids(parts[1..], sep, x);
    }
  }

  /** The regular-expression match of the address pattern, returning the
      matched pieces. */
  function MatchCidr(s: string): (r: Option<CidrText>)
    ensures r.Some? ==> WellShaped(r.value) && Render(r.value) == s
  {
    var newline := |s| > 0 && s[|s| - 1] == '\n';
    var core := if newline then s[..|s| - 1] else s;
    var halves := Split(core, '/');
    if |halves| != 2 then None
    else
      var c := CidrText(Split(halves[0], '.'), halves[1], newline);
      if WellShaped(c) then
        assert Join(halves, '/') == halves[0] + "/" + halves[1];
        assert core + NewlineText(newline) == s;
        Some(c)
      else None
  }

  /** How `str.split` takes a well-shaped address apart. */
  lemma CidrSplits(c: CidrText)
    requires WellShaped(c)
    ensures Split(Render(c), '/') == [Join(c.octets, '.'), c.prefix + NewlineText(c.newline)]
    ensures Split(Join(c.octets, '.'), '.') == c.octets
  {
    var dotted := Join(c.octets, '.');
    var tail := c.prefix + NewlineText(c.newline);
    forall k | 0 <= k < |c.octets|
      ensures '/' !in c.octets[k] && '.' !in c.octets[k]
    {
      assert DigitRun(c.octets[k], 1, 3);
    }
    JoinAvoids(c.octets, '.', '/');
    assert '/' !in tail by {
      assert DigitRun(c.prefix, 1, 2);
    }
    SplitJoin([dotted, tail], '/');
    assert Join([dotted, tail], '/') == Render(c);
    SplitJoin(c.octets, '.');
  }

  /** Every well-shaped text is recognised, with exactly its own pieces. */
  lemma MatchCidrComplete(c: CidrText)
    requires WellShaped(c)
    ensures MatchCidr(Render(c)) == Some(c)
  {
    var s := Render(c);
    var dotted := Join(c.octets, '.');
    var core := dotted + "/" + c.prefix;
    assert s == core + NewlineText(c.newline);
    assert s[|s| - 1] == '\n' <==> c.newline by {
      if !c.newline {
        assert s[|s| - 1] == c.prefix[|c.prefix| - 1];
      }
    }
    if c.newline {
      assert s[..|s| - 1] == core;
    }
    CidrSplits(CidrText(c.octets, c.prefix, false));
    assert Render(CidrText(c.octets, c.prefix, false)) == core;
  }

  /** The matcher accepts exactly the pattern's language. */
  lemma MatchCidrExact(s: string)
    ensures MatchCidr(s).Some? <==> MatchesCidrPattern(s)
  {
    if MatchesCidrPattern(s) {
      var c :| WellShaped(c) && Render(c) == s;
      MatchCidrComplete(c);
    }
  }

  predicate IsByte(v: Option<int>) { v.Some? && 0 <= v.value <= 255 }
  predicate IsPrefixLength(v: Option<int>) { v.Some? && 0 <= v.value <= 32 }

  /** The range checks of `validate_ip_cidr`, on a text the pattern matched:
      `int()` of every dotted piece before `/` lies in 0..255 and `int()` of
      the text after `/` in 0..32. */
  function RangeChecks(ip: string): bool
    requires |Split(ip, '/')| >= 2
  {
    var parts := Split(ip, '/');
    AllBytes(Split(parts[0], '.')) && IsPrefixLength(ParseInt(parts[1]))
  }

  predicate AllBytes(pieces: seq<string>) {
    forall k :: 0 <= k < |pieces| ==> IsByte(ParseInt(pieces[k]))
  }

  lemma ParseOctet(c: CidrText, k: nat)
    requires WellShaped(c) && k < 4
    ensures IsByte(ParseInt(c.octets[k])) == (DecimalValue(c.octets[k]) <= 255)
  {
    ParseIntOfDigits(c.octets[k], "");
    assert c.octets[k] + "" == c.octets[k];
  }

  lemma ParsePrefix(c: CidrText)
    requires WellShaped(c)
    ensures IsPrefixLength(ParseInt(c.prefix + NewlineText(c.newline))) == (DecimalValue(c.prefix) <= 32)
  {
    ParseIntOfDigits(c.prefix, NewlineText(c.newline));
  }

  /** On a matched text the `int()` calls cannot fail, and the checks are
      exactly the ranges of the matched pieces. */
  lemma RangeChecksMeaning(c: CidrText)
    requires WellShaped(c)
    ensures |Split(Render(c), '/')| >= 2
    ensures RangeChecks(Render(c)) == InRange(c)
  {
    CidrSplits(c);
    var parts := Split(Render(c), '/');
    assert Split(parts[0], '.') == c.octets;
    assert parts[1] == c.prefix + NewlineText(c.newline);
    AllBytesMeaning(c);
    ParsePrefix(c);
  }

  lemma AllBytesMeaning(c: CidrText)
    requires WellShaped(c)
    ensures AllBytes(c.octets) == (forall k :: 0 <= k < 4 ==> DecimalValue(c.octets[k]) <= 255)
  {
    forall k | 0 <= k < 4
      ensures IsByte(ParseInt(c.octets[k])) == (DecimalValue(c.octets[k]) <= 255)
    {
      ParseOctet(c, k);
    }
  }

  /** A text has at most one reading as a well-shaped address. */
  lemma UniqueReading(ip: string, c: CidrText)
    requires MatchCidr(ip) == Some(c)
    ensures forall c' :: WellShaped(c') && Render(c') == ip ==> c' == c
  {
    forall c' | WellShaped(c') && Render(c') == ip
      ensures c' == c
    {
      MatchCidrComplete(c');
    }
  }

  /** `validate_ip_cidr`: the pattern must match, then the octets must lie
      in 0..255 and the prefix length in 0..32. */
  function ValidateIpCidr(ip: string): (ok: bool)
    ensures ok ==> MatchesCidrPattern(ip)
    ensures ok <==> exists c :: WellShaped(c) && Render(c) == ip && InRange(c)
  {
    match MatchCidr(ip)
    case None =>
      MatchCidrExact(ip);
      false
    case Some(c) =>
      RangeChecksMeaning(c);
      UniqueReading(ip, c);
      RangeChecks(ip)
  }
}
