/** Python string primitives the console relies on: `str.split` with a
    single-character separator, `str.strip()` with no argument, `int(str)`
    in base 10, `str(int)`, and the ASCII character classes used by its
    regular expressions. */
module Text {
  import opened Wrappers

  predicate IsDigit(c: char) { '0' <= c <= '9' }
  predicate IsUpper(c: char) { 'A' <= c <= 'Z' }
  predicate IsLower(c: char) { 'a' <= c <= 'z' }
  predicate IsAlnum(c: char) { IsDigit(c) || IsUpper(c) || IsLower(c) }

  /** Python's `str.isspace`, which is what `str.strip()` and `int()` trim. */
  predicate IsSpace(c: char) {
    || '\U{9}' <= c <= '\U{D}'
    || '\U{1C}' <= c <= '\U{20}'
    || c == '\U{85}' || c == '\U{A0}' || c == '\U{1680}'
    || '\U{2000}' <= c <= '\U{200A}'
    || c == '\U{2028}' || c == '\U{2029}' || c == '\U{202F}'
    || c == '\U{205F}' || c == '\U{3000}'
  }

  predicate AllDigits(s: string) {
    forall k :: 0 <= k < |s| ==> IsDigit(s[k])
  }

  /** A run of `lo` to `hi` ASCII digits: the regular expression `\d{lo,hi}`. */
  predicate DigitRun(s: string, lo: nat, hi: nat) {
    lo <= |s| <= hi && AllDigits(s)
  }

  function DigitValue(c: char): nat
    requires IsDigit(c)
  {
    (c as int - '0' as int) as nat
  }

  function DigitChar(d: nat): (c: char)
    requires d < 10
    ensures IsDigit(c) && DigitValue(c) == d
  {
    ('0' as int + d) as char
  }

  /** The number written by a string of decimal digits. */
  function DecimalValue(s: string): nat
    requires AllDigits(s)
  {
    if |s| == 0 then 0 else 10 * DecimalValue(s[..|s| - 1]) + DigitValue(s[|s| - 1])
  }

  // ---------------------------------------------------------------------
  // str.split(sep) and its inverse, sep.join(parts)

  /** Number of occurrences of `c` in `s`. */
  function Count(s: string, c: char): nat {
    multiset(s)[c]
  }

  function IndexOf(s: string, c: char): (i: nat)
    requires c in s
    ensures i < |s| && s[i] == c && c !in s[..i]
  {
    if s[0] == c then 0 else 1 + IndexOf(s[1..], c)
  }

  function Join(parts: seq<string>, sep: char): string
    requires |parts| >= 1
  {
    if |parts| == 1 then parts[0] else parts[0] + [sep] + Join(parts[1..], sep)
  }

  /** Python's `s.split(sep)`: the pieces between occurrences of `sep`,
      always at least one, none containing `sep`, joining back to `s`. */
  function Split(s: string, sep: char): (parts: seq<string>)
    ensures |parts| >= 1
    ensures Join(parts, sep) == s
    ensures forall k :: 0 <= k < |parts| ==> sep !in parts[k]
    decreases |s|
  {
    if sep !in s then [s]
    else
      var i := IndexOf(s, sep);
      var rest := Split(s[i + 1..], sep);
      assert s == s[..i] + [sep] + s[i + 1..];
      [s[..i]] + rest
  }

  /** The first separator of `a + [c] + b` sits right after `a`. */
  lemma IndexOfAfterFreePrefix(a: string, c: char, b: string)
    requires c !in a
    ensures c in a + [c] + b && IndexOf(a + [c] + b, c) == |a|
  {
    var s := a + [c] + b;
    assert s[|a|] == c;
  }

  /** Splitting at the first separator. */
  lemma SplitAtFirst(a: string, sep: char, b: string)
    requires sep !in a
    ensures Split(a + [sep] + b, sep) == [a] + Split(b, sep)
  {
    var s := a + [sep] + b;
    IndexOfAfterFreePrefix(a, sep, b);
    assert s[..|a|] == a;
    assert s[|a| + 1..] == b;
  }

  /** Splitting a join of separator-free pieces gives the pieces back. */
  lemma {:induction false} SplitJoin(parts: seq<string>, sep: char)
    requires |parts| >= 1
    requires forall k :: 0 <= k < |parts| ==> sep !in parts[k]
    ensures Split(Join(parts, sep), sep) == parts
  {
    if |parts| > 1 {
      SplitAtFirst(parts[0], sep, Join(parts[1..], sep));
      SplitJoin(parts[1..], sep);
      assert parts == [parts[0]] + parts[1..];
    }
  }

  /** `s.split(sep)` has one more piece than `s` has separators. */
  lemma {:induction false} SplitCount(s: string, sep: char)
    ensures |Split(s, sep)| == Count(s, sep) + 1
    decreases |s|
  {
    if sep in s {
      var i := IndexOf(s, sep);
      assert s == s[..i] + [sep] + s[i + 1..];
      assert multiset(s) == multiset(s[..i]) + multiset{sep} + multiset(s[i + 1..]);
      assert multiset(s[..i])[sep] == 0;
      SplitCount(s[i + 1..], sep);
    } else {
      assert multiset(s)[sep] == 0;
    }
  }

  // ---------------------------------------------------------------------
  // str.strip()

  function LeadingSpaces(s: string): (n: nat)
    ensures n <= |s|
    ensures forall k :: 0 <= k < n ==> IsSpace(s[k])
    ensures n < |s| ==> !IsSpace(s[n])
  {
    if |s| == 0 || !IsSpace(s[0]) then 0 else 1 + LeadingSpaces(s[1..])
  }

  function TrailingSpaces(s: string): (n: nat)
    ensures n <= |s|
    ensures forall k :: |s| - n <= k < |s| ==> IsSpace(s[k])
    ensures n < |s| ==> !IsSpace(s[|s| - 1 - n])
  {
    if |s| == 0 || !IsSpace(s[|s| - 1]) then 0 else 1 + TrailingSpaces(s[..|s| - 1])
  }

  /** The slice `[lo, hi)` that `s.strip()` keeps: everything outside it is
      whitespace, and a non-empty slice starts and ends with non-whitespace. */
  function StripBounds(s: string): (b: (nat, nat))
    ensures b.0 <= b.1 <= |s|
    ensures forall k :: 0 <= k < b.0 ==> IsSpace(s[k])
    ensures forall k :: b.1 <= k < |s| ==> IsSpace(s[k])
    ensures b.0 < b.1 ==> !IsSpace(s[b.0]) && !IsSpace(s[b.1 - 1])
  {
    var lo := LeadingSpaces(s);
    if lo == |s| then (lo, lo) else (lo, |s| - TrailingSpaces(s))
  }

  /** `r` is `s` with only whitespace cut from its two ends. */
  predicate StrippedFrom(r: string, s: string) {
    exists i, j :: 0 <= i <= j <= |s| && r == s[i..j]
      && (forall m :: 0 <= m < i ==> IsSpace(s[m]))
      && (forall m :: j <= m < |s| ==> IsSpace(s[m]))
  }

  /** Python's `s.strip()`. */
  function Strip(s: string): (r: string)
    ensures |r| <= |s|
    ensures StrippedFrom(r, s)
    ensures |r| > 0 ==> !IsSpace(r[0]) && !IsSpace(r[|r| - 1])
    ensures |r| == 0 ==> forall k :: 0 <= k < |s| ==> IsSpace(s[k])
    ensures forall c :: c in r ==> c in s
  {
    var b := StripBounds(s);
    SliceWithin(s, b.0, b.1);
    s[b.0..b.1]
  }

  /** Every character of a slice is a character of the whole. */
  lemma SliceWithin(s: string, i: nat, j: nat)
    requires i <= j <= |s|
    ensures forall c :: c in s[i..j] ==> c in s
  {
    assert forall k :: 0 <= k < j - i ==> s[i..j][k] == s[i + k];
  }

  /** A string with no whitespace at either end is its own `strip()`. */
  lemma StripUntrimmed(s: string)
    requires |s| > 0 ==> !IsSpace(s[0]) && !IsSpace(s[|s| - 1])
    ensures StripBounds(s) == (0, |s|) && Strip(s) == s
  {
  }

  // ---------------------------------------------------------------------
  // int(str) and str(int)

  /** Digits with single underscores between them, as `int()` accepts. */
  predicate UnderscoredDigits(t: string) {
    && |t| > 0 && IsDigit(t[0]) && IsDigit(t[|t| - 1])
    && (forall k :: 0 <= k < |t| ==> IsDigit(t[k]) || t[k] == '_')
    && (forall k :: 0 <= k < |t| - 1 ==> t[k] == '_' ==> t[k + 1] != '_')
  }

  function DropUnderscores(t: string): (r: string)
    requires forall k :: 0 <= k < |t| ==> IsDigit(t[k]) || t[k] == '_'
    ensures AllDigits(r)
    ensures AllDigits(t) ==> r == t
  {
    if |t| == 0 then ""
    else (if t[0] == '_' then "" else [t[0]]) + DropUnderscores(t[1..])
  }

  /** Python's `int(s)` in base 10: surrounding whitespace, an optional sign,
      then digits with single underscores between them; `None` stands for
      the `ValueError` it raises otherwise. Only the ASCII digits are read
      as digits: the other Unicode decimal digits `int()` also accepts are
      not modelled. */
  function ParseInt(s: string): Option<int> {
    var b := StripBounds(s);
    var t := s[b.0..b.1];
    if |t| > 0 && (t[0] == '+' || t[0] == '-') then
      var body := t[1..];
      if UnderscoredDigits(body) then
        var v := DecimalValue(DropUnderscores(body));
        var n: int := if t[0] == '-' then -(v as int) else v;
        Some(n)
      else None
    else if UnderscoredDigits(t) then Some(DecimalValue(DropUnderscores(t)))
    else None
  }

  /** `strip()` keeps exactly the digits of a digit string followed by at
      most one whitespace character. */
  lemma StripDigitsTail(d: string, tail: string)
    requires |d| > 0 && AllDigits(d)
    requires tail == "" || (|tail| == 1 && IsSpace(tail[0]))
    ensures StripBounds(d + tail) == (0, |d|)
  {
    var s := d + tail;
    var b := StripBounds(s);
    assert s[0] == d[0] && s[|d| - 1] == d[|d| - 1];
  }

  /** `int()` of a digit string with no sign is the number it writes. */
  lemma ParseIntOfPlainDigits(s: string, d: string)
    requires |d| > 0 && AllDigits(d)
    requires StripBounds(s) == (0, |d|) && s[..|d|] == d
    ensures ParseInt(s) == Some(DecimalValue(d))
  {
    var t := s[0..|d|];
    assert t == d;
    assert UnderscoredDigits(t);
  }

  /** `int()` of a non-empty digit string, optionally followed by one
      whitespace character, is the number the digits write. */
  lemma ParseIntOfDigits(d: string, tail: string)
    requires |d| > 0 && AllDigits(d)
    requires tail == "" || (|tail| == 1 && IsSpace(tail[0]))
    ensures ParseInt(d + tail) == Some(DecimalValue(d))
  {
    StripDigitsTail(d, tail);
    assert (d + tail)[..|d|] == d;
    ParseIntOfPlainDigits(d + tail, d);
  }

  /** Python's `str(n)` for a natural number. */
  function NatToString(n: nat): (s: string)
    ensures |s| > 0 && AllDigits(s)
    ensures DecimalValue(s) == n
  {
    if n < 10 then [DigitChar(n)]
    else
      var s := NatToString(n / 10) + [DigitChar(n % 10)];
      assert s[..|s| - 1] == NatToString(n / 10);
      s
  }

  /** Python's `str(n)` for any integer. */
  function IntToString(n: int): string {
    if n < 0 then "-" + NatToString(-n) else NatToString(n)
  }

  /** `int(str(n)) == n`. */
  lemma ParseIntToString(n: int)
    ensures ParseInt(IntToString(n)) == Some(n)
  {
    if n < 0 {
      var d := NatToString(-n);
      var s := "-" + d;
      assert s[|s| - 1] == d[|d| - 1];
      StripUntrimmed(s);
      var t := s[0..|s|];
      assert t == s && t[0] == '-' && t[1..] == d;
      assert UnderscoredDigits(d);
    } else {
      ParseIntOfDigits(NatToString(n), "");
      assert NatToString(n) + "" == NatToString(n);
    }
  }
}
