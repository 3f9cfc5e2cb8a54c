/** The parts of Java's `String`, `Character`, `java.util.regex` and
    `StringUtils` semantics the application relies on, stated over Dafny
    strings (sequences of Unicode scalar values). */
module JavaText {

  import opened Wrappers

  // ---------------------------------------------------------------------------
  // String.trim(): strips leading and trailing characters whose code is at
  // most U+0020 (spaces and all ASCII control characters).
  // ---------------------------------------------------------------------------

  predicate IsTrimmable(c: char) { c <= ' ' }

  /** Number of trimmable characters at the front of `s`. */
  function LeadingTrimmable(s: string): (n: nat)
    ensures n <= |s|
    ensures forall i :: 0 <= i < n ==> IsTrimmable(s[i])
    ensures n < |s| ==> !IsTrimmable(s[n])
  {
    if |s| == 0 || !IsTrimmable(s[0]) then 0 else 1 + LeadingTrimmable(s[1..])
  }

  /** Number of trimmable characters at the back of `s`. */
  function TrailingTrimmable(s: string): (n: nat)
    ensures n <= |s|
    ensures forall i :: |s| - n <= i < |s| ==> IsTrimmable(s[i])
    ensures n < |s| ==> !IsTrimmable(s[|s| - n - 1])
  {
    if |s| == 0 || !IsTrimmable(s[|s| - 1]) then 0
    else 1 + TrailingTrimmable(s[..|s| - 1])
  }

  function Trim(s: string): (r: string)
    ensures |r| <= |s|
    ensures |r| == 0 <==> forall i :: 0 <= i < |s| ==> IsTrimmable(s[i])
    ensures |r| > 0 ==> !IsTrimmable(r[0]) && !IsTrimmable(r[|r| - 1])
    ensures forall i :: 0 <= i < |r| ==> r[i] in s
    ensures exists a, b ::
      && 0 <= a <= b <= |s| && r == s[a..b]
      && (forall i :: 0 <= i < a ==> IsTrimmable(s[i]))
      && (forall i :: b <= i < |s| ==> IsTrimmable(s[i]))
  {
    var a := LeadingTrimmable(s);
    var t := s[a..];
    var r := t[..|t| - TrailingTrimmable(t)];
    var b := a + |r|;
    assert |r| == 0 ==> |t| == 0 by {
      if |t| > 0 {
        assert t[0] == s[a];
      }
    }
    assert forall i :: 0 <= i < |r| ==> r[i] == s[a + i];
    assert r == s[a..b];
    assert forall i :: b <= i < |s| ==> IsTrimmable(s[i]) by {
      forall i | b <= i < |s| ensures IsTrimmable(s[i]) {
        assert s[i] == t[i - a];
      }
    }
    r
  }

  /** A string with no trimmable character at either end is its own trim. */
  lemma {:induction false} TrimOfUntrimmedEnds(s: string)
    requires |s| > 0 ==> !IsTrimmable(s[0]) && !IsTrimmable(s[|s| - 1])
    ensures Trim(s) == s
  {
    assert LeadingTrimmable(s) == 0;
    assert s[0..] == s;
    assert TrailingTrimmable(s) == 0;
  }

  /** `s.trim().isEmpty()` for a non-null `s`. */
  predicate IsBlank(s: string) { |Trim(s)| == 0 }

  // ---------------------------------------------------------------------------
  // String.length(): the number of UTF-16 code units, so characters outside
  // the Basic Multilingual Plane count twice.
  // ---------------------------------------------------------------------------

  function Utf16Units(c: char): nat { if c as int >= 0x1_0000 then 2 else 1 }

  function Utf16Length(s: string): (n: nat)
    ensures |s| <= n <= 2 * |s|
    ensures (forall i :: 0 <= i < |s| ==> s[i] as int < 0x1_0000) ==> n == |s|
  {
    if |s| == 0 then 0 else Utf16Units(s[0]) + Utf16Length(s[1..])
  }

  /** The number of bytes `getBytes()` yields for one character in UTF-8. */
  function Utf8Units(c: char): nat
  {
    if c as int < 0x80 then 1 else if c as int < 0x800 then 2 else if c as int < 0x1_0000 then 3 else 4
  }

  /** `s.getBytes().length` under UTF-8: one to four bytes per character, one
      for ASCII. */
  function Utf8Length(s: string): (n: nat)
    ensures |s| <= n <= 4 * |s|
    ensures (forall i :: 0 <= i < |s| ==> s[i] as int < 0x80) ==> n == |s|
  {
    if |s| == 0 then 0 else Utf8Units(s[0]) + Utf8Length(s[1..])
  }

  // ---------------------------------------------------------------------------
  // Regular expressions, as matched by String.matches / Matcher.matches (the
  // whole input must match).
  // ---------------------------------------------------------------------------

  predicate IsDigit(c: char) { '0' <= c <= '9' }

  /** `s.matches("^[0-9]+$")` */
  predicate MatchesDigits(s: string)
  {
    |s| > 0 && forall i :: 0 <= i < |s| ==> IsDigit(s[i])
  }

  /** `\s` in a Java pattern without UNICODE_CHARACTER_CLASS: [ \t\n\x0B\f\r] */
  predicate IsRegexSpace(c: char)
  {
    c == ' ' || c == '\t' || c == '\n' || c == '\U{000B}' || c == '\U{000C}' || c == '\r'
  }

  /** One character of the class `[a-zA-Z\s\-']` */
  predicate IsNameChar(c: char)
  {
    ('a' <= c <= 'z') || ('A' <= c <= 'Z') || IsRegexSpace(c) || c == '-' || c == '\''
  }

  /** `s.matches("^[a-zA-Z\\s\\-']+$")` */
  predicate MatchesName(s: string)
  {
    |s| > 0 && forall i :: 0 <= i < |s| ==> IsNameChar(s[i])
  }

  /** Every character admitted by either pattern is a single UTF-16 unit. */
  lemma NameCharsAreBmp(s: string)
    requires MatchesName(s) || MatchesDigits(s)
    ensures Utf16Length(s) == |s|
  {
  }

  // ---------------------------------------------------------------------------
  // Character.isWhitespace and StringUtils.hasText
  // ---------------------------------------------------------------------------

  /** Java's Character.isWhitespace: space, line and paragraph separators other
      than the non-breaking ones, plus the ASCII controls \t \n \x0B \f \r and
      \x1C..\x1F. */
  predicate IsJavaWhitespace(c: char)
  {
    || c == ' ' || c == '\U{1680}'
    || ('\U{2000}' <= c <= '\U{2006}') || ('\U{2008}' <= c <= '\U{200A}')
    || c == '\U{2028}' || c == '\U{2029}' || c == '\U{205F}' || c == '\U{3000}'
    || ('\t' <= c <= '\r') || ('\U{001C}' <= c <= '\U{001F}')
  }

  /** StringUtils.hasText: not null, not empty, and not only whitespace. */
  predicate HasText(s: Option<string>)
  {
    s.Some? && exists i :: 0 <= i < |s.value| && !IsJavaWhitespace(s.value[i])
  }

  predicate StartsWith(s: string, prefix: string)
  {
    |prefix| <= |s| && s[..|prefix|] == prefix
  }

  // ---------------------------------------------------------------------------
  // Decimal rendering of integers, as `%d` prints them (ASCII digits, no
  // grouping, a leading '-' for negative values).
  // ---------------------------------------------------------------------------

  function DigitChar(d: nat): char
    requires d < 10
  {
    "0123456789"[d]
  }

  function DigitValue(c: char): nat
    requires IsDigit(c)
  {
    (c as int - '0' as int) as nat
  }

  function ShowNat(n: nat): (s: string)
    ensures MatchesDigits(s)
    ensures |s| > 1 ==> s[0] != '0'
    decreases n
  {
    if n < 10 then [DigitChar(n)] else ShowNat(n / 10) + [DigitChar(n % 10)]
  }

  function ParseDigits(s: string): nat
    requires forall i :: 0 <= i < |s| ==> IsDigit(s[i])
  {
    if |s| == 0 then 0 else 10 * ParseDigits(s[..|s| - 1]) + DigitValue(s[|s| - 1])
  }

  /** Reading back the decimal rendering of a natural number yields it. */
  lemma {:induction false} ParseShowNat(n: nat)
    ensures ParseDigits(ShowNat(n)) == n
    decreases n
  {
    var s := ShowNat(n);
    if n < 10 {
      assert s[..0] == [];
    } else {
      ParseShowNat(n / 10);
      assert s[..|s| - 1] == ShowNat(n / 10);
    }
  }

  /** `String.format("%d", n)` for a Java integer. */
  function ShowInt(n: int): (s: string)
    ensures |s| > 0
    ensures n < 0 <==> s[0] == '-'
  {
    if n < 0 then "-" + ShowNat(-n) else ShowNat(n)
  }

  /** The inverse of ShowInt. */
  function ParseInt(s: string): int
    requires |s| > 0
    requires forall i :: (if s[0] == '-' then 1 else 0) <= i < |s| ==> IsDigit(s[i])
  {
    if s[0] == '-' then -(ParseDigits(s[1..]) as int) else ParseDigits(s)
  }

  lemma ParseShowInt(n: int)
    ensures ParseInt(ShowInt(n)) == n
  {
    var s := ShowInt(n);
    if n < 0 {
      var d := ShowNat(-n);
      assert s == "-" + d;
      assert s[1..] == d;
      ParseShowNat(-n);
    } else {
      assert s == ShowNat(n);
      ParseShowNat(n);
    }
  }

  // ---------------------------------------------------------------------------
  // Collectors.joining(sep)
  // ---------------------------------------------------------------------------

  function Join(parts: seq<string>, sep: string): string
  {
    if |parts| == 0 then ""
    else if |parts| == 1 then parts[0]
    else parts[0] + sep + Join(parts[1..], sep)
  }

  /** Where the `i`-th part starts inside `Join(parts, sep)`. */
  function JoinOffset(parts: seq<string>, sep: string, i: nat): nat
    requires i <= |parts|
  {
    if i == 0 then 0 else |parts[0]| + |sep| + JoinOffset(parts[1..], sep, i - 1)
  }

  /** Joining keeps every part, verbatim, at its offset: no part is lost or
      altered by the separator. */
  lemma {:induction false} JoinKeepsParts(parts: seq<string>, sep: string, i: nat)
    requires i < |parts|
    ensures JoinOffset(parts, sep, i) + |parts[i]| <= |Join(parts, sep)|
    ensures Join(parts, sep)[JoinOffset(parts, sep, i)..JoinOffset(parts, sep, i) + |parts[i]|] == parts[i]
  {
    var j := Join(parts, sep);
    if i == 0 {
      if |parts| > 1 {
        assert j == parts[0] + (sep + Join(parts[1..], sep));
      }
      assert j[..|parts[0]|] == parts[0];
    } else {
      JoinKeepsParts(parts[1..], sep, i - 1);
      var rest := Join(parts[1..], sep);
      var k := |parts[0]| + |sep|;
      assert j == (parts[0] + sep) + rest;
      var o := JoinOffset(parts[1..], sep, i - 1);
      assert j[k + o..k + o + |parts[i]|] == rest[o..o + |parts[i]|];
    }
  }
}
