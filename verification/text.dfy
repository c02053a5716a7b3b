/** Characters, strings and integers as the catalogue code uses them.
    Digits and letter case are ASCII only; white space is every code point
    that Python's str.isspace accepts. */
module Text {
  import Collections

  datatype Option<+T> = None | Some(value: T)

  // ---------------------------------------------------------------- digits

  predicate IsDigit(c: char) { '0' <= c <= '9' }

  predicate AllDigits(s: string) { forall i :: 0 <= i < |s| ==> IsDigit(s[i]) }

  predicate HasDigit(s: string) { exists i :: 0 <= i < |s| && IsDigit(s[i]) }

  function DigitValue(c: char): (d: nat)
    requires IsDigit(c)
    ensures d < 10
  {
    c as int - '0' as int
  }

  function DigitChar(d: nat): (c: char)
    requires d < 10
    ensures IsDigit(c) && DigitValue(c) == d
  {
    ('0' as int + d) as char
  }

  /** The value of a string of decimal digits, most significant digit first. */
  function DigitsValue(s: string): nat
    requires AllDigits(s)
  {
    if s == [] then 0 else 10 * DigitsValue(s[..|s| - 1]) + DigitValue(s[|s| - 1])
  }

  function Pow10(n: nat): (p: nat)
    ensures p >= 1
  {
    if n == 0 then 1 else 10 * Pow10(n - 1)
  }

  /** Reading the digits of a + b is reading a, shifted by the length of b, plus b. */
  lemma {:induction false} DigitsValueAppend(a: string, b: string)
    requires AllDigits(a) && AllDigits(b)
    ensures AllDigits(a + b)
    ensures DigitsValue(a + b) == DigitsValue(a) * Pow10(|b|) + DigitsValue(b)
  {
    assert AllDigits(a + b);
    if b != [] {
      var b' := b[..|b| - 1];
      var d := DigitValue(b[|b| - 1]);
      assert (a + b)[..|a + b| - 1] == a + b';
      assert (a + b)[|a + b| - 1] == b[|b| - 1];
      DigitsValueAppend(a, b');
      ShiftDigit(DigitsValue(a), Pow10(|b'|), DigitsValue(b'), d);
    } else {
      assert a + b == a;
    }
  }

  lemma ShiftDigit(x: int, p: int, y: int, d: int)
    ensures 10 * (x * p + y) + d == x * (10 * p) + (10 * y + d)
  {
  }

  /** Python's str(n) for a natural number. */
  function NatToString(n: nat): (s: string)
    ensures |s| > 0 && AllDigits(s)
  {
    if n < 10 then [DigitChar(n)] else NatToString(n / 10) + [DigitChar(n % 10)]
  }

  lemma {:induction false} NatToStringRoundTrip(n: nat)
    ensures DigitsValue(NatToString(n)) == n
  {
    var s := NatToString(n);
    if n >= 10 {
      NatToStringRoundTrip(n / 10);
      assert s[..|s| - 1] == NatToString(n / 10);
    }
  }

  /** Python's str(i) for an integer. */
  function IntToString(i: int): string
  {
    if i < 0 then "-" + NatToString(-i) else NatToString(i)
  }

  /** Python's int(s) restricted to an optional '+' or '-' followed by one
      or more ASCII digits; anything else is the ValueError case. */
  function ParseInt(s: string): Option<int>
  {
    if |s| > 0 && (s[0] == '-' || s[0] == '+') then
      var body := s[1..];
      if |body| > 0 && AllDigits(body) then
        Some(if s[0] == '-' then -(DigitsValue(body) as int) else DigitsValue(body))
      else None
    else if |s| > 0 && AllDigits(s) then Some(DigitsValue(s))
    else None
  }

  /** What str() writes, int() reads back. */
  lemma ParseIntRoundTrip(i: int)
    ensures ParseInt(IntToString(i)) == Some(i)
  {
    if i < 0 {
      ParseNegative(-i);
    } else {
      ParseNatural(i);
    }
  }

  /** A minus sign and digits read back as the negated number. */
  lemma ParseNegative(n: nat)
    ensures ParseInt("-" + NatToString(n)) == Some(-(n as int))
  {
    var d := NatToString(n);
    var s := "-" + d;
    assert s[0] == '-' && s[1..] == d;
    NatToStringRoundTrip(n);
  }

  /** Digits alone read back as the number they spell. */
  lemma ParseNatural(n: nat)
    ensures ParseInt(NatToString(n)) == Some(n)
  {
    var s := NatToString(n);
    assert IsDigit(s[0]);
    NatToStringRoundTrip(n);
  }

  /** A string with no digit at all is never an integer literal. */
  lemma ParseIntNeedsDigit(s: string)
    requires !HasDigit(s)
    ensures ParseInt(s) == None
  {
    if |s| > 1 && (s[0] == '-' || s[0] == '+') {
      assert !IsDigit(s[1..][0]);
    } else if |s| > 0 {
      assert !IsDigit(s[0]);
    }
  }

  // ---------------------------------------------------------- white space

  /** Python's str.isspace for a single code point. */
  predicate IsSpace(c: char)
  {
    || ('\t' <= c <= '\r')
    || ('\U{1c}' <= c <= ' ')
    || c == '\U{85}' || c == '\U{a0}' || c == '\U{1680}'
    || ('\U{2000}' <= c <= '\U{200a}')
    || c == '\U{2028}' || c == '\U{2029}' || c == '\U{202f}' || c == '\U{205f}'
    || c == '\U{3000}'
  }

  predicate AllSpace(s: string) { forall i :: 0 <= i < |s| ==> IsSpace(s[i]) }

  /** Number of white-space characters at the start of s. */
  function LeadingSpaces(s: string): (n: nat)
    ensures n <= |s| && AllSpace(s[..n])
    ensures n < |s| ==> !IsSpace(s[n])
  {
    if s != [] && IsSpace(s[0]) then
      var n := 1 + LeadingSpaces(s[1..]);
      assert s[..n] == [s[0]] + s[1..][..n - 1];
      n
    else 0
  }

  /** Number of white-space characters at the end of s. */
  function TrailingSpaces(s: string): (n: nat)
    ensures n <= |s| && AllSpace(s[|s| - n..])
    ensures n < |s| ==> !IsSpace(s[|s| - n - 1])
  {
    if s != [] && IsSpace(s[|s| - 1]) then
      var s' := s[..|s| - 1];
      var m := TrailingSpaces(s');
      assert s[|s| - (m + 1)..] == s'[|s'| - m..] + [s[|s| - 1]];
      AllSpaceSnoc(s'[|s'| - m..], s[|s| - 1]);
      assert m + 1 < |s| ==> s[|s| - (m + 1) - 1] == s'[|s'| - m - 1];
      m + 1
    else 0
  }

  lemma AllSpaceSnoc(t: string, c: char)
    requires AllSpace(t) && IsSpace(c)
    ensures AllSpace(t + [c])
  {
    forall k | 0 <= k < |t| + 1 ensures IsSpace((t + [c])[k]) {
      if k < |t| {
        assert (t + [c])[k] == t[k];
      }
    }
  }

  /** Python's str.strip() with no argument: drop white space at both ends. */
  function Strip(s: string): (r: string)
    ensures exists i, j :: 0 <= i <= j <= |s| && AllSpace(s[..i]) && AllSpace(s[j..]) && r == s[i..j]
    ensures r == [] || (!IsSpace(r[0]) && !IsSpace(r[|r| - 1]))
  {
    var i := LeadingSpaces(s);
    var t := s[i..];
    var n := TrailingSpaces(t);
    var j := |s| - n;
    assert s[j..] == t[|t| - n..];
    var r := s[i..j];
    assert r == t[..|t| - n];
    assert r != [] ==> r[0] == s[i] && r[|r| - 1] == t[|t| - n - 1];
    assert 0 <= i <= j <= |s| && AllSpace(s[..i]) && AllSpace(s[j..]) && r == s[i..j];
    r
  }

  lemma SpaceIsNotDigit(c: char)
    ensures IsSpace(c) ==> !IsDigit(c)
  {
  }

  /** The digits of s, in their order. */
  function Digits(s: string): string
  {
    Collections.Filter(IsDigit, s)
  }

  /** A text has a digit exactly when its digits are not empty. */
  lemma HasDigitDigits(s: string)
    ensures HasDigit(s) <==> Digits(s) != []
  {
    Collections.FilterMembers(IsDigit, s);
    if HasDigit(s) {
      var k :| 0 <= k < |s| && IsDigit(s[k]);
      assert s[k] in Digits(s);
    }
  }

  /** Stripping never adds, removes or reorders a digit. */
  lemma StripKeepsDigits(s: string)
    ensures Digits(Strip(s)) == Digits(s)
    ensures HasDigit(Strip(s)) <==> HasDigit(s)
  {
    var i, j :| 0 <= i <= j <= |s| && AllSpace(s[..i]) && AllSpace(s[j..]) && Strip(s) == s[i..j];
    SpacesHaveNoDigits(s[..i]);
    SpacesHaveNoDigits(s[j..]);
    assert s == s[..i] + s[i..j] + s[j..];
    Collections.FilterAppend(IsDigit, s[..i] + s[i..j], s[j..]);
    Collections.FilterAppend(IsDigit, s[..i], s[i..j]);
    assert Digits(s[..i] + s[i..j]) == Digits(s[i..j]);
    HasDigitDigits(s);
    HasDigitDigits(Strip(s));
  }

  lemma SpacesHaveNoDigits(t: string)
    requires AllSpace(t)
    ensures Digits(t) == []
  {
    forall k | 0 <= k < |t| ensures !IsDigit(t[k]) {
      SpaceIsNotDigit(t[k]);
    }
    HasDigitDigits(t);
  }

  // ------------------------------------------------------ case and search

  function LowerChar(c: char): char
  {
    if 'A' <= c <= 'Z' then (c as int + 32) as char else c
  }

  /** Python's str.lower() on ASCII letters. */
  function Lower(s: string): string
  {
    seq(|s|, i requires 0 <= i < |s| => LowerChar(s[i]))
  }

  /** Lower-casing twice changes nothing more. */
  lemma LowerIdempotent(s: string)
    ensures |Lower(s)| == |s| && Lower(Lower(s)) == Lower(s)
  {
    forall i | 0 <= i < |s| ensures Lower(Lower(s))[i] == Lower(s)[i] {
    }
  }

  predicate IsPrefix(p: string, s: string) { |p| <= |s| && s[..|p|] == p }

  /** Python's `sub in s`. */
  predicate Contains(sub: string, s: string)
  {
    exists i :: 0 <= i <= |s| - |sub| && IsPrefix(sub, s[i..])
  }

  /** Python's s.replace(pat, ""): one left-to-right pass that deletes each
      occurrence of pat it meets; the text left behind is not searched again. */
  function RemoveAll(s: string, pat: string): (r: string)
    requires pat != []
    ensures |r| <= |s|
    decreases |s|
  {
    if |s| < |pat| then s
    else if s[..|pat|] == pat then RemoveAll(s[|pat|..], pat)
    else [s[0]] + RemoveAll(s[1..], pat)
  }

  /** A text without the pattern comes back unchanged. */
  lemma {:induction false} RemoveAllAbsent(s: string, pat: string)
    requires pat != [] && !Contains(pat, s)
    ensures RemoveAll(s, pat) == s
  {
    if |s| >= |pat| {
      assert !IsPrefix(pat, s[0..]);
      assert s[0..] == s;
      assert !Contains(pat, s[1..]) by {
        forall i | 0 <= i <= |s[1..]| - |pat| ensures !IsPrefix(pat, s[1..][i..]) {
          assert s[1..][i..] == s[i + 1..];
        }
      }
      RemoveAllAbsent(s[1..], pat);
    }
  }

  /** Deleting a pattern without digits keeps the digits that are there,
      in their order, and creates none. */
  lemma RemoveAllKeepsDigits(s: string, pat: string)
    requires pat != [] && !HasDigit(pat)
    ensures Digits(RemoveAll(s, pat)) == Digits(s)
    ensures HasDigit(RemoveAll(s, pat)) <==> HasDigit(s)
  {
    RemoveAllDigits(s, pat);
    HasDigitDigits(s);
    HasDigitDigits(RemoveAll(s, pat));
  }

  lemma {:induction false} RemoveAllDigits(s: string, pat: string)
    requires pat != [] && !HasDigit(pat)
    ensures Digits(RemoveAll(s, pat)) == Digits(s)
    decreases |s|
  {
    if |s| < |pat| {
    } else if s[..|pat|] == pat {
      var rest := s[|pat|..];
      RemoveAllDigits(rest, pat);
      assert s == pat + rest;
      Collections.FilterAppend(IsDigit, pat, rest);
      HasDigitDigits(pat);
    } else {
      var rest := s[1..];
      RemoveAllDigits(rest, pat);
      assert ([s[0]] + RemoveAll(rest, pat))[1..] == RemoveAll(rest, pat);
    }
  }
}
