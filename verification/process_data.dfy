/** The two normalisers of the offline cleaning step (scripts/process_data.py):
    the leftmost price token of a price text and the first digit run of a
    stock text. A cell pandas reads as missing is None. */
module ProcessData {
  import opened Text
  import Utils

  /** Index of the first digit of s, or |s| when s has none. */
  function FirstDigit(s: string): (i: nat)
    ensures i <= |s|
    ensures forall k :: 0 <= k < i ==> !IsDigit(s[k])
    ensures i < |s| ==> IsDigit(s[i])
  {
    if s == [] then 0
    else if IsDigit(s[0]) then 0
    else 1 + FirstDigit(s[1..])
  }

  /** The end of the longest run of digits that starts at i. */
  function DigitRunEnd(s: string, i: nat): (j: nat)
    requires i <= |s|
    ensures i <= j <= |s| && AllDigits(s[i..j])
    ensures j < |s| ==> !IsDigit(s[j])
    decreases |s| - i
  {
    if i < |s| && IsDigit(s[i]) then
      var j := DigitRunEnd(s, i + 1);
      assert s[i..j] == [s[i]] + s[i + 1..j];
      j
    else i
  }

  lemma FirstDigitFound(s: string)
    ensures FirstDigit(s) < |s| <==> HasDigit(s)
  {
  }

  /** What the pattern \d+[.,]?\d* matched: a run of digits, an optional
      separator ("" or "." or ","), and a run of digits after it. */
  datatype PriceMatch = PriceMatch(whole: string, sep: string, frac: string)

  /** m matches \d+[.,]?\d* at position i of s, no digit comes before i
      (so no match starts earlier), and each part is as long as the
      pattern's greedy repetition makes it. */
  ghost predicate MatchAt(s: string, i: nat, m: PriceMatch)
  {
    var j := i + |m.whole|;
    var k := j + |m.sep|;
    var l := k + |m.frac|;
    && l <= |s|
    && !HasDigit(s[..i])
    && s[i..j] == m.whole && s[j..k] == m.sep && s[k..l] == m.frac
    && m.whole != [] && AllDigits(m.whole) && AllDigits(m.frac)
    && (m.sep == "" || m.sep == "." || m.sep == ",")
    && (m.sep == "" ==> m.frac == [] && (l == |s| || (!IsDigit(s[l]) && s[l] != '.' && s[l] != ',')))
    && (m.sep != "" ==> l == |s| || !IsDigit(s[l]))
  }

  ghost predicate IsLeftmostMatch(s: string, m: PriceMatch)
  {
    exists i: nat :: MatchAt(s, i, m)
  }

  /** re.search(r"\d+[.,]?\d*", s). */
  function MatchPrice(s: string): (r: Option<PriceMatch>)
    ensures r.None? <==> !HasDigit(s)
    ensures r.Some? ==> IsLeftmostMatch(s, r.value)
  {
    var i := FirstDigit(s);
    if i == |s| then None
    else
      var j := DigitRunEnd(s, i);
      if j < |s| && (s[j] == '.' || s[j] == ',') then
        var l := DigitRunEnd(s, j + 1);
        var m := PriceMatch(s[i..j], if s[j] == '.' then "." else ",", s[j + 1..l]);
        SeparatorMatch(s, i, j, l);
        Some(m)
      else
        var m := PriceMatch(s[i..j], "", "");
        RunMatch(s, i, j);
        Some(m)
  }

  /** The leftmost digit run: no digit before it, at least one digit in it. */
  lemma LeadingRun(s: string, i: nat, j: nat)
    requires i == FirstDigit(s) < |s| && j == DigitRunEnd(s, i)
    ensures !HasDigit(s[..i]) && HasDigit(s) && i < j
  {
    forall k | 0 <= k < i ensures !IsDigit(s[..i][k]) {
      assert s[..i][k] == s[k];
    }
  }

  /** A digit run followed by a separator matches with the digits after it. */
  lemma SeparatorMatch(s: string, i: nat, j: nat, l: nat)
    requires i == FirstDigit(s) < |s| && j == DigitRunEnd(s, i)
    requires j < |s| && (s[j] == '.' || s[j] == ',') && l == DigitRunEnd(s, j + 1)
    ensures HasDigit(s)
    ensures MatchAt(s, i, PriceMatch(s[i..j], if s[j] == '.' then "." else ",", s[j + 1..l]))
  {
    LeadingRun(s, i, j);
    var sep := if s[j] == '.' then "." else ",";
    assert sep == s[j..j + 1];
    SeparatedParts(s, i, PriceMatch(s[i..j], sep, s[j + 1..l]), j, l);
  }

  /** The parts of a match with a separator, position by position. */
  lemma SeparatedParts(s: string, i: nat, m: PriceMatch, j: nat, l: nat)
    requires j == i + |m.whole| && l == j + 1 + |m.frac| && l <= |s|
    requires !HasDigit(s[..i])
    requires s[i..j] == m.whole && s[j..j + 1] == m.sep && s[j + 1..l] == m.frac
    requires m.whole != [] && AllDigits(m.whole) && AllDigits(m.frac)
    requires m.sep == "." || m.sep == ","
    requires l == |s| || !IsDigit(s[l])
    ensures MatchAt(s, i, m)
  {
  }

  /** A digit run followed by anything else matches alone. */
  lemma RunMatch(s: string, i: nat, j: nat)
    requires i == FirstDigit(s) < |s| && j == DigitRunEnd(s, i)
    requires !(j < |s| && (s[j] == '.' || s[j] == ','))
    ensures HasDigit(s)
    ensures MatchAt(s, i, PriceMatch(s[i..j], "", ""))
  {
    LeadingRun(s, i, j);
  }

  /** m.group(0).replace(',', '.'): the matched text with a ',' read as the
      decimal point. */
  function MatchText(m: PriceMatch): string
  {
    m.whole + (if m.sep == "" then "" else ".") + m.frac
  }

  /** The text parse_price searches: "Â£" and every newline removed, then
      stripped. */
  function PriceSearchText(text: string): string
  {
    Strip(RemoveAll(RemoveAll(text, "\U{c2}\U{a3}"), "\n"))
  }

  /** parse_price: None for a missing cell and for a text without digits;
      otherwise float() of the leftmost token. */
  function ParsePrice(s: Option<string>): Option<real>
  {
    match s
    case None => None
    case Some(text) =>
      match MatchPrice(PriceSearchText(text))
      case None => None
      case Some(m) =>
        MatchTextIsLiteral(m);
        Utils.DecimalText(MatchText(m))
  }

  /** A match converts without error, to whole.frac. */
  lemma MatchTextIsLiteral(m: PriceMatch)
    requires m.whole != [] && AllDigits(m.whole) && AllDigits(m.frac)
    requires m.sep == "" ==> m.frac == []
    ensures Utils.AllPriceChars(MatchText(m))
    ensures Utils.DecimalText(MatchText(m)) == Some(Utils.PointValue(m.whole, m.frac))
  {
    if m.sep == "" {
      assert MatchText(m) == m.whole;
      Utils.DecimalTextInteger(m.whole);
      assert DigitsValue(m.whole) as real == Utils.PointValue(m.whole, "");
    } else {
      assert MatchText(m) == m.whole + "." + m.frac;
      Utils.DecimalTextValue(m.whole, m.frac);
      DigitsValueAppend(m.whole, m.frac);
      Utils.ScaleDecimal(DigitsValue(m.whole), DigitsValue(m.frac),
                         DigitsValue(m.whole + m.frac), Pow10(|m.frac|));
    }
  }

  /** The removals and the strip neither add, remove nor reorder digits. */
  lemma PriceSearchTextDigits(text: string)
    ensures Digits(PriceSearchText(text)) == Digits(text)
    ensures HasDigit(PriceSearchText(text)) <==> HasDigit(text)
  {
    assert !HasDigit("\U{c2}\U{a3}") by {
      assert forall k :: 0 <= k < 2 ==> !IsDigit("\U{c2}\U{a3}"[k]);
    }
    assert !HasDigit("\n") by { assert !IsDigit("\n"[0]); }
    RemoveAllKeepsDigits(text, "\U{c2}\U{a3}");
    RemoveAllKeepsDigits(RemoveAll(text, "\U{c2}\U{a3}"), "\n");
    StripKeepsDigits(RemoveAll(RemoveAll(text, "\U{c2}\U{a3}"), "\n"));
  }

  /** The newline is removed before the search, so the digits on either
      side of it are read as one number. */
  lemma ParsePriceNewline()
    ensures ParsePrice(Some("1\n2")) == Some(12.0)
  {
    NewlineSearchText();
    TwelveMatch();
    var m := PriceMatch("12", "", "");
    MatchTextIsLiteral(m);
    Twelve();
  }

  lemma TwelveMatch()
    ensures MatchPrice("12") == Some(PriceMatch("12", "", ""))
  {
    var m := PriceMatch("12", "", "");
    assert "12"[..0] == [] && "12"[0..2] == "12";
    assert MatchAt("12", 0, m);
    MatchPriceExact("12", 0, m);
  }

  lemma Twelve()
    ensures Utils.PointValue("12", "") == 12.0
  {
    assert DigitsValue("12") == 12 by { assert "12"[..1] == "1" && "1"[..0] == ""; }
  }

  lemma NewlineSearchText()
    ensures PriceSearchText("1\n2") == "12"
  {
    var s := "1\n2";
    NotContainsFirst("\U{c2}\U{a3}", s);
    RemoveAllAbsent(s, "\U{c2}\U{a3}");
    NewlineRemoved();
    StripTwelve();
  }

  lemma NewlineRemoved()
    ensures RemoveAll("1\n2", "\n") == "12"
  {
    var s := "1\n2";
    assert "2"[..1] != "\n" && "2"[1..] == "";
    assert RemoveAll("2", "\n") == ['2'] + RemoveAll("", "\n") == "2";
    assert "\n2"[..1] == "\n" && "\n2"[1..] == "2";
    assert RemoveAll("\n2", "\n") == "2";
    assert s[..1] != "\n" && s[1..] == "\n2";
    assert RemoveAll(s, "\n") == ['1'] + RemoveAll("\n2", "\n");
  }

  lemma StripTwelve()
    ensures Strip("12") == "12"
  {
    assert LeadingSpaces("12") == 0;
    assert TrailingSpaces("12") == 0;
    assert "12"[0..] == "12" && "12"[..2] == "12";
  }

  /** parse_price gives None exactly for a missing cell and for a text with
      no digit; any price it gives is the non-negative value whole.frac of
      the leftmost match, the separator being '.' or ','. */
  lemma ParsePriceSpec(s: Option<string>)
    ensures ParsePrice(s).None? <==> s.None? || !HasDigit(s.value)
    ensures ParsePrice(s).Some? ==>
      ParsePrice(s).value >= 0.0 &&
      exists m :: IsLeftmostMatch(PriceSearchText(s.value), m) &&
                  ParsePrice(s).value == Utils.PointValue(m.whole, m.frac)
  {
    if s.Some? {
      PriceSearchTextDigits(s.value);
      var r := MatchPrice(PriceSearchText(s.value));
      if r.Some? {
        var i :| MatchAt(PriceSearchText(s.value), i, r.value);
        MatchTextIsLiteral(r.value);
      }
    }
  }

  /** parse_stock: the value of the first maximal run of digits, 0 for a
      missing cell or a text without digits. */
  function ParseStock(s: Option<string>): nat
  {
    match s
    case None => 0
    case Some(text) =>
      var i := FirstDigit(text);
      if i == |text| then 0 else DigitsValue(text[i..DigitRunEnd(text, i)])
  }

  /** The stock is 0 without a digit, and otherwise the value of the first
      maximal digit run: the text is pre + run + rest with no digit in pre
      and rest not starting with a digit. */
  lemma ParseStockSpec(s: Option<string>)
    ensures s.None? || !HasDigit(s.value) ==> ParseStock(s) == 0
    ensures s.Some? && HasDigit(s.value) ==>
      exists pre, run, rest ::
        && s.value == pre + run + rest
        && !HasDigit(pre) && run != [] && AllDigits(run)
        && (rest == [] || !IsDigit(rest[0]))
        && ParseStock(s) == DigitsValue(run)
  {
    if s.Some? && HasDigit(s.value) {
      var text := s.value;
      var i := FirstDigit(text);
      var j := DigitRunEnd(text, i);
      var pre, run, rest := text[..i], text[i..j], text[j..];
      assert text == pre + run + rest;
      assert !HasDigit(pre) by {
        forall k | 0 <= k < |pre| ensures !IsDigit(pre[k]) { assert pre[k] == text[k]; }
      }
      assert IsDigit(run[0]);
      assert j < |text| ==> rest[0] == text[j];
    }
  }

  // ------------------------------------------------------------ examples

  lemma {:induction false} FirstDigitAfter(pre: string, t: string)
    requires !HasDigit(pre)
    ensures FirstDigit(pre + t) == |pre| + FirstDigit(t)
  {
    if pre != [] {
      assert !IsDigit(pre[0]);
      assert (pre + t)[1..] == pre[1..] + t;
      assert !HasDigit(pre[1..]) by {
        forall k | 0 <= k < |pre[1..]| ensures !IsDigit(pre[1..][k]) { assert pre[1..][k] == pre[k + 1]; }
      }
      FirstDigitAfter(pre[1..], t);
    } else {
      assert pre + t == t;
    }
  }

  lemma {:induction false} DigitRunEndAt(s: string, i: nat, j: nat)
    requires i <= j <= |s| && AllDigits(s[i..j]) && (j < |s| ==> !IsDigit(s[j]))
    ensures DigitRunEnd(s, i) == j
    decreases j - i
  {
    if i < j {
      assert IsDigit(s[i..j][0]);
      var u := s[i + 1..j];
      assert AllDigits(u) by {
        forall k | 0 <= k < |u| ensures IsDigit(u[k]) {
          assert u[k] == s[i..j][k + 1];
        }
      }
      DigitRunEndAt(s, i + 1, j);
    }
  }

  lemma NotContainsFirst(pat: string, s: string)
    requires pat != [] && pat[0] !in s
    ensures !Contains(pat, s)
  {
    forall i | 0 <= i <= |s| - |pat| ensures !IsPrefix(pat, s[i..]) {
      assert s[i..][0] == s[i];
    }
  }

  lemma {:induction false} FirstDigitAt(s: string, i: nat)
    requires i < |s| && IsDigit(s[i]) && !HasDigit(s[..i])
    ensures FirstDigit(s) == i
  {
    if i > 0 {
      assert !IsDigit(s[..i][0]);
      var u := s[1..][..i - 1];
      assert !HasDigit(u) by {
        forall k | 0 <= k < |u| ensures !IsDigit(u[k]) {
          assert u[k] == s[..i][k + 1];
        }
      }
      FirstDigitAt(s[1..], i - 1);
    }
  }

  /** Conversely, a leftmost greedy match is the one re.search finds. */
  lemma MatchPriceExact(s: string, i: nat, m: PriceMatch)
    requires MatchAt(s, i, m)
    ensures MatchPrice(s) == Some(m)
  {
    var j := i + |m.whole|;
    assert IsDigit(s[i]) by { assert s[i] == m.whole[0]; }
    FirstDigitAt(s, i);
    if m.sep == "" {
      ExactRun(s, i, j, m);
      RunFound(s, i, j);
    } else {
      ExactSeparated(s, i, j, j + 1 + |m.frac|, m);
      SeparatedFound(s, i, j, j + 1 + |m.frac|);
    }
  }

  /** A match without a separator: the digit run ends where the match
      says, and no separator follows it. */
  lemma ExactRun(s: string, i: nat, j: nat, m: PriceMatch)
    requires m.sep == "" && m.frac == [] && j == i + |m.whole| <= |s|
    requires s[i..j] == m.whole && AllDigits(m.whole)
    requires j == |s| || (!IsDigit(s[j]) && s[j] != '.' && s[j] != ',')
    ensures DigitRunEnd(s, i) == j && !(j < |s| && (s[j] == '.' || s[j] == ','))
    ensures m == PriceMatch(s[i..j], "", "")
  {
    DigitRunEndAt(s, i, j);
  }

  lemma RunFound(s: string, i: nat, j: nat)
    requires FirstDigit(s) == i < |s| && DigitRunEnd(s, i) == j
    requires !(j < |s| && (s[j] == '.' || s[j] == ','))
    ensures MatchPrice(s) == Some(PriceMatch(s[i..j], "", ""))
  {
  }

  /** A match with a separator: both digit runs end where the match says,
      and the separator is the character after the first run. */
  lemma ExactSeparated(s: string, i: nat, j: nat, l: nat, m: PriceMatch)
    requires (m.sep == "." || m.sep == ",") && j == i + |m.whole| && l == j + 1 + |m.frac| <= |s|
    requires s[i..j] == m.whole && s[j..j + 1] == m.sep && s[j + 1..l] == m.frac
    requires AllDigits(m.whole) && AllDigits(m.frac)
    requires l == |s| || !IsDigit(s[l])
    ensures DigitRunEnd(s, i) == j < |s| && (s[j] == '.' || s[j] == ',') && DigitRunEnd(s, j + 1) == l
    ensures m == PriceMatch(s[i..j], if s[j] == '.' then "." else ",", s[j + 1..l])
  {
    assert s[j] == s[j..j + 1][0] == m.sep[0];
    DigitRunEndAt(s, i, j);
    DigitRunEndAt(s, j + 1, l);
    assert m.sep == (if s[j] == '.' then "." else ",");
  }

  /** Where the runs end decides what re.search returns. */
  lemma SeparatedFound(s: string, i: nat, j: nat, l: nat)
    requires FirstDigit(s) == i < |s| && DigitRunEnd(s, i) == j < |s|
    requires (s[j] == '.' || s[j] == ',') && DigitRunEnd(s, j + 1) == l
    ensures MatchPrice(s) == Some(PriceMatch(s[i..j], if s[j] == '.' then "." else ",", s[j + 1..l]))
  {
  }

  /** Conversely, the first maximal digit run is the stock. */
  lemma ParseStockExact(pre: string, run: string, rest: string)
    requires !HasDigit(pre) && run != [] && AllDigits(run)
    requires rest == [] || !IsDigit(rest[0])
    ensures ParseStock(Some(pre + run + rest)) == DigitsValue(run)
  {
    var s := pre + run + rest;
    assert s == pre + (run + rest);
    FirstDigitAfter(pre, run + rest);
    assert FirstDigit(run + rest) == 0 by { assert (run + rest)[0] == run[0]; }
    assert s[|pre|..|pre| + |run|] == run;
    assert s[|pre| + |run|..] == rest;
    DigitRunEndAt(s, |pre|, |pre| + |run|);
  }

  /** A text without the pound sign, newlines or surrounding white space
      is searched as it is. */
  lemma PriceSearchTextPlain(s: string)
    requires s != [] && !IsSpace(s[0]) && !IsSpace(s[|s| - 1])
    requires '\U{c2}' !in s && '\n' !in s
    ensures PriceSearchText(s) == s
  {
    NotContainsFirst("\U{c2}\U{a3}", s);
    RemoveAllAbsent(s, "\U{c2}\U{a3}");
    NotContainsFirst("\n", s);
    RemoveAllAbsent(s, "\n");
    assert LeadingSpaces(s) == 0;
    assert TrailingSpaces(s) == 0;
  }

  lemma ThousandsMatch()
    ensures MatchPrice("1,234.56") == Some(PriceMatch("1", ",", "234"))
  {
    var s := "1,234.56";
    var m := PriceMatch("1", ",", "234");
    assert s[..0] == [] && s[0..1] == "1" && s[1..2] == "," && s[2..5] == "234" && s[5] == '.';
    assert MatchAt(s, 0, m);
    MatchPriceExact(s, 0, m);
  }

  /** The thousands separator is read as the decimal point and what follows
      the first separator's digits is ignored. */
  lemma ParsePriceThousands()
    ensures ParsePrice(Some("1,234.56")) == Some(1.234)
  {
    var s := "1,234.56";
    PriceSearchTextPlain(s);
    ThousandsMatch();
    var m := PriceMatch("1", ",", "234");
    MatchTextIsLiteral(m);
    OnePoint234();
  }

  lemma OnePoint234()
    ensures Utils.PointValue("1", "234") == 1.234
  {
    assert DigitsValue("234") == 234 by {
      assert "234"[..2] == "23" && "23"[..1] == "2" && "2"[..0] == "";
    }
    assert DigitsValue("1") == 1 by { assert "1"[..0] == ""; }
    assert Pow10(3) == 1000;
  }

  /** The stock count sits inside free text. */
  lemma ParseStockAvailable()
    ensures ParseStock(Some("In stock (22 available)")) == 22
  {
    assert "In stock (22 available)" == "In stock (" + "22" + " available)";
    assert !HasDigit("In stock (");
    ParseStockExact("In stock (", "22", " available)");
    assert DigitsValue("22") == 22 by { assert "22"[..1] == "2" && "2"[..0] == ""; }
  }
}
