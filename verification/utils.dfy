/** The price cleaner the loader applies to every persisted price
    (api/utils.py). Prices are exact decimals, written as reals. */
module Utils {
  import opened Text
  import Collections

  predicate IsPriceChar(c: char) { IsDigit(c) || c == '.' }

  predicate AllPriceChars(s: string) { forall i :: 0 <= i < |s| ==> IsPriceChar(s[i]) }

  /** The filter of clean_price: the digits and dots of s, in their order. */
  function KeepPriceChars(s: string): string
  {
    if s == [] then []
    else (if IsPriceChar(s[0]) then [s[0]] else []) + KeepPriceChars(s[1..])
  }

  /** The filter keeps a character exactly when it is a digit or a dot and
      occurs in the input, each digit and dot as often as in the input and
      in input order: currency signs, commas, spaces and '-' all go. */
  lemma KeepPriceCharsMembers(s: string)
    ensures AllPriceChars(KeepPriceChars(s))
    ensures forall c :: c in KeepPriceChars(s) <==> c in s && IsPriceChar(c)
    ensures forall c :: multiset(KeepPriceChars(s))[c] == if IsPriceChar(c) then multiset(s)[c] else 0
    ensures Collections.IsSubsequence(KeepPriceChars(s), s)
  {
    KeepPriceCharsIsFilter(s);
    Collections.FilterMembers(IsPriceChar, s);
    Collections.FilterIsSubsequence(IsPriceChar, s);
  }

  lemma {:induction false} KeepPriceCharsIsFilter(s: string)
    ensures KeepPriceChars(s) == Collections.Filter(IsPriceChar, s)
  {
    if s != [] {
      KeepPriceCharsIsFilter(s[1..]);
    }
  }

  /** The filter works character by character: it distributes over concatenation. */
  lemma {:induction false} KeepPriceCharsAppend(a: string, b: string)
    ensures KeepPriceChars(a + b) == KeepPriceChars(a) + KeepPriceChars(b)
  {
    if a != [] {
      assert (a + b)[1..] == a[1..] + b;
      KeepPriceCharsAppend(a[1..], b);
    } else {
      assert a + b == b;
    }
  }

  /** A string made of digits and dots passes the filter unchanged. */
  lemma {:induction false} KeepPriceCharsFixed(s: string)
    requires AllPriceChars(s)
    ensures KeepPriceChars(s) == s
  {
    if s != [] {
      KeepPriceCharsFixed(s[1..]);
    }
  }

  /** Filtering twice is filtering once. */
  lemma KeepPriceCharsIdempotent(s: string)
    ensures KeepPriceChars(KeepPriceChars(s)) == KeepPriceChars(s)
  {
    KeepPriceCharsMembers(s);
    KeepPriceCharsFixed(KeepPriceChars(s));
  }

  /** Index of the first '.', or |s| when there is none. */
  function DotIndex(s: string): (k: nat)
    ensures k <= |s| && '.' !in s[..k]
    ensures k < |s| ==> s[k] == '.'
  {
    if s == [] then 0
    else if s[0] == '.' then 0
    else
      var k := 1 + DotIndex(s[1..]);
      assert s[..k] == [s[0]] + s[1..][..k - 1];
      k
  }

  lemma {:induction false} DotIndexAfter(a: string, rest: string)
    requires '.' !in a
    ensures DotIndex(a + rest) == |a| + DotIndex(rest)
  {
    if a != [] {
      assert (a + rest)[0] == a[0];
      assert (a + rest)[1..] == a[1..] + rest;
      DotIndexAfter(a[1..], rest);
    } else {
      assert a + rest == rest;
    }
  }

  /** Without a dot, a string of digits and dots is all digits. */
  lemma NoDotAllDigits(s: string)
    requires AllPriceChars(s) && '.' !in s
    ensures AllDigits(s)
  {
    forall i | 0 <= i < |s| ensures IsDigit(s[i]) { assert s[i] in s; }
  }

  /** Python's float() on a string of digits and dots: the digits before the
      first dot, plus the digits after it scaled down; None is the
      ValueError case. */
  function DecimalText(t: string): (r: Option<real>)
    requires AllPriceChars(t)
    ensures r.Some? ==> r.value >= 0.0
  {
    var k := DotIndex(t);
    NoDotAllDigits(t[..k]);
    if k == |t| then
      if t == [] then None else Some(PointValue(t[..k], ""))
    else
      var b := t[k + 1..];
      if '.' in b || (k == 0 && b == []) then None
      else
        NoDotAllDigits(b);
        Some(PointValue(t[..k], b))
  }

  /** The number written whole.fraction. */
  function PointValue(whole: string, fraction: string): (v: real)
    requires AllDigits(whole) && AllDigits(fraction)
    ensures v >= 0.0
  {
    DigitsValue(whole) as real + DigitsValue(fraction) as real / Pow10(|fraction|) as real
  }

  /** float() accepts the text exactly when it has at least one digit and at
      most one dot ("5." and ".5" are literals; "", "." and "1.2.3" are not). */
  lemma DecimalTextDefined(t: string)
    requires AllPriceChars(t)
    ensures DecimalText(t).Some? <==> HasDigit(t) && multiset(t)['.'] <= 1
  {
    if DotIndex(t) == |t| {
      DefinedWithoutDot(t);
    } else {
      DefinedWithDot(t, DotIndex(t));
    }
  }

  lemma DefinedWithoutDot(t: string)
    requires AllPriceChars(t) && DotIndex(t) == |t|
    ensures DecimalText(t).Some? <==> HasDigit(t) && multiset(t)['.'] <= 1
  {
    assert t[..|t|] == t;
    NoDotAllDigits(t);
    assert multiset(t)['.'] == 0;
    if t != [] {
      assert IsDigit(t[0]);
    }
  }

  lemma DefinedWithDot(t: string, k: nat)
    requires AllPriceChars(t) && k == DotIndex(t) < |t|
    ensures DecimalText(t).Some? <==> HasDigit(t) && multiset(t)['.'] <= 1
  {
    var b := t[k + 1..];
    DotCount(t, k);
    DecimalTextAtDot(t, k);
    if '.' !in b {
      assert multiset(b)['.'] == 0;
      NoDotAllDigits(b);
      NoDotAllDigits(t[..k]);
      if k > 0 {
        assert IsDigit(t[0]);
      } else if b != [] {
        assert IsDigit(t[k + 1]);
      } else {
        assert t == ['.'];
      }
    }
  }

  /** The first dot is one; the others are after it. */
  lemma DotCount(t: string, k: nat)
    requires k == DotIndex(t) < |t|
    ensures multiset(t)['.'] == 1 + multiset(t[k + 1..])['.']
  {
    var a, b := t[..k], t[k + 1..];
    assert t == a + ['.'] + b;
    assert multiset(t) == multiset(a) + multiset(['.']) + multiset(b);
    assert '.' !in multiset(a);
  }

  /** With a dot, float() needs no second dot and a digit on some side. */
  lemma DecimalTextAtDot(t: string, k: nat)
    requires AllPriceChars(t) && k == DotIndex(t) < |t|
    ensures DecimalText(t).Some? <==> '.' !in t[k + 1..] && (k > 0 || k + 1 < |t|)
  {
  }

  lemma ScaleDecimal(x: nat, y: nat, q: nat, p: nat)
    requires p >= 1 && q == x * p + y
    ensures x as real + y as real / p as real == q as real / p as real
  {
  }

  lemma DigitsArePriceChars(a: string)
    requires AllDigits(a)
    ensures AllPriceChars(a) && '.' !in a
  {
    assert forall i :: 0 <= i < |a| ==> a[i] != '.';
  }

  /** A literal with one dot reads the digits before it and the digits
      after it. */
  lemma DecimalTextPoint(a: string, b: string)
    requires AllDigits(a) && AllDigits(b) && a + b != []
    ensures AllPriceChars(a + "." + b)
    ensures DecimalText(a + "." + b) == Some(PointValue(a, b))
  {
    var t := a + "." + b;
    DigitsArePriceChars(a);
    DigitsArePriceChars(b);
    assert t == a + ("." + b);
    DotIndexAfter(a, "." + b);
    assert DotIndex(t) == |a|;
    assert t[..|a|] == a && t[|a| + 1..] == b;
    assert '.' !in b;
  }

  /** whole.fraction is the digits of both read as one integer, scaled down
      by the number of digits after the dot. */
  lemma PointValueScaled(a: string, b: string)
    requires AllDigits(a) && AllDigits(b)
    ensures AllDigits(a + b)
    ensures PointValue(a, b) == DigitsValue(a + b) as real / Pow10(|b|) as real
  {
    DigitsValueAppend(a, b);
    ScaleDecimal(DigitsValue(a), DigitsValue(b), DigitsValue(a + b), Pow10(|b|));
  }

  /** A literal with one dot denotes mantissa / 10^scale, where the
      mantissa is its digits read as one integer and the scale is the number
      of digits after the dot. */
  lemma DecimalTextValue(a: string, b: string)
    requires AllDigits(a) && AllDigits(b) && a + b != []
    ensures AllPriceChars(a + "." + b)
    ensures AllDigits(a + b)
    ensures DecimalText(a + "." + b) == Some(DigitsValue(a + b) as real / Pow10(|b|) as real)
  {
    DecimalTextPoint(a, b);
    PointValueScaled(a, b);
  }

  /** A literal without a dot denotes its digits read as an integer. */
  lemma DecimalTextInteger(t: string)
    requires AllDigits(t) && t != []
    ensures AllPriceChars(t)
    ensures DecimalText(t) == Some(DigitsValue(t) as real)
  {
    DigitsArePriceChars(t);
    assert t[..|t|] == t;
    assert DecimalText(t) == Some(PointValue(t, ""));
  }

  /** clean_price: an empty string is 0; otherwise the filtered string is
      converted, and a conversion failure is 0. */
  function CleanPrice(s: string): (r: real)
    ensures r >= 0.0
    ensures s == "" ==> r == 0.0
    ensures r > 0.0 ==> HasDigit(s)
  {
    if s == "" then 0.0
    else
      var t := KeepPriceChars(s);
      KeepPriceCharsMembers(s);
      match DecimalText(t)
      case Some(v) =>
        DecimalTextDefined(t);
        assert HasDigit(s) by {
          var i :| 0 <= i < |t| && IsDigit(t[i]);
          assert t[i] in s;
        }
        v
      case None => 0.0
  }

  /** Conversion fails, and the price is 0, exactly when the filtered text
      has no digit or more than one dot. */
  lemma CleanPriceCases(s: string)
    ensures var t := KeepPriceChars(s);
            !HasDigit(t) || multiset(t)['.'] > 1 ==> CleanPrice(s) == 0.0
    ensures var t := KeepPriceChars(s);
            AllPriceChars(t) && HasDigit(t) && multiset(t)['.'] <= 1 ==>
              DecimalText(t) == Some(CleanPrice(s))
  {
    if s == "" { assert KeepPriceChars(s) == []; }
    KeepPriceCharsMembers(s);
    DecimalTextDefined(KeepPriceChars(s));
  }

  /** When the conversion succeeds, the price is the converted value. */
  lemma CleanPriceConverts(s: string)
    requires s != "" && AllPriceChars(KeepPriceChars(s)) && DecimalText(KeepPriceChars(s)).Some?
    ensures CleanPrice(s) == DecimalText(KeepPriceChars(s)).value
  {
  }

  lemma DigitsValue4(s: string)
    requires |s| == 4 && AllDigits(s)
    ensures DigitsValue(s) ==
      1000 * DigitValue(s[0]) + 100 * DigitValue(s[1]) + 10 * DigitValue(s[2]) + DigitValue(s[3])
  {
    var s3 := s[..3];
    var s2 := s3[..2];
    var s1 := s2[..1];
    assert s1[..0] == [] && s1[0] == s[0] && s2[1] == s[1] && s3[2] == s[2];
    assert DigitsValue(s1) == DigitValue(s[0]);
    assert DigitsValue(s2) == 10 * DigitValue(s[0]) + DigitValue(s[1]);
    assert DigitsValue(s3) == 100 * DigitValue(s[0]) + 10 * DigitValue(s[1]) + DigitValue(s[2]);
  }

  /** The pound sign and its mis-decoded prefix are dropped. */
  lemma CleanPricePound()
    ensures CleanPrice("\U{c2}\U{a3}51.77") == 51.77
  {
    PoundFilter();
    PointFiftyOneSeventySeven();
    CleanPriceConverts("\U{c2}\U{a3}51.77");
  }

  lemma PoundFilter()
    ensures KeepPriceChars("\U{c2}\U{a3}51.77") == "51.77"
  {
    var pound := "\U{c2}\U{a3}";
    assert pound + "51.77" == "\U{c2}\U{a3}51.77";
    KeepPriceCharsAppend(pound, "51.77");
    assert KeepPriceChars(pound[1..]) == [];
    KeepPriceCharsFixed("51.77");
  }

  lemma PointFiftyOneSeventySeven()
    ensures AllPriceChars("51.77") && DecimalText("51.77") == Some(51.77)
  {
    DecimalTextValue("51", "77");
    assert "51" + "." + "77" == "51.77";
    assert "51" + "77" == "5177";
    DigitsValue4("5177");
    assert Pow10(2) == 100;
  }

  /** A trailing dot is accepted. */
  lemma CleanPriceTrailingDot()
    ensures CleanPrice("5.") == 5.0
  {
    PointFive("5", "", "5.");
    CleanPriceConverts("5.");
  }

  /** A leading dot is accepted. */
  lemma CleanPriceLeadingDot()
    ensures CleanPrice(".5") == 0.5
  {
    PointFive("", "5", ".5");
    CleanPriceConverts(".5");
  }

  /** "5." and ".5" as literals: the digit 5 with no digit or one digit
      after the dot. */
  lemma PointFive(a: string, b: string, t: string)
    requires (a == "5" && b == "") || (a == "" && b == "5")
    requires t == a + "." + b
    ensures AllPriceChars(t) && KeepPriceChars(t) == t
    ensures DecimalText(t) == Some(5.0 / Pow10(|b|) as real)
  {
    assert AllDigits("5");
    assert a + b == "5";
    DecimalTextValue(a, b);
    KeepPriceCharsFixed(t);
    assert DigitsValue("5") == 5 by { assert "5"[..0] == []; }
  }

  /** A lone dot and two dots are conversion failures. */
  lemma CleanPriceBadDots()
    ensures CleanPrice(".") == 0.0
    ensures CleanPrice("1.2.3") == 0.0
  {
    KeepPriceCharsFixed(".");
    TwoDots();
  }

  lemma TwoDots()
    ensures KeepPriceChars("1.2.3") == "1.2.3" && DecimalText("1.2.3") == None
  {
    var t := "1.2.3";
    KeepPriceCharsFixed(t);
    assert t == "1" + ".2.3";
    DotIndexAfter("1", ".2.3");
    DecimalTextAtDot(t, 1);
    assert t[2..][1] == '.';
  }

  /** A minus sign is dropped by the filter, not read as a sign. */
  lemma CleanPriceMinus()
    ensures CleanPrice("-3") == 3.0
  {
    assert "-3" == "-" + "3";
    KeepPriceCharsAppend("-", "3");
    KeepPriceCharsFixed("3");
    DecimalTextInteger("3");
  }

  /** A thousands comma is dropped by the filter. */
  lemma CleanPriceComma()
    ensures CleanPrice("1,234") == 1234.0
  {
    CommaFilter();
    OneThousandTwoHundredThirtyFour();
    CleanPriceConverts("1,234");
  }

  lemma CommaFilter()
    ensures KeepPriceChars("1,234") == "1234"
  {
    assert "1,234" == "1," + "234";
    KeepPriceCharsAppend("1,", "234");
    assert KeepPriceChars("1,") == "1";
    KeepPriceCharsFixed("234");
    assert "1" + "234" == "1234";
  }

  lemma OneThousandTwoHundredThirtyFour()
    ensures AllPriceChars("1234") && DecimalText("1234") == Some(1234.0)
  {
    assert AllDigits("1234");
    DecimalTextInteger("1234");
    DigitsValue4("1234");
  }
}
