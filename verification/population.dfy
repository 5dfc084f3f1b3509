/** Reading the population column: every comma is removed and the rest is
    read as a base-10 integer with the rules of Python's `int()`. */
module Population {

  import opened Options

  predicate IsDigit(c: char)
  {
    '0' <= c <= '9'
  }

  /** The characters `int()` trims from either end of its text: the space and
      the ASCII controls tab, line feed, vertical tab, form feed and carriage
      return. The separators 0x1c-0x1f are whitespace to `str.strip()` but
      not to `int()`. */
  predicate IsSpace(c: char)
  {
    c == ' ' || 9 <= c as int <= 13
  }

  predicate AllDigits(s: string)
  {
    forall i :: 0 <= i < |s| ==> IsDigit(s[i])
  }

  /** `s.replace(',', '')`. */
  function StripCommas(s: string): (r: string)
    ensures |r| <= |s|
    ensures forall i :: 0 <= i < |r| ==> r[i] != ','
    ensures forall c :: c != ',' ==> (c in r <==> c in s)
  {
    if |s| == 0 then []
    else (if s[0] == ',' then [] else [s[0]]) + StripCommas(s[1..])
  }

  lemma {:induction false} StripCommasConcat(a: string, b: string)
    ensures StripCommas(a + b) == StripCommas(a) + StripCommas(b)
    decreases |a|
  {
    if |a| > 0 {
      assert (a + b)[1..] == a[1..] + b;
      StripCommasConcat(a[1..], b);
    } else {
      assert a + b == b;
    }
  }

  /** Removing commas leaves a string without commas unchanged. */
  lemma {:induction false} StripCommasNoComma(s: string)
    requires forall i :: 0 <= i < |s| ==> s[i] != ','
    ensures StripCommas(s) == s
    decreases |s|
  {
    if |s| > 0 {
      StripCommasNoComma(s[1..]);
    }
  }

  function TrimStart(s: string): (r: string)
    ensures |r| <= |s|
    ensures |r| > 0 ==> !IsSpace(r[0])
  {
    if |s| > 0 && IsSpace(s[0]) then TrimStart(s[1..]) else s
  }

  function TrimEnd(s: string): (r: string)
    ensures |r| <= |s|
    ensures |r| > 0 ==> !IsSpace(r[|r| - 1])
  {
    if |s| > 0 && IsSpace(s[|s| - 1]) then TrimEnd(s[..|s| - 1]) else s
  }

  /** `s.strip()` restricted to ASCII whitespace. */
  function Trim(s: string): string
  {
    TrimEnd(TrimStart(s))
  }

  /** A run of decimal digits in which single underscores may separate digits. */
  predicate ValidDigits(s: string)
  {
    && |s| > 0
    && IsDigit(s[0])
    && IsDigit(s[|s| - 1])
    && (forall i :: 0 <= i < |s| ==> IsDigit(s[i]) || s[i] == '_')
    && (forall i :: 0 <= i < |s| - 1 && s[i] == '_' ==> IsDigit(s[i + 1]))
  }

  /** The value of the digits of `s`, read left to right, skipping underscores. */
  function DigitsValue(s: string): nat
  {
    if |s| == 0 then 0
    else if s[|s| - 1] == '_' then DigitsValue(s[..|s| - 1])
    else DigitsValue(s[..|s| - 1]) * 10 + DigitOf(s[|s| - 1])
  }

  function DigitOf(c: char): (d: nat)
    ensures d < 10 || !IsDigit(c)
  {
    if IsDigit(c) then c as int - '0' as int else 0
  }

  function Digit(d: nat): (c: char)
    requires d < 10
    ensures IsDigit(c) && DigitOf(c) == d
  {
    ('0' as int + d) as char
  }

  /** `int(s)` in base 10: surrounding whitespace, an optional sign, then
      digits; `None` where Python raises `ValueError`. */
  function ParseInt(s: string): (r: Option<int>)
    ensures r.Some? ==> exists i :: 0 <= i < |s| && IsDigit(s[i])
    ensures r.Some? && r.value < 0 ==> '-' in s
  {
    var t := Trim(s);
    var signed := |t| > 0 && (t[0] == '+' || t[0] == '-');
    var body := if signed then t[1..] else t;
    if !ValidDigits(body) then None
    else
      TrimKeeps(s, body[0]);
      TrimKeeps(s, t[0]);
      var v: int := DigitsValue(body);
      Some(if signed && t[0] == '-' then -v else v)
  }

  lemma TrimKeeps(s: string, c: char)
    requires c in Trim(s)
    ensures c in s
  {
    TrimStartSuffix(s);
    TrimEndPrefix(TrimStart(s));
  }

  lemma {:induction false} TrimStartSuffix(s: string)
    ensures forall c :: c in TrimStart(s) ==> c in s
    decreases |s|
  {
    if |s| > 0 && IsSpace(s[0]) {
      TrimStartSuffix(s[1..]);
    }
  }

  lemma {:induction false} TrimEndPrefix(s: string)
    ensures forall c :: c in TrimEnd(s) ==> c in s
    decreases |s|
  {
    if |s| > 0 && IsSpace(s[|s| - 1]) {
      TrimEndPrefix(s[..|s| - 1]);
    }
  }

  /** The population of a raw row: commas removed, then `int()`. */
  function ParsePopulation(s: string): (r: Option<int>)
    ensures (forall i :: 0 <= i < |s| ==> s[i] != ',') ==> r == ParseInt(s)
    ensures r.Some? ==> exists i :: 0 <= i < |s| && IsDigit(s[i])
  {
    var d := StripCommas(s);
    if forall i :: 0 <= i < |s| ==> s[i] != ',' then StripCommasNoComma(s); ParseInt(d)
    else StripCommasKeepsDigits(s); ParseInt(d)
  }

  /** A digit left after removing commas was a digit of the input. */
  lemma StripCommasKeepsDigits(s: string)
    ensures (exists i :: 0 <= i < |StripCommas(s)| && IsDigit(StripCommas(s)[i]))
        ==> exists j :: 0 <= j < |s| && IsDigit(s[j])
  {
    var d := StripCommas(s);
    if exists i :: 0 <= i < |d| && IsDigit(d[i]) {
      var i :| 0 <= i < |d| && IsDigit(d[i]);
      assert d[i] in d;
      var j :| 0 <= j < |s| && s[j] == d[i];
    }
  }

  /** The plain decimal numeral of `n`. */
  function Decimal(n: nat): (s: string)
    ensures |s| > 0 && AllDigits(s)
  {
    if n < 10 then [Digit(n)] else Decimal(n / 10) + [Digit(n % 10)]
  }

  /** `n` written with a comma between every group of three digits. */
  function WithThousands(n: nat): (s: string)
    ensures |s| > 0
  {
    if n < 1000 then Decimal(n)
    else WithThousands(n / 1000) + [','] + [Digit(n / 100 % 10), Digit(n / 10 % 10), Digit(n % 10)]
  }

  lemma AppendDigit(s: string, c: char)
    requires IsDigit(c)
    ensures DigitsValue(s + [c]) == DigitsValue(s) * 10 + DigitOf(c)
  {
    assert (s + [c])[..|s|] == s;
  }

  lemma {:induction false} DecimalValue(n: nat)
    ensures DigitsValue(Decimal(n)) == n
    decreases n
  {
    if n < 10 {
      assert Decimal(n) == [] + [Digit(n)];
      AppendDigit([], Digit(n));
    } else {
      DecimalValue(n / 10);
      AppendDigit(Decimal(n / 10), Digit(n % 10));
    }
  }

  /** A digit string without sign or whitespace is read back as its value. */
  lemma PlainDigitsParse(s: string)
    requires |s| > 0 && AllDigits(s)
    ensures ParseInt(s) == Some(DigitsValue(s))
  {
    assert IsDigit(s[0]) && IsDigit(s[|s| - 1]);
    assert !IsSpace(s[0]) && !IsSpace(s[|s| - 1]);
    assert TrimStart(s) == s;
    assert TrimEnd(s) == s;
    assert s[0] != '+' && s[0] != '-';
    assert ValidDigits(s);
  }

  /** Reading a plain decimal numeral gives back the number. */
  lemma DecimalRoundTrip(n: nat)
    ensures ParseInt(Decimal(n)) == Some(n)
  {
    PlainDigitsParse(Decimal(n));
    DecimalValue(n);
  }

  /** Without its commas, `WithThousands(n)` is a digit string worth `n`. */
  lemma {:induction false} ThousandsDigits(n: nat)
    ensures var d := StripCommas(WithThousands(n));
      |d| > 0 && AllDigits(d) && DigitsValue(d) == n
    decreases n
  {
    if n < 1000 {
      StripCommasNoComma(Decimal(n));
      DecimalValue(n);
    } else {
      ThousandsDigits(n / 1000);
      ThousandsStrip(n);
      ThreeDigitsValue(StripCommas(WithThousands(n / 1000)), n / 100 % 10, n / 10 % 10, n % 10);
      ThreeDigitSplit(n);
    }
  }

  /** Removing the commas of a grouped numeral peels off its last group. */
  lemma ThousandsStrip(n: nat)
    requires n >= 1000
    ensures StripCommas(WithThousands(n))
      == StripCommas(WithThousands(n / 1000)) + [Digit(n / 100 % 10), Digit(n / 10 % 10), Digit(n % 10)]
  {
    var abc := [Digit(n / 100 % 10), Digit(n / 10 % 10), Digit(n % 10)];
    StripCommasConcat(WithThousands(n / 1000) + [','], abc);
    StripCommasConcat(WithThousands(n / 1000), [',']);
    assert StripCommas([',']) == [];
    StripCommasNoComma(abc);
  }

  lemma ThreeDigitsValue(d: string, i: nat, j: nat, k: nat)
    requires i < 10 && j < 10 && k < 10
    ensures DigitsValue(d + [Digit(i), Digit(j), Digit(k)]) == ((DigitsValue(d) * 10 + i) * 10 + j) * 10 + k
  {
    AppendDigit(d, Digit(i));
    AppendDigit(d + [Digit(i)], Digit(j));
    AppendDigit(d + [Digit(i), Digit(j)], Digit(k));
    assert d + [Digit(i)] + [Digit(j)] == d + [Digit(i), Digit(j)];
    assert d + [Digit(i), Digit(j)] + [Digit(k)] == d + [Digit(i), Digit(j), Digit(k)];
  }

  lemma ThreeDigitSplit(n: nat)
    ensures ((n / 1000 * 10 + n / 100 % 10) * 10 + n / 10 % 10) * 10 + n % 10 == n
  {
  }

  /** A comma-grouped population is read back as the number it writes. */
  lemma ThousandsRoundTrip(n: nat)
    ensures ParsePopulation(WithThousands(n)) == Some(n)
  {
    ThousandsDigits(n);
    PlainDigitsParse(StripCommas(WithThousands(n)));
  }

  /** "12,345" is read as 12345. */
  lemma GroupedExample()
    ensures ParsePopulation("12,345") == Some(12345)
  {
    assert WithThousands(12) == Decimal(12) == "12";
    assert WithThousands(12345) == "12,345";
    ThousandsRoundTrip(12345);
  }

  /** The two sides of the population threshold, as the raw table writes them. */
  lemma ThresholdExamples()
    ensures ParsePopulation("9,999") == Some(9999)
    ensures ParsePopulation("10,000") == Some(10000)
  {
    BelowThresholdExample();
    AtThresholdExample();
  }

  lemma BelowThresholdExample()
    ensures ParsePopulation("9,999") == Some(9999)
  {
    assert WithThousands(9) == "9";
    assert WithThousands(9999) == "9,999";
    ThousandsRoundTrip(9999);
  }

  lemma AtThresholdExample()
    ensures ParsePopulation("10,000") == Some(10000)
  {
    assert WithThousands(10) == Decimal(10) == "10";
    assert WithThousands(10000) == WithThousands(10) + [','] + "000";
    assert WithThousands(10000) == "10,000";
    ThousandsRoundTrip(10000);
  }

  /** A sign and single underscores between digits are accepted; an empty
      string and a doubled underscore are not. */
  lemma ParseIntExamples()
    ensures ParseInt("-7") == Some(-7)
    ensures ParseInt("1_000") == Some(1000)
    ensures ParseInt("") == None
    ensures ParseInt("1__0") == None
    ensures ParseInt("\t12") == Some(12)
    ensures ParseInt([28 as char] + "12") == None
  {
    NegativeExample();
    UnderscoreExample();
    DoubledUnderscoreExample();
    TabExample();
    SeparatorExample();
    assert Trim("") == "";
  }

  lemma DoubledUnderscoreExample()
    ensures ParseInt("1__0") == None
  {
    var s := "1__0";
    assert !ValidDigits(s) by {
      assert s[1] == '_' && s[2] == '_';
    }
    assert !IsSpace(s[0]) && !IsSpace(s[3]);
    assert TrimStart(s) == s;
    assert TrimEnd(s) == s;
  }

  /** A leading tab is trimmed. */
  lemma TabExample()
    ensures ParseInt("\t12") == Some(12)
  {
    var s := "\t12";
    assert TrimStart(s) == "12" by {
      assert IsSpace(s[0]) && s[1..] == "12";
      assert TrimStart("12") == "12";
    }
    assert TrimEnd("12") == "12";
    assert ValidDigits("12");
    assert DigitsValue("12") == 12 by {
      assert "12"[..1] == "1";
      assert "1"[..0] == "";
    }
  }

  /** The file separator 0x1c is not trimmed, so the text does not parse. */
  lemma SeparatorExample()
    ensures ParseInt([28 as char] + "12") == None
  {
    var s := [28 as char] + "12";
    assert !IsSpace(s[0]) && !IsSpace(s[2]);
    assert TrimStart(s) == s;
    assert TrimEnd(s) == s;
    assert !ValidDigits(s) by {
      assert !IsDigit(s[0]) && s[0] != '+' && s[0] != '-';
    }
  }

  lemma NegativeExample()
    ensures ParseInt("-7") == Some(-7)
  {
    assert ValidDigits("7");
    assert DigitsValue("7") == 7 by {
      AppendDigit([], '7');
      assert [] + ['7'] == "7";
    }
    assert "-7"[1..] == "7";
    assert TrimStart("-7") == "-7";
    assert TrimEnd("-7") == "-7";
  }

  lemma UnderscoreExample()
    ensures ParseInt("1_000") == Some(1000)
  {
    assert TrimStart("1_000") == "1_000";
    assert TrimEnd("1_000") == "1_000";
    assert ValidDigits("1_000");
    assert DigitsValue("1_000") == 1000 by {
      assert "1_000"[..4] == "1_00";
      assert "1_00"[..3] == "1_0";
      assert "1_0"[..2] == "1_";
      assert "1_"[..1] == "1";
      assert "1"[..0] == "";
    }
  }
}
