/**
 * Decimal numerals: printing a natural number and Python's `int()` on a
 * field of the crawl log.
 */
module Numbers {
  import opened Options
  import opened Strings

  predicate IsDigit(c: char) { '0' <= c <= '9' }

  predicate AllDigits(s: string)
  {
    forall i :: 0 <= i < |s| ==> IsDigit(s[i])
  }

  /** The decimal numeral of `n`, without leading zeros. */
  function DecimalDigits(n: nat): (s: string)
    ensures |s| > 0 && AllDigits(s)
    ensures |s| > 1 ==> s[0] != '0'
  {
    var d := "0123456789"[n % 10];
    if n < 10 then [d] else DecimalDigits(n / 10) + [d]
  }

  /** The value of a run of decimal digits, most significant first. */
  function DigitsValue(s: string): (n: nat)
    requires AllDigits(s)
  {
    if s == [] then 0 else DigitsValue(s[..|s| - 1]) * 10 + (s[|s| - 1] as int - '0' as int)
  }

  /**
   * The digits of an integer literal as `int()` reads them: decimal digits,
   * where a single `_` may stand between two digits.
   */
  predicate IsNumeral(s: string)
  {
    |s| > 0 && IsDigit(s[0]) && IsDigit(s[|s| - 1]) && forall i :: 0 <= i < |s| ==> NumeralChar(s, i)
  }

  /** Position `i` of a numeral holds a digit, or a `_` with a digit on each side. */
  predicate NumeralChar(s: string, i: int)
    requires 0 <= i < |s|
  {
    IsDigit(s[i]) || (s[i] == '_' && 0 < i < |s| - 1 && IsDigit(s[i - 1]) && IsDigit(s[i + 1]))
  }

  /** The digits of a numeral with its separators removed. */
  function NumeralDigits(s: string): (d: string)
    requires IsNumeral(s)
    ensures AllDigits(d)
    ensures AllDigits(s) ==> d == s
  {
    StripSeparators(s);
    ReplaceAll(s, "_", "")
  }

  lemma StripSeparators(s: string)
    requires IsNumeral(s)
    ensures AllDigits(ReplaceAll(s, "_", ""))
    ensures AllDigits(s) ==> ReplaceAll(s, "_", "") == s
  {
    ReplaceCharFacts(s, '_', "");
    var d := ReplaceAll(s, "_", "");
    forall i | 0 <= i < |d|
      ensures IsDigit(d[i])
    {
      assert d[i] in s && d[i] != '_';
      var j :| 0 <= j < |s| && s[j] == d[i];
      assert NumeralChar(s, j);
    }
    if AllDigits(s) {
      assert '_' !in s;
    }
  }

  /**
   * Python's `int()` on a field that holds no whitespace: an optional sign
   * followed by a numeral. Anything else raises, which is `None` here.
   */
  function ParseInt(s: string): (r: Option<int>)
    ensures s != [] && AllDigits(s) ==> r == Some(DigitsValue(s))
    ensures IsNumeral(s) ==> r == Some(DigitsValue(NumeralDigits(s)))
    ensures |s| > 0 && s[0] == '+' && IsNumeral(s[1..]) ==> r == Some(DigitsValue(NumeralDigits(s[1..])))
    ensures |s| > 0 && s[0] == '-' && IsNumeral(s[1..]) ==> r == Some(0 - DigitsValue(NumeralDigits(s[1..])))
    ensures r.Some? ==> IsNumeral(s) || (|s| > 0 && (s[0] == '+' || s[0] == '-') && IsNumeral(s[1..]))
  {
    if |s| > 0 && (s[0] == '+' || s[0] == '-') then
      var body := s[1..];
      if IsNumeral(body) then
        var n := DigitsValue(NumeralDigits(body));
        Some(if s[0] == '-' then 0 - n else n)
      else None
    else if IsNumeral(s) then Some(DigitsValue(NumeralDigits(s)))
    else
      assert s != [] && AllDigits(s) ==> IsNumeral(s);
      None
  }

  /** `int()` reads `_` between two runs of digits as a separator: `1_000` is 1000. */
  lemma ParseIntUnderscore(a: string, b: string)
    requires a != [] && AllDigits(a) && b != [] && AllDigits(b)
    ensures ParseInt(a + "_" + b) == Some(DigitsValue(a + b))
  {
    UnderscoreNumeral(a, b);
    UnderscoreDigits(a, b);
  }

  lemma UnderscoreNumeral(a: string, b: string)
    requires a != [] && AllDigits(a) && b != [] && AllDigits(b)
    ensures IsNumeral(a + "_" + b)
  {
    var s := a + "_" + b;
    forall i | 0 <= i < |s|
      ensures NumeralChar(s, i)
    {
      if i < |a| {
        assert s[i] == a[i];
      } else if i == |a| {
        assert s[i - 1] == a[|a| - 1] && s[i + 1] == b[0];
      } else {
        assert s[i] == b[i - |a| - 1];
      }
    }
    assert s[0] == a[0] && s[|s| - 1] == b[|b| - 1];
  }

  lemma UnderscoreDigits(a: string, b: string)
    requires a != [] && AllDigits(a) && b != [] && AllDigits(b)
    requires IsNumeral(a + "_" + b)
    ensures NumeralDigits(a + "_" + b) == a + b
  {
    assert '_' !in a && '_' !in b;
    ReplaceCharAppend(a + "_", b, '_', "");
    ReplaceCharAppend(a, "_", '_', "");
    ReplaceOne('_', '_', "");
    ReplaceCharFacts(a, '_', "");
    ReplaceCharFacts(b, '_', "");
  }

  /** Reading back a printed number gives the number. */
  lemma {:induction false} DigitsRoundTrip(n: nat)
    ensures DigitsValue(DecimalDigits(n)) == n
  {
    var s := DecimalDigits(n);
    if n >= 10 {
      DigitsRoundTrip(n / 10);
      assert s[..|s| - 1] == DecimalDigits(n / 10);
    }
  }

  /** `int()` accepts every printed natural number and returns it. */
  lemma ParseIntRoundTrip(n: nat)
    ensures ParseInt(DecimalDigits(n)) == Some(n)
  {
    DigitsRoundTrip(n);
  }

  /** A field with a character other than a sign, a digit or `_` never parses. */
  lemma ParseIntRejects(s: string, i: nat)
    requires i < |s| && !IsDigit(s[i]) && s[i] != '+' && s[i] != '-' && s[i] != '_'
    ensures ParseInt(s) == None
  {
    if |s| > 0 && (s[0] == '+' || s[0] == '-') {
      assert s[1..][i - 1] == s[i];
      assert !NumeralChar(s[1..], i - 1);
    } else {
      assert !NumeralChar(s, i);
    }
  }

  /** A lone dash, the crawl log's "no value" marker, never parses. */
  lemma DashRejected()
    ensures ParseInt("-") == None
  {
  }
}
