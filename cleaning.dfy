/** The column-cleaning helpers of the training script, each applied cell by
    cell to one raw column: the release year, the watch time, the Metascore
    and the gross revenue. NaN is the `NaN` outcome; an exception raised
    inside the helper is the `Raises` outcome. */
module Cleaning {
  import opened Py

  // ---------------------------------------------------------------------
  // extract_year: the leftmost run of four digits

  /** s has four digits starting at position i. */
  predicate YearRunAt(s: string, i: nat)
  {
    i + 4 <= |s| && AllDigits(s[i..i + 4])
  }

  /** i is where `re.search(r'\d{4}', s)` matches: the leftmost run. */
  predicate FirstYearRunAt(s: string, i: nat)
  {
    YearRunAt(s, i) && forall j: nat :: j < i ==> !YearRunAt(s, j)
  }

  /** Scans s from position `from` for the first four-digit run. */
  function FindYearRun(s: string, from: nat): (r: Option<nat>)
    requires from <= |s|
    decreases |s| - from
    ensures r.Some? ==> from <= r.value && YearRunAt(s, r.value)
    ensures r.Some? ==> forall j: nat :: from <= j < r.value ==> !YearRunAt(s, j)
    ensures r.None? ==> forall j: nat :: from <= j ==> !YearRunAt(s, j)
  {
    if from + 4 > |s| then None
    else if YearRunAt(s, from) then Some(from)
    else FindYearRun(s, from + 1)
  }

  /** extract_year: int() of the leftmost four consecutive digits of str(cell),
      or NaN when there is no such run. */
  function ExtractYear(c: Cell): (r: Outcome<int>)
    ensures !r.Raises?
    ensures r.NaN? <==> forall i: nat :: !YearRunAt(Str(c), i)
    ensures r.Value? ==> 0 <= r.v <= 9999
    ensures r.Value? ==> exists i: nat :: FirstYearRunAt(Str(c), i) && r.v == DecimalValue(Str(c)[i..i + 4])
  {
    var s := Str(c);
    match FindYearRun(s, 0)
    case None => NaN
    case Some(i) =>
      assert FirstYearRunAt(s, i);
      assert Pow10(4) == 10000;
      Value(DecimalValue(s[i..i + 4]))
  }

  /** Of five digits in a row, the first four are the year. */
  lemma ExtractYearFiveDigits()
    ensures ExtractYear(Text("12345")) == Value(1234)
  {
    var s := "12345";
    assert YearRunAt(s, 0);
    assert s[0..4] == "1234";
    assert "1234"[..3] == "123" && "123"[..2] == "12" && "12"[..1] == "1" && "1"[..0] == "";
    assert DecimalValue("1234") == 1234;
  }

  /** An integer cell with four digits reads back as itself. */
  lemma ExtractYearOfNumber(n: int)
    requires 1000 <= n <= 9999
    ensures ExtractYear(Number(n)) == Value(n)
  {
    var s := NatToDecimal(n);
    assert |s| == 4 by {
      assert |NatToDecimal(n / 1000)| == 1;
      assert |NatToDecimal(n / 100)| == 2;
      assert |NatToDecimal(n / 10)| == 3;
    }
    assert s[0..4] == s;
    assert YearRunAt(s, 0);
  }

  /** A missing cell prints as "nan", which holds no digits. */
  lemma ExtractYearOfMissing()
    ensures ExtractYear(Missing) == NaN
  {
  }

  // ---------------------------------------------------------------------
  // clean_watch_time: drop the last four characters (" min")

  /** clean_watch_time: `value[:-4]` for a string cell, NaN otherwise. */
  function CleanWatchTime(c: Cell): (r: Outcome<string>)
    ensures !r.Raises?
    ensures r.Value? <==> c.Text?
    ensures c.Text? ==> r.v <= c.s && |r.v| == Max(0, |c.s| - 4)
  {
    if c.Text? then Value(Slice(c.s, 0, -4)) else NaN
  }

  // ---------------------------------------------------------------------
  // clean_meatscore: the "****" sentinel, otherwise strip()

  const NoScore := "****"

  /** clean_meatscore: NaN for the sentinel and for missing cells, the
      stripped string otherwise; `strip` on an integer raises. */
  function CleanMeatscore(c: Cell): (r: Outcome<string>)
    ensures r.NaN? <==> c == Text(NoScore) || c.Missing?
    ensures r.Raises? <==> c.Number?
    ensures r.Raises? ==> r.error == AttributeError
    ensures r.Value? ==> IsStripOf(c.s, r.v)
  {
    if c == Text(NoScore) || c.Missing? then NaN
    else if c.Number? then Raises(AttributeError)
    else Value(Strip(c.s))
  }

  /** The sentinel is compared before stripping, so cleaning is not
      idempotent: a padded sentinel survives once and is NaN the second time. */
  lemma CleanMeatscoreNotIdempotent()
    ensures CleanMeatscore(Text(" **** ")) == Value(NoScore)
    ensures CleanMeatscore(Text(NoScore)) == NaN
  {
    var s := " **** ";
    assert LeadingSpace(s) == 1 by {
      assert IsSpace(s[0]) && !IsSpace(s[1]);
    }
    assert TrailingSpace(s[1..]) == 1 by {
      assert s[1..] == "**** ";
      assert "**** "[..4] == NoScore;
    }
    assert s[1..5] == NoScore;
  }

  // ---------------------------------------------------------------------
  // parse_gross: "$12.34M" in millions, "$1.2B" scaled to millions

  predicate IsNumericChar(c: char) { IsDigit(c) || c == '.' }

  predicate AllNumeric(s: string) { forall i :: 0 <= i < |s| ==> IsNumericChar(s[i]) }

  /** `re.sub(r'[^\d.]', '', s)`: keeps exactly the digits and dots of s. */
  function KeepNumeric(s: string): (r: string)
    ensures AllNumeric(r)
  {
    if s == [] then []
    else (if IsNumericChar(s[0]) then [s[0]] else []) + KeepNumeric(s[1..])
  }

  /** The filter drops no digit and no dot: each occurs as often as in s. */
  lemma {:induction false} KeepNumericCounts(s: string)
    ensures forall ch :: multiset(KeepNumeric(s))[ch] == if IsNumericChar(ch) then multiset(s)[ch] else 0
  {
    if s != [] {
      assert s == [s[0]] + s[1..];
      KeepNumericCounts(s[1..]);
    }
  }

  /** The filter keeps characters in their original order. */
  lemma {:induction false} KeepNumericInOrder(s: string)
    ensures IsSubsequence(KeepNumeric(s), s)
  {
    if s != [] {
      KeepNumericInOrder(s[1..]);
      if IsNumericChar(s[0]) {
        assert KeepNumeric(s) == [s[0]] + KeepNumeric(s[1..]);
        assert KeepNumeric(s)[1..] == KeepNumeric(s[1..]);
      } else {
        assert KeepNumeric(s) == KeepNumeric(s[1..]);
      }
    }
  }

  /** The filter works character by character. */
  lemma {:induction false} KeepNumericConcat(a: string, b: string)
    ensures KeepNumeric(a + b) == KeepNumeric(a) + KeepNumeric(b)
  {
    if a == [] {
      assert a + b == b;
    } else {
      assert (a + b)[0] == a[0];
      assert (a + b)[1..] == a[1..] + b;
      KeepNumericConcat(a[1..], b);
    }
  }

  /** Position of the first c in s. */
  function IndexOf(s: string, c: char): (k: nat)
    requires c in s
    ensures k < |s| && s[k] == c && c !in s[..k]
  {
    if s[0] == c then 0
    else
      var k := 1 + IndexOf(s[1..], c);
      assert s[..k] == [s[0]] + s[1..][..k - 1];
      k
  }

  /** An exact decimal amount: `units` times 10 to the power -`places`. */
  datatype Decimal = Decimal(units: nat, places: nat)

  /** The number a decimal amount stands for. */
  function DecimalToReal(x: Decimal): real
  {
    x.units as real / Pow10(x.places) as real
  }

  /** The same amount a thousand times over (billions read as millions). */
  function Thousandfold(x: Decimal): (y: Decimal)
    ensures DecimalToReal(y) == 1000.0 * DecimalToReal(x)
  {
    var p := Pow10(x.places) as real;
    assert (1000 * x.units) as real / p == 1000.0 * (x.units as real / p);
    Decimal(1000 * x.units, x.places)
  }

  /** float() of a string of digits and dots, as an exact decimal: defined
      when there is at most one dot and at least one digit ("12", "1.5",
      "1.", ".5"), otherwise float() raises ValueError. The value keeps as
      many places as there are digits after the dot. */
  function FloatOfNumeric(d: string): (r: Option<Decimal>)
    requires AllNumeric(d)
    ensures r.Some? <==> multiset(d)['.'] <= 1 && multiset(d)['.'] < |d|
    ensures r.Some? && '.' !in d ==> r.value == Decimal(DecimalValue(d), 0)
    ensures r.Some? && '.' in d ==> r.value.places == |d| - 1 - IndexOf(d, '.')
    ensures r.Some? && '.' in d ==>
      && AllDigits(d[..IndexOf(d, '.')] + d[IndexOf(d, '.') + 1..])
      && r.value.units == DecimalValue(d[..IndexOf(d, '.')] + d[IndexOf(d, '.') + 1..])
  {
    if '.' !in d then
      assert multiset(d)['.'] == 0;
      if d == [] then None else Some(Decimal(DecimalValue(d), 0))
    else
      var k := IndexOf(d, '.');
      var whole, frac := d[..k], d[k + 1..];
      assert d == whole + ['.'] + frac;
      assert multiset(whole)['.'] == 0;
      assert multiset(d)['.'] == 1 + multiset(frac)['.'];
      assert '.' in frac <==> multiset(frac)['.'] > 0;
      if '.' in frac || (whole == [] && frac == []) then None
      else
        assert AllDigits(whole + frac);
        Some(Decimal(DecimalValue(whole + frac), |frac|))
  }

  /** float() of the filtered digits, in millions: a thousandfold for
      billions. */
  function GrossAmount(digits: string, billions: bool): (r: Outcome<Decimal>)
    requires AllNumeric(digits)
    ensures !r.NaN?
    ensures r.Raises? <==> FloatOfNumeric(digits).None?
    ensures r.Raises? ==> r.error == ValueError
    ensures r.Value? ==> r.v == if billions then Thousandfold(FloatOfNumeric(digits).value)
                                else FloatOfNumeric(digits).value
  {
    match FloatOfNumeric(digits)
    case None => Raises(ValueError)
    case Some(x) => Value(if billions then Thousandfold(x) else x)
  }

  /** The cell is a string starting with `$` and holding a B or M somewhere. */
  predicate IsGrossText(c: Cell)
  {
    c.Text? && "$" <= c.s && ('B' in c.s || 'M' in c.s)
  }

  /** parse_gross: NaN unless the cell is a `$` string with a B or an M; a
      B anywhere means billions (a thousandfold), checked before M
      (millions). */
  function ParseGross(c: Cell): (r: Outcome<Decimal>)
    ensures r.NaN? <==> !IsGrossText(c)
    ensures r.Raises? <==> IsGrossText(c) && FloatOfNumeric(KeepNumeric(c.s)).None?
    ensures r.Raises? ==> r.error == ValueError
    ensures r.Value? && 'B' in c.s ==> r.v == Thousandfold(FloatOfNumeric(KeepNumeric(c.s)).value)
    ensures r.Value? && 'B' !in c.s ==> r.v == FloatOfNumeric(KeepNumeric(c.s)).value
  {
    if !c.Text? then NaN
    else if "$" <= c.s then
      if 'B' in c.s then GrossAmount(KeepNumeric(c.s), true)
      else if 'M' in c.s then GrossAmount(KeepNumeric(c.s), false)
      else NaN
    else NaN
  }

  /** B is checked before M, and a B amount is 1000 times the same digits
      read as an M amount. */
  lemma GrossBillionsAreThousandMillions(billions: string, millions: string)
    requires "$" <= billions && 'B' in billions
    requires "$" <= millions && 'B' !in millions && 'M' in millions
    requires KeepNumeric(billions) == KeepNumeric(millions)
    ensures ParseGross(Text(millions)).Value? ==>
              && ParseGross(Text(billions)) == Value(Thousandfold(ParseGross(Text(millions)).v))
              && DecimalToReal(ParseGross(Text(billions)).v) == 1000.0 * DecimalToReal(ParseGross(Text(millions)).v)
    ensures ParseGross(Text(millions)).Raises? <==> ParseGross(Text(billions)).Raises?
  {
  }

  /** A string of digits and dots passes the filter unchanged. */
  lemma {:induction false} KeepNumericOfNumeric(s: string)
    requires AllNumeric(s)
    ensures KeepNumeric(s) == s
  {
    if s != [] {
      KeepNumericOfNumeric(s[1..]);
    }
  }

  /** float() of "whole.frac" is the digits of both sides over 10^|frac|. */
  lemma FloatOfPointed(whole: string, frac: string)
    requires AllDigits(whole) && AllDigits(frac) && |whole| + |frac| > 0
    ensures AllNumeric(whole + "." + frac) && AllDigits(whole + frac)
    ensures FloatOfNumeric(whole + "." + frac) == Some(Decimal(DecimalValue(whole + frac), |frac|))
  {
    var d := whole + "." + frac;
    assert d[|whole|] == '.';
    assert '.' !in whole;
    assert d[..|whole|] == whole;
    assert IndexOf(d, '.') == |whole|;
    assert d[|whole| + 1..] == frac;
  }

  lemma ParseGrossMillionsBranch(s: string)
    requires "$" <= s && 'B' !in s && 'M' in s
    ensures ParseGross(Text(s)) == GrossAmount(KeepNumeric(s), false)
  {
  }

  lemma ParseGrossBillionsBranch(s: string)
    requires "$" <= s && 'B' in s
    ensures ParseGross(Text(s)) == GrossAmount(KeepNumeric(s), true)
  {
  }

  lemma MillionsText()
    ensures "$" <= "$28.34M" && 'B' !in "$28.34M" && 'M' in "$28.34M"
    ensures KeepNumeric("$28.34M") == "28.34"
  {
    var s := "$28.34M";
    assert s[6] == 'M';
    assert s == "$" + "28.34" + "M";
    KeepNumericConcat("$" + "28.34", "M");
    KeepNumericConcat("$", "28.34");
    KeepNumericOfNumeric("28.34");
  }

  lemma MillionsUnits()
    ensures DecimalValue("2834") == 2834
  {
    assert "2834"[..3] == "283" && "283"[..2] == "28" && "28"[..1] == "2";
  }

  lemma MillionsDigits()
    ensures FloatOfNumeric("28.34") == Some(Decimal(2834, 2))
  {
    assert "28" + "." + "34" == "28.34" && "28" + "34" == "2834";
    FloatOfPointed("28", "34");
    MillionsUnits();
  }

  /** "$28.34M" is 28.34 million. */
  lemma ParseGrossMillions()
    ensures ParseGross(Text("$28.34M")) == Value(Decimal(2834, 2))
    ensures DecimalToReal(ParseGross(Text("$28.34M")).v) == 28.34
  {
    MillionsText();
    MillionsDigits();
    ParseGrossMillionsBranch("$28.34M");
    MillionsAmount();
  }

  lemma MillionsAmount()
    ensures DecimalToReal(Decimal(2834, 2)) == 28.34
  {
    assert Pow10(2) == 100;
  }

  lemma BillionsText()
    ensures "$" <= "$1.2B" && 'B' in "$1.2B"
    ensures KeepNumeric("$1.2B") == "1.2"
  {
    var s := "$1.2B";
    assert s[4] == 'B';
    assert s == "$" + "1.2" + "B";
    KeepNumericConcat("$" + "1.2", "B");
    KeepNumericConcat("$", "1.2");
    KeepNumericOfNumeric("1.2");
  }

  lemma BillionsUnits()
    ensures DecimalValue("12") == 12
  {
    assert "12"[..1] == "1";
  }

  lemma BillionsDigits()
    ensures FloatOfNumeric("1.2") == Some(Decimal(12, 1))
  {
    assert "1" + "." + "2" == "1.2" && "1" + "2" == "12";
    FloatOfPointed("1", "2");
    BillionsUnits();
  }

  /** "$1.2B" is 1200 million. */
  lemma ParseGrossBillions()
    ensures ParseGross(Text("$1.2B")) == Value(Decimal(12000, 1))
    ensures DecimalToReal(ParseGross(Text("$1.2B")).v) == 1200.0
  {
    BillionsText();
    BillionsDigits();
    ParseGrossBillionsBranch("$1.2B");
    BillionsAmount();
  }

  lemma BillionsAmount()
    ensures DecimalToReal(Decimal(12000, 1)) == 1200.0
  {
    assert Pow10(1) == 10;
  }

  /** float("") raises: a `$` amount without digits is an error, not NaN. */
  lemma ParseGrossNoDigits()
    ensures ParseGross(Text("$M")) == Raises(ValueError)
  {
    assert KeepNumeric("$M") == "";
  }

  lemma ParseGrossNaNCases()
    ensures ParseGross(Text("28.34M")) == NaN
    ensures ParseGross(Text("$28.34")) == NaN
    ensures ParseGross(Missing) == NaN
    ensures ParseGross(Number(28)) == NaN
  {
    assert "28.34M"[0] != '$';
    assert 'B' !in "$28.34" && 'M' !in "$28.34";
  }
}
