/**
 * Calendar arithmetic on `YYYYMM` month strings: the days-per-month table
 * with its divisible-by-four February rule, the step to the following
 * month, the month index `year * 12 + (month - 1)` used to reason about
 * month ranges, and the `MM-YYYY` labels under which months are stored.
 */
module Calendar {
  import opened PyText

  /** The fixed days-per-month table, keyed by two-digit month. */
  const MonthDaysGeneral: map<string, string> := map[
    "01" := "31", "02" := "28", "03" := "31", "04" := "30",
    "05" := "31", "06" := "30", "07" := "31", "08" := "31",
    "09" := "30", "10" := "31", "11" := "30", "12" := "31"]

  /** `days_in_month(year_month)`: the day count of the month as a
      two-character string. The year part must parse as an integer
      (ValueError otherwise, checked first) and the month part must be a
      table key (KeyError otherwise). */
  function DaysInMonth(yearMonth: string): (r: Result<string>)
    ensures r.Ok? ==> r.value in {"28", "29", "30", "31"}
    ensures r == Err(ValueError) <==> ParseInt(Slice(yearMonth, 0, 4)).Err?
    ensures r == Err(KeyError) <==>
              ParseInt(Slice(yearMonth, 0, 4)).Ok? && Drop(yearMonth, 4) !in MonthDaysGeneral
  {
    var year := Slice(yearMonth, 0, 4);
    var month := Drop(yearMonth, 4);
    match ParseInt(year)
    case Err(e) => Err(e)
    case Ok(y) =>
      if y % 4 == 0 && month == "02" then Ok("29")
      else if month in MonthDaysGeneral then Ok(MonthDaysGeneral[month])
      else Err(KeyError)
  }

  /** `next_month(year_month)`. December goes to January of `int(year) + 1`
      (written with `str`, so leading zeros of the year are lost);
      September goes to "10"; any other month keeps the year text and its
      first month digit and has its second digit increased. */
  function NextMonth(yearMonth: string): Result<string>
  {
    var year := Slice(yearMonth, 0, 4);
    var month := Drop(yearMonth, 4);
    if month == "12" then
      match ParseInt(year)
      case Err(e) => Err(e)
      case Ok(y) => Ok(IntToString(y + 1) + "01")
    else if month == "09" then Ok(year + "10")
    else if |month| < 2 then Err(IndexError)
    else
      match ParseInt([month[1]])
      case Err(e) => Err(e)
      case Ok(d) => Ok(year + [month[0]] + IntToString(d + 1))
  }

  // ---------------------------------------------------------------------
  // Well-formed month strings and the month index

  /** Six decimal digits whose last two name a month 01..12. */
  predicate WellFormed(ym: string)
  {
    |ym| == 6 && AllDigits(ym) && 1 <= DigitsValue(ym[4..]) <= 12
  }

  function Year(ym: string): nat
    requires WellFormed(ym)
  {
    DigitsValue(ym[..4])
  }

  function Month(ym: string): nat
    requires WellFormed(ym)
  {
    DigitsValue(ym[4..])
  }

  /** The number of months since January of year 0. */
  function Index(ym: string): (k: nat)
    requires WellFormed(ym)
    ensures k < 120000
  {
    FourDigitsBound(ym[..4]);
    Year(ym) * 12 + Month(ym) - 1
  }

  /** The months whose successor is again a well-formed month string: all
      but a December whose following year is not written with exactly four
      digits. */
  predicate Advances(ym: string)
    requires WellFormed(ym)
  {
    Month(ym) != 12 || 999 <= Year(ym) <= 9998
  }

  /** Day count of a month under the simplified rule: every year divisible
      by four is a leap year. */
  function DaysCount(year: nat, month: nat): nat
  {
    if month == 2 then (if year % 4 == 0 then 29 else 28)
    else if month == 4 || month == 6 || month == 9 || month == 11 then 30
    else 31
  }

  /** `n` written with exactly `width` digits, with leading zeros. */
  function Pad(n: nat, width: nat): (r: string)
    ensures |r| == width && AllDigits(r)
  {
    if width == 0 then [] else Pad(n / 10, width - 1) + [DigitChar(n % 10)]
  }

  /** The month string of a month index. */
  function MonthOfIndex(k: nat): string
    requires k < 120000
  {
    Pad(k / 12, 4) + Pad(k % 12 + 1, 2)
  }

  // ---------------------------------------------------------------------
  // Digit-string facts

  function Pow10(k: nat): (p: nat)
    ensures p >= 1
  {
    if k == 0 then 1 else 10 * Pow10(k - 1)
  }

  lemma {:induction false} DigitsBound(s: string)
    requires AllDigits(s)
    ensures DigitsValue(s) < Pow10(|s|)
  {
    if s != [] {
      DigitsBound(s[..|s| - 1]);
    }
  }

  lemma FourDigitsBound(s: string)
    requires |s| == 4 && AllDigits(s)
    ensures DigitsValue(s) < 10000
  {
    DigitsBound(s);
    assert Pow10(4) == 10000;
  }

  /** `Pad` writes the value back: reading the digits gives `n`. */
  lemma {:induction false} PadValue(n: nat, width: nat)
    requires n < Pow10(width)
    ensures DigitsValue(Pad(n, width)) == n
  {
    if width > 0 {
      PadValue(n / 10, width - 1);
      var p := Pad(n, width);
      assert p[..|p| - 1] == Pad(n / 10, width - 1);
    }
  }

  /** A digit string is the padded form of its own value. */
  lemma {:induction false} PadOfDigits(s: string)
    requires AllDigits(s)
    ensures Pad(DigitsValue(s), |s|) == s
  {
    if s != [] {
      var init := s[..|s| - 1];
      assert DigitsValue(s) / 10 == DigitsValue(init);
      assert DigitsValue(s) % 10 == DigitValue(s[|s| - 1]);
      PadOfDigits(init);
      assert init + [s[|s| - 1]] == s;
    }
  }

  lemma TwoDigits(s: string)
    requires |s| == 2 && AllDigits(s)
    ensures DigitsValue(s) == DigitValue(s[0]) * 10 + DigitValue(s[1])
  {
    var a := s[..1];
    assert a[..0] == [] && a[0] == s[0];
    assert DigitsValue(a) == DigitValue(s[0]);
  }

  lemma Digits4(s: string)
    requires |s| == 4 && AllDigits(s)
    ensures DigitsValue(s) == DigitValue(s[0]) * 1000 + DigitValue(s[1]) * 100 + DigitValue(s[2]) * 10 + DigitValue(s[3])
  {
    var c := s[..3];
    assert c[..2] == s[..2] && c[2] == s[2];
    TwoDigits(s[..2]);
  }

  /** The two-digit text of a number below 100. */
  function TwoDigitText(n: nat): string
    requires n < 100
  {
    [DigitChar(n / 10), DigitChar(n % 10)]
  }

  lemma TwoDigitTextValue(n: nat)
    requires n < 100
    ensures |TwoDigitText(n)| == 2 && AllDigits(TwoDigitText(n))
    ensures DigitsValue(TwoDigitText(n)) == n
  {
    TwoDigits(TwoDigitText(n));
  }

  lemma NatToStringTwoDigits(n: nat)
    requires 10 <= n < 100
    ensures NatToString(n) == TwoDigitText(n)
  {
  }

  /** `str(n)` for a natural below 10^k has at most k digits; for one at
      least 10^k it has more. */
  lemma {:induction false} NatToStringLength(n: nat, k: nat)
    requires k >= 1
    ensures n < Pow10(k) ==> |NatToString(n)| <= k
    ensures n >= Pow10(k) ==> |NatToString(n)| > k
  {
    if n >= 10 && k >= 2 {
      NatToStringLength(n / 10, k - 1);
    }
  }

  // ---------------------------------------------------------------------
  // Month index lemmas

  /** Distinct well-formed month strings have distinct indexes. */
  lemma IndexInjective(a: string, b: string)
    requires WellFormed(a) && WellFormed(b)
    requires Index(a) == Index(b)
    ensures a == b
  {
    MonthOfIndexOfString(a);
    MonthOfIndexOfString(b);
  }

  /** `MonthOfIndex` lands on a well-formed string with that index. */
  lemma MonthOfIndexIsWellFormed(k: nat)
    requires k < 120000
    ensures WellFormed(MonthOfIndex(k))
    ensures Index(MonthOfIndex(k)) == k
  {
    var s := MonthOfIndex(k);
    assert Pow10(2) == 100;
    assert Pow10(4) == 10000;
    PadValue(k / 12, 4);
    PadValue(k % 12 + 1, 2);
    assert s[..4] == Pad(k / 12, 4);
    assert s[4..] == Pad(k % 12 + 1, 2);
  }

  lemma IndexDivMod(y: nat, m: nat)
    requires 1 <= m <= 12
    ensures (y * 12 + m - 1) / 12 == y && (y * 12 + m - 1) % 12 + 1 == m
  {
  }

  /** `MonthOfIndex` inverts `Index` on well-formed strings. */
  lemma MonthOfIndexOfString(s: string)
    requires WellFormed(s)
    ensures MonthOfIndex(Index(s)) == s
  {
    var k := Index(s);
    IndexDivMod(Year(s), Month(s));
    PadOfDigits(s[..4]);
    PadOfDigits(s[4..]);
    assert s[..4] + s[4..] == s;
  }

  // ---------------------------------------------------------------------
  // next_month

  lemma SliceOfWellFormed(ym: string)
    requires |ym| == 6
    ensures Slice(ym, 0, 4) == ym[..4] && Drop(ym, 4) == ym[4..]
  {
  }

  lemma FourDigitString(n: nat)
    requires 1000 <= n <= 9999
    ensures |NatToString(n)| == 4
  {
    assert Pow10(3) == 1000 && Pow10(4) == 10000;
    NatToStringLength(n, 4);
    NatToStringLength(n, 3);
  }

  /** `next_month` of a December: `str(int(year) + 1) + "01"`. */
  lemma DecemberText(ym: string)
    requires WellFormed(ym) && Month(ym) == 12
    ensures NextMonth(ym) == Ok(NatToString(Year(ym) + 1) + "01")
  {
    SliceOfWellFormed(ym);
    TwoDigits(ym[4..]);
    assert ym[4..] == "12";
    ParseIntOfDigits(ym[..4]);
  }

  /** January of a four-digit year, written as `str(year) + "01"`. */
  lemma JanuaryText(y: nat)
    requires 1000 <= y <= 9999
    ensures WellFormed(NatToString(y) + "01")
    ensures Index(NatToString(y) + "01") == y * 12
  {
    FourDigitString(y);
    var r := NatToString(y) + "01";
    assert r[..4] == NatToString(y);
    assert r[4..] == "01";
    TwoDigits("01");
  }

  /** December of a year below 9999 goes to January of the next year. */
  lemma NextMonthOfDecember(ym: string)
    requires WellFormed(ym) && Month(ym) == 12 && 999 <= Year(ym) <= 9998
    ensures NextMonth(ym).Ok?
    ensures WellFormed(NextMonth(ym).value)
    ensures Index(NextMonth(ym).value) == Index(ym) + 1
  {
    DecemberText(ym);
    JanuaryText(Year(ym) + 1);
  }

  /** September goes to October of the same year text. */
  lemma NextMonthOfSeptember(ym: string)
    requires WellFormed(ym) && Month(ym) == 9
    ensures NextMonth(ym).Ok?
    ensures WellFormed(NextMonth(ym).value)
    ensures Index(NextMonth(ym).value) == Index(ym) + 1
  {
    SliceOfWellFormed(ym);
    var year, month := ym[..4], ym[4..];
    TwoDigits(month);
    assert month == "09";
    var r := year + "10";
    assert NextMonth(ym) == Ok(r);
    assert r[..4] == year && r[4..] == "10";
    TwoDigits("10");
  }

  /** Any other month keeps the year text and the first month digit and
      increases the second. */
  lemma NextMonthOfOther(ym: string)
    requires WellFormed(ym) && Month(ym) != 9 && Month(ym) != 12
    ensures NextMonth(ym).Ok?
    ensures WellFormed(NextMonth(ym).value)
    ensures Index(NextMonth(ym).value) == Index(ym) + 1
  {
    SliceOfWellFormed(ym);
    var year, month := ym[..4], ym[4..];
    TwoDigits(month);
    assert month != "12" && month != "09";
    var d := DigitValue(month[1]);
    ParseIntOfDigits([month[1]]);
    assert d + 1 <= 9;
    var r := year + [month[0]] + [DigitChar(d + 1)];
    assert NextMonth(ym) == Ok(r);
    assert r[..4] == year;
    assert r[4..] == [month[0], DigitChar(d + 1)];
    TwoDigits(r[4..]);
  }

  /** The month after a well-formed month that advances is well-formed and
      has the next index. */
  lemma NextMonthIndex(ym: string)
    requires WellFormed(ym) && Advances(ym)
    ensures NextMonth(ym).Ok?
    ensures WellFormed(NextMonth(ym).value)
    ensures Index(NextMonth(ym).value) == Index(ym) + 1
  {
    if Month(ym) == 12 {
      NextMonthOfDecember(ym);
    } else if Month(ym) == 9 {
      NextMonthOfSeptember(ym);
    } else {
      NextMonthOfOther(ym);
    }
  }

  /** The year after a December before 0999 has at most three digits. */
  lemma ShortYearAfter(ym: string)
    requires WellFormed(ym) && Month(ym) == 12 && Year(ym) < 999
    ensures NextMonth(ym).Ok?
    ensures |NextMonth(ym).value| < 6
  {
    SliceOfWellFormed(ym);
    TwoDigits(ym[4..]);
    assert ym[4..] == "12";
    ParseIntOfDigits(ym[..4]);
    assert Pow10(3) == 1000;
    NatToStringLength(Year(ym) + 1, 3);
  }

  /** The year after December 9999 has five digits. */
  lemma LongYearAfter(ym: string)
    requires WellFormed(ym) && Month(ym) == 12 && Year(ym) == 9999
    ensures NextMonth(ym).Ok?
    ensures |NextMonth(ym).value| == 7
  {
    SliceOfWellFormed(ym);
    TwoDigits(ym[4..]);
    assert ym[4..] == "12";
    ParseIntOfDigits(ym[..4]);
    assert Pow10(4) == 10000 && Pow10(5) == 100000;
    NatToStringLength(10000, 5);
    NatToStringLength(10000, 4);
  }

  /** A December whose following year is not four digits long produces a
      string that is not six characters long. */
  lemma NextMonthLosesFormat(ym: string)
    requires WellFormed(ym) && !Advances(ym)
    ensures NextMonth(ym).Ok?
    ensures |NextMonth(ym).value| != 6
  {
    FourDigitsBound(ym[..4]);
    if Year(ym) < 999 {
      ShortYearAfter(ym);
    } else {
      LongYearAfter(ym);
    }
  }

  /** On a well-formed month `next_month` never fails, and its result is
      well-formed exactly when the month advances. */
  lemma NextMonthWellFormedIff(ym: string)
    requires WellFormed(ym)
    ensures NextMonth(ym).Ok?
    ensures WellFormed(NextMonth(ym).value) <==> Advances(ym)
  {
    if Advances(ym) {
      NextMonthIndex(ym);
    } else {
      NextMonthLosesFormat(ym);
    }
  }

  /** The successor is the month string of the next index. */
  lemma NextMonthIsNextIndex(ym: string)
    requires WellFormed(ym) && Advances(ym)
    ensures NextMonth(ym) == Ok(MonthOfIndex(Index(ym) + 1))
  {
    NextMonthIndex(ym);
    MonthOfIndexOfString(NextMonth(ym).value);
  }

  /** `next_month` of a well-formed month is never a well-formed month at or
      before it: a walk from an earlier month cannot stop early. */
  lemma NextMonthLeaves(ym: string, s: string)
    requires WellFormed(ym) && WellFormed(s) && Index(s) <= Index(ym)
    ensures NextMonth(ym).Ok? && NextMonth(ym).value != s
  {
    NextMonthWellFormedIff(ym);
    if Advances(ym) {
      NextMonthIndex(ym);
    }
  }

  /** The year text loses its leading zeros in December. */
  lemma NextMonthDropsLeadingZeros()
    ensures NextMonth("009912") == Ok("10001")
  {
    var ym := "009912";
    Known(ym, 99, 12);
    SliceOfWellFormed(ym);
    assert Drop(ym, 4) == "12";
    ParseIntOfDigits(ym[..4]);
    assert NatToString(10) == "10";
    assert NatToString(100) == NatToString(10) + "0" == "100";
    assert NextMonth(ym) == Ok(NatToString(100) + "01");
    assert "100" + "01" == "10001";
  }

  // ---------------------------------------------------------------------
  // days_in_month

  /** The table key of a well-formed month is its two-digit month text. */
  lemma MonthKey(ym: string)
    requires WellFormed(ym)
    ensures Drop(ym, 4) == ym[4..] == TwoDigitText(Month(ym))
  {
    SliceOfWellFormed(ym);
    TwoDigits(ym[4..]);
  }

  /** Every month 1..12 has its two-digit text in the table, mapped to the
      day count of that month in a common year. */
  lemma TableEntry(m: nat)
    requires 1 <= m <= 12
    ensures TwoDigitText(m) in MonthDaysGeneral
    ensures MonthDaysGeneral[TwoDigitText(m)] == TwoDigitText(DaysCount(1, m))
    ensures TwoDigitText(m) == "02" <==> m == 2
  {
    if m == 1 { assert TwoDigitText(m) == "01"; }
    else if m == 2 { assert TwoDigitText(m) == "02"; }
    else if m == 3 { assert TwoDigitText(m) == "03"; }
    else if m == 4 { assert TwoDigitText(m) == "04"; }
    else if m == 5 { assert TwoDigitText(m) == "05"; }
    else if m == 6 { assert TwoDigitText(m) == "06"; }
    else if m == 7 { assert TwoDigitText(m) == "07"; }
    else if m == 8 { assert TwoDigitText(m) == "08"; }
    else if m == 9 { assert TwoDigitText(m) == "09"; }
    else if m == 10 { assert TwoDigitText(m) == "10"; }
    else if m == 11 { assert TwoDigitText(m) == "11"; }
    else { assert TwoDigitText(m) == "12"; }
  }

  /** On a well-formed month, `days_in_month` is the simplified day count
      written as text. */
  lemma DaysInMonthValue(ym: string)
    requires WellFormed(ym)
    ensures DaysInMonth(ym) == Ok(NatToString(DaysCount(Year(ym), Month(ym))))
  {
    SliceOfWellFormed(ym);
    ParseIntOfDigits(ym[..4]);
    MonthKey(ym);
    TableEntry(Month(ym));
    NatToStringTwoDigits(DaysCount(Year(ym), Month(ym)));
    NatToStringTwoDigits(29);
  }

  /** "29" comes back exactly for February of a year divisible by four;
      there is no century exception. */
  lemma DaysInMonthLeap(ym: string)
    requires WellFormed(ym)
    ensures DaysInMonth(ym) == Ok("29") <==> Year(ym) % 4 == 0 && Month(ym) == 2
  {
    DaysInMonthValue(ym);
    var n := DaysCount(Year(ym), Month(ym));
    NatToStringTwoDigits(n);
    assert TwoDigitText(n) == "29" ==> n == 29 by {
      TwoDigitTextValue(n);
      TwoDigitTextValue(29);
    }
  }

  /** The year 1900 is treated as a leap year. */
  lemma NoCenturyRule()
    ensures DaysInMonth("190002") == Ok("29")
  {
    assert WellFormed("190002") && Year("190002") == 1900 && Month("190002") == 2 by {
      Digits4("190002"[..4]);
      TwoDigits("190002"[4..]);
    }
    DaysInMonthLeap("190002");
  }

  /** A digit string that is not six characters long has a year part that
      parses and a month part that is not a two-character table key, so
      `days_in_month` raises KeyError. */
  lemma DaysInMonthOfOtherLength(s: string)
    requires |s| > 0 && AllDigits(s) && |s| != 6
    ensures DaysInMonth(s) == Err(KeyError)
  {
    var year := Slice(s, 0, 4);
    assert AllDigits(year);
    ParseIntOfDigits(year);
    assert forall key | key in MonthDaysGeneral :: |key| == 2;
  }

  /** A walk that passes a month which does not advance reaches a string on
      which `days_in_month` raises KeyError: "1000001" after December 9999,
      or a string of at most five characters after a December before 0999. */
  lemma LostFormatRaises(ym: string)
    requires WellFormed(ym) && !Advances(ym)
    ensures NextMonth(ym).Ok?
    ensures DaysInMonth(NextMonth(ym).value) == Err(KeyError)
  {
    NextMonthLosesFormat(ym);
    DecemberText(ym);
    var s := NatToString(Year(ym) + 1) + "01";
    assert AllDigits(s);
    DaysInMonthOfOtherLength(s);
  }

  // ---------------------------------------------------------------------
  // MM-YYYY labels

  /** `f'{ym[4:]}-{ym[0:4]}'`: the label a month is stored under. */
  function Label(ym: string): string
  {
    Drop(ym, 4) + "-" + Slice(ym, 0, 4)
  }

  /** `item[3:] + item[0:2]`: the month string read back from a label. */
  function FromLabel(item: string): string
  {
    Drop(item, 3) + Slice(item, 0, 2)
  }

  /** A label has the `MM-YYYY` shape: seven characters, a dash third. */
  predicate LabelShaped(item: string)
  {
    |item| == 7 && item[2] == '-'
  }

  lemma LabelOfSixChars(ym: string)
    requires |ym| == 6
    ensures LabelShaped(Label(ym))
    ensures FromLabel(Label(ym)) == ym
  {
    var l := Label(ym);
    assert l == ym[4..] + "-" + ym[..4];
    assert l[3..] == ym[..4];
    assert l[..2] == ym[4..];
    assert ym[..4] + ym[4..] == ym;
  }

  lemma LabelOfFromLabel(item: string)
    requires LabelShaped(item)
    ensures |FromLabel(item)| == 6
    ensures Label(FromLabel(item)) == item
  {
    var ym := FromLabel(item);
    assert ym == item[3..] + item[..2];
    assert ym[4..] == item[..2];
    assert ym[..4] == item[3..];
    assert item[..2] + "-" + item[3..] == item;
  }

  // ---------------------------------------------------------------------
  // The cases the repository's tests assert

  /** Reads a concrete six-digit month string. */
  lemma Known(ym: string, y: nat, m: nat)
    requires |ym| == 6 && AllDigits(ym)
    requires DigitValue(ym[0]) * 1000 + DigitValue(ym[1]) * 100 + DigitValue(ym[2]) * 10 + DigitValue(ym[3]) == y
    requires DigitValue(ym[4]) * 10 + DigitValue(ym[5]) == m && 1 <= m <= 12
    ensures WellFormed(ym) && Year(ym) == y && Month(ym) == m
  {
    Digits4(ym[..4]);
    TwoDigits(ym[4..]);
  }

  /** A month of a concrete test: its `days_in_month` is the day count. */
  lemma DaysInMonthTestCase(ym: string, y: nat, m: nat)
    requires |ym| == 6 && AllDigits(ym)
    requires DigitValue(ym[0]) * 1000 + DigitValue(ym[1]) * 100 + DigitValue(ym[2]) * 10 + DigitValue(ym[3]) == y
    requires DigitValue(ym[4]) * 10 + DigitValue(ym[5]) == m && 1 <= m <= 12
    ensures DaysInMonth(ym) == Ok(TwoDigitText(DaysCount(y, m)))
  {
    Known(ym, y, m);
    DaysInMonthValue(ym);
    NatToStringTwoDigits(DaysCount(y, m));
  }

  lemma DaysInMonthTestLeapFebruary()
    ensures DaysInMonth("200002") == Ok("29")
  {
    DaysInMonthTestCase("200002", 2000, 2);
  }

  lemma DaysInMonthTestCommonFebruary()
    ensures DaysInMonth("200102") == Ok("28")
  {
    DaysInMonthTestCase("200102", 2001, 2);
  }

  lemma DaysInMonthTestJanuary2000()
    ensures DaysInMonth("200001") == Ok("31")
  {
    DaysInMonthTestCase("200001", 2000, 1);
  }

  lemma DaysInMonthTestJanuary2001()
    ensures DaysInMonth("200101") == Ok("31")
  {
    DaysInMonthTestCase("200101", 2001, 1);
  }

  lemma NextMonthTestCase(ym: string, y: nat, m: nat, next: string, y': nat, m': nat)
    requires |ym| == 6 && AllDigits(ym) && |next| == 6 && AllDigits(next)
    requires DigitValue(ym[0]) * 1000 + DigitValue(ym[1]) * 100 + DigitValue(ym[2]) * 10 + DigitValue(ym[3]) == y
    requires DigitValue(ym[4]) * 10 + DigitValue(ym[5]) == m && 1 <= m <= 12
    requires DigitValue(next[0]) * 1000 + DigitValue(next[1]) * 100 + DigitValue(next[2]) * 10 + DigitValue(next[3]) == y'
    requires DigitValue(next[4]) * 10 + DigitValue(next[5]) == m' && 1 <= m' <= 12
    requires m != 12 || 999 <= y <= 9998
    requires y' * 12 + m' == y * 12 + m + 1
    ensures NextMonth(ym) == Ok(next)
  {
    Known(ym, y, m);
    Known(next, y', m');
    NextMonthIndex(ym);
    IndexInjective(NextMonth(ym).value, next);
  }

  lemma NextMonthTestDecember1999()
    ensures NextMonth("199912") == Ok("200001")
  {
    NextMonthTestCase("199912", 1999, 12, "200001", 2000, 1);
  }

  lemma NextMonthTestDecember2000()
    ensures NextMonth("200012") == Ok("200101")
  {
    NextMonthTestCase("200012", 2000, 12, "200101", 2001, 1);
  }

  lemma NextMonthTestJanuary()
    ensures NextMonth("200001") == Ok("200002")
  {
    NextMonthTestCase("200001", 2000, 1, "200002", 2000, 2);
  }

  lemma NextMonthTestSeptember()
    ensures NextMonth("200009") == Ok("200010")
  {
    NextMonthTestCase("200009", 2000, 9, "200010", 2000, 10);
  }
}
