/** make_yesterday_title_kst without the clock: the Gregorian day before a given
    civil date, rendered in the %y/%m/%d format. */
module Calendar {
  import opened Wrappers
  import opened Text

  datatype Date = Date(year: int, month: int, day: int)

  /** datetime.MINYEAR and datetime.MAXYEAR. */
  const MinYear := 1
  const MaxYear := 9999

  predicate IsLeap(y: int)
  {
    y % 4 == 0 && (y % 100 != 0 || y % 400 == 0)
  }

  function DaysInYear(y: int): int
  {
    if IsLeap(y) then 366 else 365
  }

  function DaysInMonth(y: int, m: int): int
    requires 1 <= m <= 12
  {
    if m == 2 then (if IsLeap(y) then 29 else 28)
    else if m == 4 || m == 6 || m == 9 || m == 11 then 30
    else 31
  }

  /** A date the datetime module can represent. */
  predicate Valid(d: Date)
  {
    && MinYear <= d.year <= MaxYear
    && 1 <= d.month <= 12
    && 1 <= d.day <= DaysInMonth(d.year, d.month)
  }

  /** Days in the years before y, as the datetime module counts them. */
  function DaysBeforeYear(y: int): int
    requires y >= 1
  {
    var k := y - 1;
    k * 365 + k / 4 - k / 100 + k / 400
  }

  /** Days in the months of year y before month m (m = 13: the whole year). */
  function DaysBeforeMonth(y: int, m: int): int
    requires 1 <= m <= 13
  {
    if m == 1 then 0 else DaysBeforeMonth(y, m - 1) + DaysInMonth(y, m - 1)
  }

  /** date.toordinal(): 1 January of year 1 is day 1. timedelta arithmetic on
      dates is arithmetic on this number. */
  function Ordinal(d: Date): int
    requires Valid(d)
  {
    DaysBeforeYear(d.year) + DaysBeforeMonth(d.year, d.month) + d.day
  }

  lemma {:induction false} DaysBeforeYearStep(y: int)
    requires y >= 1
    ensures DaysBeforeYear(y + 1) == DaysBeforeYear(y) + DaysInYear(y)
  {
    var k := y - 1;
    assert y / 4 - k / 4 == (if y % 4 == 0 then 1 else 0);
    assert y / 100 - k / 100 == (if y % 100 == 0 then 1 else 0);
    assert y / 400 - k / 400 == (if y % 400 == 0 then 1 else 0);
  }

  lemma {:induction false} DaysBeforeMonthWholeYear(y: int)
    ensures DaysBeforeMonth(y, 13) == DaysInYear(y)
  {
    var feb := DaysInMonth(y, 2);
    assert DaysBeforeMonth(y, 2) == 31;
    assert DaysBeforeMonth(y, 3) == 31 + feb;
    assert DaysBeforeMonth(y, 4) == 62 + feb;
    assert DaysBeforeMonth(y, 5) == 92 + feb;
    assert DaysBeforeMonth(y, 6) == 123 + feb;
    assert DaysBeforeMonth(y, 7) == 153 + feb;
    assert DaysBeforeMonth(y, 8) == 184 + feb;
    assert DaysBeforeMonth(y, 9) == 215 + feb;
    assert DaysBeforeMonth(y, 10) == 245 + feb;
    assert DaysBeforeMonth(y, 11) == 276 + feb;
    assert DaysBeforeMonth(y, 12) == 306 + feb;
    assert DaysBeforeMonth(y, 13) == 337 + feb;
  }

  /** Month m of year y lies within the year, and earlier months lie wholly
      before later ones. */
  lemma {:induction false} DaysBeforeMonthMonotone(y: int, m: int, m': int)
    requires 1 <= m < m' <= 13
    ensures DaysBeforeMonth(y, m) + DaysInMonth(y, m) <= DaysBeforeMonth(y, m')
  {
    if m' > m + 1 {
      DaysBeforeMonthMonotone(y, m, m' - 1);
    }
  }

  lemma {:induction false} DaysBeforeYearMonotone(y: int, y': int)
    requires 1 <= y < y'
    ensures DaysBeforeYear(y) + DaysInYear(y) <= DaysBeforeYear(y')
    decreases y' - y
  {
    DaysBeforeYearStep(y);
    if y' > y + 1 {
      DaysBeforeYearMonotone(y + 1, y');
      DaysBeforeYearStep(y + 1);
    }
  }

  /** The ordinal of a valid date falls within its own year. */
  lemma {:induction false} OrdinalWithinYear(d: Date)
    requires Valid(d)
    ensures DaysBeforeYear(d.year) < Ordinal(d) <= DaysBeforeYear(d.year) + DaysInYear(d.year)
  {
    DaysBeforeMonthMonotone(d.year, d.month, 13);
    if d.month > 1 {
      DaysBeforeMonthMonotone(d.year, 1, d.month);
    }
    DaysBeforeMonthWholeYear(d.year);
  }

  /** Valid dates with the same ordinal are the same date. */
  lemma {:induction false} OrdinalInjective(a: Date, b: Date)
    requires Valid(a) && Valid(b)
    requires Ordinal(a) == Ordinal(b)
    ensures a == b
  {
    OrdinalWithinYear(a);
    OrdinalWithinYear(b);
    if a.year < b.year {
      DaysBeforeYearMonotone(a.year, b.year);
    } else if b.year < a.year {
      DaysBeforeYearMonotone(b.year, a.year);
    } else if a.month < b.month {
      DaysBeforeMonthMonotone(a.year, a.month, b.month);
    } else if b.month < a.month {
      DaysBeforeMonthMonotone(a.year, b.month, a.month);
    }
  }

  /** The day before, within the same month. */
  lemma DayPredecessor(d: Date)
    requires Valid(d) && d.day > 1
    ensures var p := Date(d.year, d.month, d.day - 1);
      Valid(p) && Ordinal(p) == Ordinal(d) - 1
  {
  }

  /** The last day of the previous month precedes the first of a month. */
  lemma {:induction false} MonthStartPredecessor(d: Date)
    requires Valid(d) && d.day == 1 && d.month > 1
    ensures var p := Date(d.year, d.month - 1, DaysInMonth(d.year, d.month - 1));
      Valid(p) && Ordinal(p) == Ordinal(d) - 1
  {
    assert DaysBeforeMonth(d.year, d.month) == DaysBeforeMonth(d.year, d.month - 1) + DaysInMonth(d.year, d.month - 1);
  }

  /** 31 December of the previous year precedes 1 January. */
  lemma {:induction false} NewYearPredecessor(d: Date)
    requires Valid(d) && d.day == 1 && d.month == 1 && d.year > MinYear
    ensures var p := Date(d.year - 1, 12, 31);
      Valid(p) && Ordinal(p) == Ordinal(d) - 1
  {
    var y := d.year;
    var p := Date(y - 1, 12, 31);
    var before := DaysBeforeYear(y - 1);
    DaysBeforeYearStep(y - 1);
    DaysBeforeMonthWholeYear(y - 1);
    assert DaysBeforeMonth(y - 1, 13) == DaysBeforeMonth(y - 1, 12) + 31;
    assert Ordinal(p) == before + DaysBeforeMonth(y - 1, 12) + 31;
    assert Ordinal(d) == DaysBeforeYear(y) + 1;
  }

  /** The date one day earlier; None where datetime raises OverflowError
      (the day before 0001-01-01). The result is a valid date whose ordinal is
      one less, so by OrdinalInjective it is the calendar predecessor. */
  function PreviousDay(d: Date): (r: Option<Date>)
    requires Valid(d)
    ensures r.None? <==> d == Date(MinYear, 1, 1)
    ensures r.Some? ==> Valid(r.value) && Ordinal(r.value) == Ordinal(d) - 1
  {
    if d.day > 1 then
      DayPredecessor(d);
      Some(Date(d.year, d.month, d.day - 1))
    else if d.month > 1 then
      MonthStartPredecessor(d);
      Some(Date(d.year, d.month - 1, DaysInMonth(d.year, d.month - 1)))
    else if d.year > MinYear then
      NewYearPredecessor(d);
      Some(Date(d.year - 1, 12, 31))
    else None
  }

  /** The %y/%m/%d format: two-digit year (year mod 100), month and day,
      each zero-padded, separated by slashes. */
  function FormatYYMMDD(d: Date): (s: string)
    requires Valid(d)
    ensures |s| == 8 && s[2] == '/' && s[5] == '/'
    ensures AllDigits(s[0..2]) && ParseDecimal(s[0..2]) == d.year % 100
    ensures AllDigits(s[3..5]) && ParseDecimal(s[3..5]) == d.month
    ensures AllDigits(s[6..8]) && ParseDecimal(s[6..8]) == d.day
  {
    var s := Pad2(d.year % 100) + "/" + Pad2(d.month) + "/" + Pad2(d.day);
    assert s[0..2] == Pad2(d.year % 100);
    assert s[3..5] == Pad2(d.month);
    assert s[6..8] == Pad2(d.day);
    s
  }

  /** make_yesterday_title_kst, with today's date in KST passed in: the
      title of the one valid date whose ordinal is one less than today's. */
  function YesterdayTitle(today: Date): (r: Option<string>)
    requires Valid(today)
    ensures r.None? <==> today == Date(MinYear, 1, 1)
    ensures r.Some? ==> |r.value| == 8
    ensures r.Some? ==> exists y | Valid(y) && Ordinal(y) == Ordinal(today) - 1 :: r.value == FormatYYMMDD(y)
    ensures r.Some? ==> forall y | Valid(y) && Ordinal(y) == Ordinal(today) - 1 :: r.value == FormatYYMMDD(y)
  {
    match PreviousDay(today)
    case None => None
    case Some(p) =>
      assert forall y | Valid(y) && Ordinal(y) == Ordinal(today) - 1 :: y == p by {
        forall y | Valid(y) && Ordinal(y) == Ordinal(today) - 1
          ensures y == p
        {
          OrdinalInjective(y, p);
        }
      }
      Some(FormatYYMMDD(p))
  }

  /** 1 March of a leap year follows 29 February. */
  lemma YesterdayOfLeapMarch()
    ensures YesterdayTitle(Date(2024, 3, 1)) == Some("24/02/29")
  {
    assert PreviousDay(Date(2024, 3, 1)) == Some(Date(2024, 2, 29));
    assert Pad2(24) == "24" && Pad2(2) == "02" && Pad2(29) == "29";
    assert FormatYYMMDD(Date(2024, 2, 29)) == "24/02/29";
  }

  /** 1 January follows 31 December of the year before. */
  lemma YesterdayOfNewYear()
    ensures YesterdayTitle(Date(2025, 1, 1)) == Some("24/12/31")
  {
    assert PreviousDay(Date(2025, 1, 1)) == Some(Date(2024, 12, 31));
    assert Pad2(24) == "24" && Pad2(12) == "12" && Pad2(31) == "31";
    assert FormatYYMMDD(Date(2024, 12, 31)) == "24/12/31";
  }
}
