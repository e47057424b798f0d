/**
 * Day counts of civil dates (datetime.rs, `days_from_civil`), against the calendar's own rules:
 * the leap years of appendix C and the month lengths of section 5.7 of RFC 3339. The source
 * computes in 64-bit integers without checks, so the years for which it can are part of the result.
 */
module CivilDate {
  import opened ArrayOffsets

  /** What the source computes; `OutOfRange` is an `i64` operation out of range. */
  datatype DayCount = Days(value: i64) | InvalidDate | OutOfRange

  datatype Date = Date(year: int, month: int, day: int)

  const I64_MIN: int := -0x8000_0000_0000_0000

  // ----- The computation of the source -----

  /** Division rounding toward zero, as for machine integers. */
  function TruncDiv(a: int, b: int): int
    requires b > 0
  {
    if a >= 0 then a / b else -((-a) / b)
  }

  predicate Fits(n: int)
  {
    I64_MIN <= n <= I64_MAX
  }

  function DaysFromCivil(year: i64, month: i64, day: i64): DayCount
  {
    if !(1 <= month <= 12) || !(1 <= day <= 31) then
      InvalidDate
    else
      var y := year - (if month <= 2 then 1 else 0);
      var m := month + (if month > 2 then -3 else 9);
      CountEras(y, TruncDiv(153 * m + 2, 5) + day - 1)
  }

  /** The second half: the days of whole eras of 400 years, of the year of the era, and of the year. */
  function CountEras(y: int, doy: int): DayCount
  {
    var numerator := if y >= 0 then y else y - 399;
    var era := TruncDiv(numerator, 400);
    var yoe := y - era * 400;
    var doe := yoe * 365 + TruncDiv(yoe, 4) - TruncDiv(yoe, 100) + doy;
    var days := era * 146097 + doe - 719468;
    if Fits(y) && Fits(numerator) && Fits(era * 400) && Fits(yoe)
      && Fits(era * 146097) && Fits(era * 146097 + doe) && Fits(days)
    then Days(days)
    else OutOfRange
  }

  /** The day numbers that the source can compute: the last subtraction starts 719468 higher. */
  predicate Computable(n: int)
  {
    I64_MIN <= n <= I64_MAX - 719468
  }

  // ----- The calendar -----

  predicate IsLeap(year: int)
  {
    year % 4 == 0 && (year % 100 != 0 || year % 400 == 0)
  }

  function MonthLength(year: int, month: int): int
  {
    if month == 2 then (if IsLeap(year) then 29 else 28)
    else if month in {4, 6, 9, 11} then 30
    else 31
  }

  predicate IsDate(d: Date)
  {
    1 <= d.month <= 12 && 1 <= d.day <= MonthLength(d.year, d.month)
  }

  function YearLength(year: int): int
  {
    if IsLeap(year) then 366 else 365
  }

  /** Days from 1970-01-01 to the first of January, counted year by year. */
  function DaysBeforeYear(year: int): int
    decreases if year >= 1970 then year - 1970 else 1970 - year
  {
    if year == 1970 then 0
    else if year > 1970 then DaysBeforeYear(year - 1) + YearLength(year - 1)
    else DaysBeforeYear(year + 1) - YearLength(year)
  }

  /** Days of a year before the first of a month, counted month by month. */
  function DaysBeforeMonth(year: int, month: int): int
    requires 1 <= month <= 12
    decreases month
  {
    if month == 1 then 0 else DaysBeforeMonth(year, month - 1) + MonthLength(year, month - 1)
  }

  /** The day count by the calendar's own rules. */
  function DayNumber(d: Date): int
    requires 1 <= d.month <= 12
  {
    DaysBeforeYear(d.year) + DaysBeforeMonth(d.year, d.month) + d.day - 1
  }

  // ----- Agreement -----

  /** The closed form of the days before a year. */
  function ClosedForm(year: int): int
  {
    365 * (year - 1970) + (year - 1) / 4 - (year - 1) / 100 + (year - 1) / 400 - 477
  }

  lemma FloorSteps(year: int, k: int)
    requires k == 4 || k == 100 || k == 400
    ensures year / k - (year - 1) / k == if year % k == 0 then 1 else 0
  {
    if k == 4 {
    } else if k == 100 {
    } else {
    }
  }

  lemma FloorUnique(a: int, k: int, q: int, r: int)
    requires k == 4 || k == 100 || k == 400
    requires 0 <= r < k && a == q * k + r
    ensures a / k == q
  {
    if k == 4 {
    } else if k == 100 {
    } else {
    }
  }

  lemma CenturyDivides(year: int)
    ensures year % 100 == 0 ==> year % 4 == 0
  {
    var k := year / 100;
    if year % 100 == 0 {
      assert year == 4 * (25 * k);
    }
  }

  lemma EraDivides(year: int)
    ensures year % 400 == 0 ==> year % 100 == 0
  {
    var k := year / 400;
    if year % 400 == 0 {
      assert year == 100 * (4 * k);
    }
  }

  lemma LeapByModulus(year: int)
    ensures (if IsLeap(year) then 1 else 0) ==
      (if year % 4 == 0 then 1 else 0) - (if year % 100 == 0 then 1 else 0) + (if year % 400 == 0 then 1 else 0)
  {
    CenturyDivides(year);
    EraDivides(year);
  }

  lemma ClosedFormStep(year: int)
    ensures ClosedForm(year + 1) == ClosedForm(year) + YearLength(year)
  {
    LeapStep(year);
  }

  lemma {:induction false} YearsClosed(year: int)
    ensures DaysBeforeYear(year) == ClosedForm(year)
    decreases if year >= 1970 then year - 1970 else 1970 - year
  {
    if year > 1970 {
      YearsClosed(year - 1);
      ClosedFormStep(year - 1);
    } else if year < 1970 {
      YearsClosed(year + 1);
      ClosedFormStep(year);
    }
  }

  /** The source's era is the floor of the year by 400, for negative years as well. */
  lemma EraIsFloor(y: int)
    ensures TruncDiv(if y >= 0 then y else y - 399, 400) == y / 400
  {
    if y < 0 {
      var q, r := y / 400, y % 400;
      FloorUnique(399 - y, 400, -q, 399 - r);
    }
  }

  /** Splitting off whole eras of 400 years. */
  lemma EraDays(y: int)
    ensures var era := y / 400; var yoe := y % 400;
      era * 146097 + yoe * 365 + yoe / 4 - yoe / 100 == 365 * y + y / 4 - y / 100 + y / 400
  {
    var era, yoe := y / 400, y % 400;
    FloorUnique(y, 4, 100 * era + yoe / 4, yoe % 4);
    FloorUnique(y, 100, 4 * era + yoe / 100, yoe % 100);
  }

  /** The days from March to a month, by the source's formula and by counting. */
  lemma MonthFormula(year: int, month: int)
    requires 1 <= month <= 12
    ensures var m := month + (if month > 2 then -3 else 9);
      (153 * m + 2) / 5 == if month > 2
        then DaysBeforeMonth(year, month) - DaysBeforeMonth(year, 3)
        else 306 + DaysBeforeMonth(year, month)
    ensures DaysBeforeMonth(year, 3) == if IsLeap(year) then 60 else 59
  {
    assert DaysBeforeMonth(year, 1) == 0;
    assert DaysBeforeMonth(year, 2) == 31;
    assert DaysBeforeMonth(year, 3) == 31 + MonthLength(year, 2);
    assert DaysBeforeMonth(year, 4) == 31 + DaysBeforeMonth(year, 3);
    assert DaysBeforeMonth(year, 5) == 30 + DaysBeforeMonth(year, 4);
    assert DaysBeforeMonth(year, 6) == 31 + DaysBeforeMonth(year, 5);
    assert DaysBeforeMonth(year, 7) == 30 + DaysBeforeMonth(year, 6);
    assert DaysBeforeMonth(year, 8) == 31 + DaysBeforeMonth(year, 7);
    assert DaysBeforeMonth(year, 9) == 31 + DaysBeforeMonth(year, 8);
    assert DaysBeforeMonth(year, 10) == 30 + DaysBeforeMonth(year, 9);
    assert DaysBeforeMonth(year, 11) == 31 + DaysBeforeMonth(year, 10);
    assert DaysBeforeMonth(year, 12) == 30 + DaysBeforeMonth(year, 11);
  }

  /** What the source would compute without limits: floor divisions of the shifted year. */
  function Unlimited(year: int, month: int, day: int): int
    requires 1 <= month <= 12
  {
    var y := year - (if month <= 2 then 1 else 0);
    var m := month + (if month > 2 then -3 else 9);
    365 * y + y / 4 - y / 100 + y / 400 + (153 * m + 2) / 5 + day - 1 - 719468
  }

  /** The count is roughly 365.2425 days a year. */
  lemma UnlimitedBounds(year: int, month: int, day: int)
    requires 1 <= month <= 12 && 1 <= day <= 31
    ensures year >= 0 ==> Unlimited(year, month, day) >= year - 800_000
    ensures year <= 0 ==> Unlimited(year, month, day) <= year
  {
  }

  /** Within the limits of the last step every earlier step is within its own. */
  lemma StepsFit(y: int, doe: int)
    requires Computable(y / 400 * 146097 + doe - 719468) && 0 <= doe <= 146_200
    ensures Fits(y) && Fits(y - 399) && Fits(y / 400 * 400) && Fits(y / 400 * 146097)
    ensures Fits(y / 400 * 146097 + doe)
  {
    var era := y / 400;
    assert 400 * era <= y < 400 * era + 400;
  }

  lemma DayOfEraBounds(yoe: int, doy: int)
    requires 0 <= yoe < 400 && 0 <= doy <= 400
    ensures 0 <= yoe * 365 + yoe / 4 - yoe / 100 + doy <= 146_200
  {
  }

  /** The second half, exactly: out of range when its result leaves no room for the last subtraction. */
  lemma ErasCounted(y: int, doy: int)
    requires 0 <= doy <= 400
    ensures var days := 365 * y + y / 4 - y / 100 + y / 400 + doy - 719468;
      CountEras(y, doy) == if Computable(days) then Days(days) else OutOfRange
  {
    EraIsFloor(y);
    EraDays(y);
    var era, yoe := y / 400, y % 400;
    assert y - era * 400 == yoe;
    var doe := yoe * 365 + yoe / 4 - yoe / 100 + doy;
    DayOfEraBounds(yoe, doy);
    if Computable(era * 146097 + doe - 719468) {
      StepsFit(y, doe);
    }
  }

  /** The source's count is the unlimited one where that is computable. */
  lemma SourceCount(year: i64, month: i64, day: i64)
    requires 1 <= month <= 12 && 1 <= day <= 31
    ensures var days := Unlimited(year, month, day);
      DaysFromCivil(year, month, day) == if Computable(days) then Days(days) else OutOfRange
  {
    hide CountEras;
    var m := month + (if month > 2 then -3 else 9);
    ErasCounted(year - (if month <= 2 then 1 else 0), (153 * m + 2) / 5 + day - 1);
  }

  /** The floor divisions of a year in terms of those of the year before. */
  lemma LeapStep(year: int)
    ensures year / 4 - year / 100 + year / 400 ==
      (year - 1) / 4 - (year - 1) / 100 + (year - 1) / 400 + (if IsLeap(year) then 1 else 0)
  {
    FloorSteps(year, 4);
    FloorSteps(year, 100);
    FloorSteps(year, 400);
    LeapByModulus(year);
  }

  lemma UnlimitedIsDayNumber(year: int, month: int, day: int)
    requires 1 <= month <= 12
    ensures Unlimited(year, month, day) == DayNumber(Date(year, month, day))
  {
    MonthFormula(year, month);
    YearsClosed(year);
    LeapStep(year);
  }

  /**
   * Main result: for every 64-bit year and every month and day the source accepts, it computes
   * the calendar's day count if that is computable and overflows otherwise; a day past the end
   * of its month counts on into the next one.
   */
  lemma DaysAgree(year: i64, month: i64, day: i64)
    requires 1 <= month <= 12 && 1 <= day <= 31
    ensures var n := DayNumber(Date(year, month, day));
      DaysFromCivil(year, month, day) == if Computable(n) then Days(n) else OutOfRange
  {
    SourceCount(year, month, day);
    UnlimitedIsDayNumber(year, month, day);
  }

  /** The years all of whose days are computable. */
  const FIRST_YEAR := -25_252_734_927_764_584
  const LAST_YEAR := 25_252_734_927_766_553

  /** Every day of these years is counted; beyond the years next to them none is. */
  lemma YearsCounted(year: i64, month: i64, day: i64)
    requires 1 <= month <= 12 && 1 <= day <= 31
    ensures FIRST_YEAR <= year <= LAST_YEAR ==>
      var n := DayNumber(Date(year, month, day)); Computable(n) && DaysFromCivil(year, month, day) == Days(n)
    ensures year < FIRST_YEAR - 1 || LAST_YEAR + 1 < year ==> DaysFromCivil(year, month, day) == OutOfRange
  {
    DaysAgree(year, month, day);
    DayInYear(year, month, day);
    YearsClosed(FIRST_YEAR);
    YearsClosed(FIRST_YEAR - 1);
    YearsClosed(LAST_YEAR + 1);
    YearsClosed(LAST_YEAR + 2);
    if FIRST_YEAR < year {
      YearsGrow(FIRST_YEAR, year);
    }
    if year < LAST_YEAR + 1 {
      YearsGrow(year, LAST_YEAR + 1);
    }
    if year < FIRST_YEAR - 1 {
      YearsGrow(year, FIRST_YEAR - 1);
    }
    if LAST_YEAR + 2 < year {
      YearsGrow(LAST_YEAR + 2, year);
    }
  }

  /** A year of seventeen nines, which a date literal can hold, is not counted. */
  lemma HugeYearOverflows()
    ensures DaysFromCivil(99_999_999_999_999_999, 1, 1) == OutOfRange
  {
    YearsCounted(99_999_999_999_999_999, 1, 1);
  }

  /** Every accepted month and day lies within the year or on the first day of the next. */
  lemma DayInYear(year: int, month: int, day: int)
    requires 1 <= month <= 12 && 1 <= day <= 31
    ensures 0 <= DayNumber(Date(year, month, day)) - DaysBeforeYear(year) <= YearLength(year)
  {
    WholeYear(year);
    if month < 12 {
      MonthsGrow(year, month, 12);
    }
    if month > 1 {
      MonthsGrow(year, 1, month);
    }
  }

  /** Dates are rejected only when the month or the day is out of its fixed range. */
  lemma RejectedExactly(year: i64, month: i64, day: i64)
    ensures DaysFromCivil(year, month, day) == InvalidDate <==> !(1 <= month <= 12 && 1 <= day <= 31)
    ensures IsDate(Date(year, month, day)) ==> DaysFromCivil(year, month, day) != InvalidDate
  {
  }

  // ----- Consequences -----

  function Next(d: Date): Date
    requires IsDate(d)
  {
    if d.day < MonthLength(d.year, d.month) then Date(d.year, d.month, d.day + 1)
    else if d.month < 12 then Date(d.year, d.month + 1, 1)
    else Date(d.year + 1, 1, 1)
  }

  lemma WholeYear(year: int)
    ensures DaysBeforeMonth(year, 12) + 31 == YearLength(year)
  {
    MonthFormula(year, 12);
  }

  lemma YearStep(year: int)
    ensures DaysBeforeYear(year + 1) == DaysBeforeYear(year) + YearLength(year)
  {
    YearsClosed(year);
    YearsClosed(year + 1);
    ClosedFormStep(year);
  }

  /** Successive dates differ by one day. */
  lemma NextDay(d: Date)
    requires IsDate(d)
    ensures IsDate(Next(d)) && DayNumber(Next(d)) == DayNumber(d) + 1
  {
    WholeYear(d.year);
    YearStep(d.year);
  }

  predicate Before(a: Date, b: Date)
  {
    a.year < b.year || (a.year == b.year && (a.month < b.month || (a.month == b.month && a.day < b.day)))
  }

  lemma {:induction false} MonthsGrow(year: int, a: int, b: int)
    requires 1 <= a < b <= 12
    ensures DaysBeforeMonth(year, a) + MonthLength(year, a) <= DaysBeforeMonth(year, b)
    decreases b
  {
    if a < b - 1 {
      MonthsGrow(year, a, b - 1);
    }
  }

  lemma {:induction false} YearsGrow(a: int, b: int)
    requires a < b
    ensures DaysBeforeYear(a) + YearLength(a) <= DaysBeforeYear(b)
    decreases b - a
  {
    YearStep(b - 1);
    if a < b - 1 {
      YearsGrow(a, b - 1);
    }
  }

  lemma WithinYear(d: Date)
    requires IsDate(d)
    ensures 0 <= DayNumber(d) - DaysBeforeYear(d.year) < YearLength(d.year)
  {
    WholeYear(d.year);
    if d.month < 12 {
      MonthsGrow(d.year, d.month, 12);
    }
    if d.month > 1 {
      MonthsGrow(d.year, 1, d.month);
    }
  }

  /** The day count orders dates as the calendar does; hence it is injective on dates. */
  lemma DayNumberOrder(a: Date, b: Date)
    requires IsDate(a) && IsDate(b)
    ensures DayNumber(a) < DayNumber(b) <==> Before(a, b)
    ensures DayNumber(a) == DayNumber(b) <==> a == b
  {
    if Before(a, b) {
      DayNumberIncreases(a, b);
    } else if Before(b, a) {
      DayNumberIncreases(b, a);
    } else {
      assert a == b;
    }
  }

  lemma DayNumberIncreases(a: Date, b: Date)
    requires IsDate(a) && IsDate(b) && Before(a, b)
    ensures DayNumber(a) < DayNumber(b)
  {
    if a.year < b.year {
      WithinYear(a);
      WithinYear(b);
      YearsGrow(a.year, b.year);
    } else if a.month < b.month {
      MonthsGrow(a.year, a.month, b.month);
    }
  }

  function Previous(d: Date): Date
    requires IsDate(d)
  {
    if d.day > 1 then Date(d.year, d.month, d.day - 1)
    else if d.month > 1 then Date(d.year, d.month - 1, MonthLength(d.year, d.month - 1))
    else Date(d.year - 1, 12, 31)
  }

  lemma PreviousDay(d: Date)
    requires IsDate(d)
    ensures IsDate(Previous(d)) && DayNumber(Previous(d)) == DayNumber(d) - 1
  {
    WholeYear(d.year - 1);
    YearStep(d.year - 1);
  }

  /** Every number is that of a date: the count is a bijection between dates and integers. */
  lemma {:induction false} DayNumberOnto(n: int) returns (d: Date)
    ensures IsDate(d) && DayNumber(d) == n
    decreases if n >= 0 then n else -n
  {
    if n == 0 {
      d := Date(1970, 1, 1);
    } else if n > 0 {
      d := DayNumberOnto(n - 1);
      NextDay(d);
      d := Next(d);
    } else {
      d := DayNumberOnto(n + 1);
      PreviousDay(d);
      d := Previous(d);
    }
  }

  /** The source computes every computable number, from exactly one date. */
  lemma CountedOnto(n: int) returns (d: Date)
    requires Computable(n)
    ensures IsDate(d) && Fits(d.year) && DaysFromCivil(d.year, d.month, d.day) == Days(n)
    ensures forall e: Date :: IsDate(e) && Fits(e.year) && DaysFromCivil(e.year, e.month, e.day) == Days(n) ==> e == d
  {
    d := DayNumberOnto(n);
    UnlimitedIsDayNumber(d.year, d.month, d.day);
    UnlimitedBounds(d.year, d.month, d.day);
    DaysAgree(d.year, d.month, d.day);
    forall e: Date | IsDate(e) && Fits(e.year) && DaysFromCivil(e.year, e.month, e.day) == Days(n) ensures e == d {
      DaysAgree(e.year, e.month, e.day);
      DayNumberOrder(e, d);
    }
  }
}
