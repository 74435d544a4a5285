// Civil dates as 32-bit day counts: the era arithmetic against a calendar counted by months and years.
module CivilDate {
  import opened Prelude

  const I32_MIN: int := -0x8000_0000
  const I32_MAX: int := 0x7FFF_FFFF
  const EPOCH_SHIFT: int := 719_468
  const DAYS_PER_ERA: int := 146_097

  type I32 = x: int | I32_MIN <= x <= I32_MAX witness 0
  type U8 = x: int | 0 <= x < 256 witness 0

  // Saturating 32-bit results
  function Clamp(x: int): (r: I32)
    ensures I32_MIN <= x <= I32_MAX ==> r == x
  {
    if x < I32_MIN then I32_MIN else if x > I32_MAX then I32_MAX else x
  }

  predicate IsLeapYear(year: int) {
    year % 4 == 0 && (year % 100 != 0 || year % 400 == 0)
  }

  function DaysInMonth(year: int, month: int): (days: nat)
    ensures days <= 31
    ensures 1 <= month <= 12 <==> days > 0
  {
    if month in {1, 3, 5, 7, 8, 10, 12} then 31
    else if month in {4, 6, 9, 11} then 30
    else if month == 2 then (if IsLeapYear(year) then 29 else 28)
    else 0
  }

  function ShiftedYear(year: I32, month: U8): I32 { if month <= 2 then Clamp(year - 1) else year }

  // The day of the year that starts in March, from 0
  function DayOfShiftedYear(month: U8, day: U8): I32 {
    var shiftedMonth := if month > 2 then month - 3 else month + 9;
    Clamp(Clamp(Clamp(153 * shiftedMonth + 2) / 5 + day) - 1)
  }

  function DayOfEra(yearOfEra: I32, dayOfYear: I32): I32 {
    Clamp(Clamp(Clamp(Clamp(yearOfEra * 365) + yearOfEra / 4) - yearOfEra / 100) + dayOfYear)
  }

  datatype Date = Date(year: I32, month: U8, day: U8) {
    predicate Exists() {
      1 <= month <= 12 && 1 <= day <= DaysInMonth(year, month)
    }

    function DaysSinceEpoch(): I32 {
      var y := ShiftedYear(year, month);
      var era := y / 400;
      var yearOfEra := Clamp(y - Clamp(era * 400));
      var dayOfEra := DayOfEra(yearOfEra, DayOfShiftedYear(month, day));
      Clamp(Clamp(Clamp(era * DAYS_PER_ERA) + dayOfEra) - EPOCH_SHIFT)
    }
  }

  function New(year: I32, month: U8, day: U8): Option<Date> {
    if month < 1 || month > 12 || day < 1 then None
    else if day > DaysInMonth(year, month) then None
    else Some(Date(year, month, day))
  }

  // The constructor takes exactly the dates that exist, as they are.
  lemma NewIsExists(year: I32, month: U8, day: U8)
    ensures var february := if year % 4 == 0 && (year % 100 != 0 || year % 400 == 0) then 29 else 28;
      var length := if month == 2 then february else if month in {4, 6, 9, 11} then 30 else 31;
      New(year, month, day)
        == if 1 <= month <= 12 && 1 <= day <= length then Some(Date(year, month, day)) else None
    ensures Date(year, month, day).Exists() <==> New(year, month, day).Some?
  {}

  function Narrow(x: int): U8 { if 0 <= x < 256 then x else 0 }

  // The year of an era a day lies in, years starting in March
  function YearOfEra(dayOfEra: I32): I32 {
    Clamp(Clamp(Clamp(dayOfEra - dayOfEra / 1460) + dayOfEra / 36524) - dayOfEra / (DAYS_PER_ERA - 1)) / 365
  }

  function DayOfYearOfEra(dayOfEra: I32, yearOfEra: I32): I32 {
    Clamp(dayOfEra - Clamp(Clamp(Clamp(yearOfEra * 365) + yearOfEra / 4) - yearOfEra / 100))
  }

  function DateInYear(year: I32, dayOfYear: I32): Date {
    var shiftedMonth := Clamp(Clamp(dayOfYear * 5) + 2) / 153;
    var day := Clamp(Clamp(dayOfYear - Clamp(Clamp(153 * shiftedMonth) + 2) / 5) + 1);
    var month := if shiftedMonth < 10 then Clamp(shiftedMonth + 3) else Clamp(shiftedMonth - 9);
    Date(if month <= 2 then Clamp(year + 1) else year, Narrow(month), Narrow(day))
  }

  function DateInEra(era: I32, dayOfEra: I32): Date {
    var yearOfEra := YearOfEra(dayOfEra);
    DateInYear(Clamp(yearOfEra + Clamp(era * 400)), DayOfYearOfEra(dayOfEra, yearOfEra))
  }

  // From a day count that starts on 0000-03-01
  function FromShifted(shifted: I32): Date {
    var era := shifted / DAYS_PER_ERA;
    DateInEra(era, Clamp(shifted - Clamp(era * DAYS_PER_ERA)))
  }

  function FromDaysSinceEpoch(days: I32): Date {
    FromShifted(Clamp(days + EPOCH_SHIFT))
  }

  // ---- the calendar, counted month by month and year by year

  function YearLength(year: int): int { if IsLeapYear(year) then 366 else 365 }

  // Days from 1970-01-01 to 1 January of a year
  function YearStart(year: int): int
    decreases if year >= 1970 then year - 1970 else 1970 - year
  {
    if year == 1970 then 0
    else if year > 1970 then YearStart(year - 1) + YearLength(year - 1)
    else YearStart(year + 1) - YearLength(year)
  }

  // Days of a year that lie before a month
  function MonthStart(year: int, month: int): nat
    requires 1 <= month <= 13
  {
    if month == 1 then 0 else MonthStart(year, month - 1) + DaysInMonth(year, month - 1)
  }

  function CivilDays(year: int, month: int, day: int): int
    requires 1 <= month <= 12
  {
    YearStart(year) + MonthStart(year, month) + day - 1
  }

  function LeapsBefore(year: int): int {
    (year - 1) / 4 - (year - 1) / 100 + (year - 1) / 400
  }

  lemma LeapStep(year: int)
    ensures LeapsBefore(year + 1) == LeapsBefore(year) + (if IsLeapYear(year) then 1 else 0)
  {
    QuotientStep(year, 4);
    QuotientStep(year, 100);
    QuotientStep(year, 400);
    CenturyIsFourth(year);
  }

  lemma CenturyIsFourth(year: int)
    ensures year % 400 == 0 ==> year % 100 == 0
    ensures year % 100 == 0 ==> year % 4 == 0
  {
    if year % 400 == 0 {
      Divided(year, 100, 4 * (year / 400), 0);
    }
    if year % 100 == 0 {
      Divided(year, 4, 25 * (year / 100), 0);
    }
  }

  lemma QuotientStep(x: int, k: int)
    requires k in {4, 100, 400}
    ensures x / k == (x - 1) / k + (if x % k == 0 then 1 else 0)
  {
    if k == 4 {} else if k == 100 {} else {}
  }

  lemma {:induction false} YearStartClosed(year: int)
    ensures YearStart(year) == 365 * (year - 1970) + LeapsBefore(year) - LeapsBefore(1970)
    decreases if year >= 1970 then year - 1970 else 1970 - year
  {
    if year > 1970 {
      YearStartClosed(year - 1);
      LeapStep(year - 1);
    } else if year < 1970 {
      YearStartClosed(year + 1);
      LeapStep(year);
    }
  }

  lemma MonthTable(year: int)
    ensures MonthStart(year, 1) == 0 && MonthStart(year, 2) == 31
    ensures MonthStart(year, 3) == 59 + if IsLeapYear(year) then 1 else 0
    ensures forall k :: 3 <= k <= 13 ==> MonthStart(year, k) == MonthStart(year, 3) + (153 * (k - 3) + 2) / 5
  {
    assert MonthStart(year, 4) == MonthStart(year, 3) + 31;
    assert MonthStart(year, 5) == MonthStart(year, 4) + 30;
    assert MonthStart(year, 6) == MonthStart(year, 5) + 31;
    assert MonthStart(year, 7) == MonthStart(year, 6) + 30;
    assert MonthStart(year, 8) == MonthStart(year, 7) + 31;
    assert MonthStart(year, 9) == MonthStart(year, 8) + 31;
    assert MonthStart(year, 10) == MonthStart(year, 9) + 30;
    assert MonthStart(year, 11) == MonthStart(year, 10) + 31;
    assert MonthStart(year, 12) == MonthStart(year, 11) + 30;
    assert MonthStart(year, 13) == MonthStart(year, 12) + 31;
  }

  // ---- days from a date

  // The year that starts in March, and the place of a day in it
  function MarchYear(year: int, month: int): int { if month <= 2 then year - 1 else year }

  function MarchDay(month: int, day: int): int {
    (153 * (if month > 2 then month - 3 else month + 9) + 2) / 5 + day - 1
  }

  // Days before year y of a 400-year era, years starting in March
  function EraYearStart(y: int): int { 365 * y + y / 4 - y / 100 }

  lemma EraYears(y: int)
    ensures 365 * y + y / 4 - y / 100 + y / 400 == y / 400 * DAYS_PER_ERA + EraYearStart(y % 400)
  {
    var e, r := y / 400, y % 400;
    assert y / 4 == 100 * e + r / 4;
    assert y / 100 == 4 * e + r / 100;
  }

  lemma CivilFromMarch(year: int, month: int, day: int)
    requires 1 <= month <= 12
    ensures CivilDays(year, month, day) == MarchYear(year, month) / 400 * DAYS_PER_ERA
      + EraYearStart(MarchYear(year, month) % 400) + MarchDay(month, day) - EPOCH_SHIFT
  {
    YearStartClosed(year);
    MonthTable(year);
    LeapStep(year);
    EraYears(MarchYear(year, month));
    assert LeapsBefore(1970) == 477;
  }

  // What the 32-bit steps leave of a day count
  function Held(days: int): I32 {
    if days > I32_MAX - EPOCH_SHIFT then I32_MAX - EPOCH_SHIFT else if days < I32_MIN then I32_MIN else days
  }

  lemma OuterSteps(eraDays: int, dayOfEra: int)
    requires 0 <= dayOfEra < EPOCH_SHIFT
    ensures Clamp(Clamp(Clamp(eraDays) + dayOfEra) - EPOCH_SHIFT) == Held(eraDays + dayOfEra - EPOCH_SHIFT)
  {}

  lemma InnerSteps(yearOfEra: int, month: int, day: int)
    requires 0 <= yearOfEra < 400 && 1 <= month <= 12 && 1 <= day <= 31
    ensures DayOfShiftedYear(month, day) == MarchDay(month, day)
    ensures DayOfEra(yearOfEra, MarchDay(month, day)) == EraYearStart(yearOfEra) + MarchDay(month, day)
    ensures 0 <= EraYearStart(yearOfEra) + MarchDay(month, day) < EPOCH_SHIFT
  {}

  lemma EraOfYear(y: I32)
    ensures 0 <= Clamp(y - Clamp(y / 400 * 400)) < 400
    ensures y / 400 >= -5_368_709 ==> Clamp(y - Clamp(y / 400 * 400)) == y % 400
  {}

  // As computed, in terms of the shifted year
  lemma DaysFromShiftedYear(d: Date, y: I32, yearOfEra: I32)
    requires d.Exists() && y == ShiftedYear(d.year, d.month) && yearOfEra == Clamp(y - Clamp(y / 400 * 400))
    ensures d.DaysSinceEpoch()
         == Held(y / 400 * DAYS_PER_ERA + EraYearStart(yearOfEra) + MarchDay(d.month, d.day) - EPOCH_SHIFT)
  {
    hide Clamp, EraYearStart, MarchDay, DayOfEra, DayOfShiftedYear, Held;
    EraOfYear(y);
    InnerSteps(yearOfEra, d.month, d.day);
    OuterSteps(y / 400 * DAYS_PER_ERA, EraYearStart(yearOfEra) + MarchDay(d.month, d.day));
  }

  // The algorithm is the calendar count, held between the ends of what its 32-bit steps can carry.
  lemma DaysSinceEpochIsCivil(d: Date)
    requires d.Exists()
    ensures d.DaysSinceEpoch() == Held(CivilDays(d.year, d.month, d.day))
  {
    hide DaysInMonth, CivilDays, MarchDay, DayOfEra, DayOfShiftedYear;
    var y := ShiftedYear(d.year, d.month);
    var yearOfEra := Clamp(y - Clamp(y / 400 * 400));
    var marchYear := MarchYear(d.year, d.month);
    CivilFromMarch(d.year, d.month, d.day);
    DaysFromShiftedYear(d, y, yearOfEra);
    EraOfYear(y);
    InnerSteps(yearOfEra, d.month, d.day);
    InnerSteps(marchYear % 400, d.month, d.day);
    if y / 400 < -5_368_709 {
      assert marchYear / 400 <= y / 400;
    } else {
      assert marchYear == y;
    }
  }

  // ---- a date from days

  function PlainYear(doe: int): int { (doe - doe / 1460 + doe / 36524 - doe / 146_096) / 365 }

  lemma YearUnclamped(doe: int)
    requires 0 <= doe < DAYS_PER_ERA
    ensures YearOfEra(doe) == PlainYear(doe)
  {}

  // A day of the century b of an era: q is its quotient by 1460 and y the year found, whose leap years are y4 in all
  lemma CenturyLinear(doe: int, b: int, q: int, y: int, y4: int)
    requires 0 <= b <= 3 && 36524 * b <= doe < 36524 * (b + 1) && 1460 * q <= doe < 1460 * (q + 1)
    requires 365 * y <= doe - q + b < 365 * (y + 1) && 4 * y4 <= y < 4 * (y4 + 1)
    ensures 100 * b <= y <= 100 * b + 99
    ensures 0 <= doe - (365 * y + y4 - b) <= 365
    ensures doe - (365 * y + y4 - b) == 365 ==> y == 4 * y4 + 3 && y != 100 * b + 99
  {
    assert q >= 25 * b;
    assert y4 <= q <= y4 + 1;
  }

  // On all but the last day of an era
  lemma YearInCentury(doe: int)
    requires 0 <= doe < 146_096
    ensures var y := PlainYear(doe); 0 <= y < 400 && 0 <= doe - EraYearStart(y) <= 365
    ensures doe - EraYearStart(PlainYear(doe)) == 365 ==> PlainYear(doe) % 4 == 3 && PlainYear(doe) % 100 != 99
  {
    var b, q, y := doe / 36524, doe / 1460, PlainYear(doe);
    CenturyLinear(doe, b, q, y, y / 4);
    assert y / 100 == b;
  }

  lemma LeapNext(y: int)
    requires y % 4 == 3 && y % 100 != 99
    ensures IsLeapYear(y + 1)
  {
    Divided(y + 1, 4, y / 4 + 1, 0);
    if (y + 1) % 100 == 0 {
      Divided(y, 100, (y + 1) / 100 - 1, 99);
    }
  }

  lemma LastDayOfEra()
    ensures PlainYear(146_096) == 399 && EraYearStart(399) == 145_731
  {}

  // The day lies in the year found; only a leap day is the 366th.
  lemma YearFound(doe: int)
    requires 0 <= doe < DAYS_PER_ERA
    ensures 0 <= YearOfEra(doe) < 400
    ensures 0 <= doe - EraYearStart(YearOfEra(doe)) <= 365
    ensures doe - EraYearStart(YearOfEra(doe)) == 365 ==> IsLeapYear(YearOfEra(doe) + 1)
  {
    hide PlainYear, YearOfEra, EraYearStart;
    YearUnclamped(doe);
    if doe < 146_096 {
      YearInCentury(doe);
      if doe - EraYearStart(PlainYear(doe)) == 365 {
        LeapNext(PlainYear(doe));
      }
    } else {
      LastDayOfEra();
    }
  }

  // A day of a year that starts in March, as a date
  lemma DateInYearIsCivil(year: I32, dayOfYear: I32)
    requires I32_MIN <= year < I32_MAX && 0 <= dayOfYear <= 365
    requires dayOfYear == 365 ==> IsLeapYear(year + 1)
    ensures var d := DateInYear(year, dayOfYear);
      d.Exists() && MarchYear(d.year, d.month) == year && MarchDay(d.month, d.day) == dayOfYear
  {
    var shiftedMonth := (dayOfYear * 5 + 2) / 153;
    assert 0 <= shiftedMonth <= 11;
  }

  lemma Divided(x: int, k: int, q: int, r: int)
    requires k in {4, 100, 400} && x == k * q + r && 0 <= r < k
    ensures x / k == q && x % k == r
  {
    if k == 4 {} else if k == 100 {} else {}
  }

  lemma LeapPeriod(era: int, y: int)
    ensures IsLeapYear(era * 400 + y) == IsLeapYear(y)
  {
    Divided(era * 400 + y, 4, 100 * era + y / 4, y % 4);
    Divided(era * 400 + y, 100, 4 * era + y / 100, y % 100);
    Divided(era * 400 + y, 400, era + y / 400, y % 400);
  }

  lemma ShiftedParts(shifted: I32)
    requires shifted >= I32_MIN + EPOCH_SHIFT
    ensures -14_700 <= shifted / DAYS_PER_ERA <= 14_699
    ensures FromShifted(shifted) == DateInEra(shifted / DAYS_PER_ERA, shifted % DAYS_PER_ERA)
  {
    var era := shifted / DAYS_PER_ERA;
    assert Clamp(shifted - Clamp(era * DAYS_PER_ERA)) == shifted % DAYS_PER_ERA;
  }

  lemma DayOfYearUnclamped(doe: I32, y: I32)
    requires 0 <= doe < DAYS_PER_ERA && 0 <= y < 400
    ensures DayOfYearOfEra(doe, y) == doe - EraYearStart(y)
  {}

  lemma YearUnheld(era: I32, y: I32)
    requires -14_700 <= era <= 14_699 && 0 <= y < 400
    ensures Clamp(y + Clamp(era * 400)) == era * 400 + y
    ensures I32_MIN < era * 400 + y < I32_MAX
  {}

  lemma CivilOfDayInYear(era: int, y: int, dayOfYear: I32)
    requires -14_700 <= era <= 14_699 && 0 <= y < 400 && 0 <= dayOfYear <= 365
    requires dayOfYear == 365 ==> IsLeapYear(y + 1)
    ensures DateInYear(era * 400 + y, dayOfYear).Exists()
    ensures var d := DateInYear(era * 400 + y, dayOfYear);
      CivilDays(d.year, d.month, d.day) == era * DAYS_PER_ERA + EraYearStart(y) + dayOfYear - EPOCH_SHIFT
  {
    var d := DateInYear(era * 400 + y, dayOfYear);
    LeapPeriod(era, y + 1);
    DateInYearIsCivil(era * 400 + y, dayOfYear);
    CivilFromMarch(d.year, d.month, d.day);
    Divided(era * 400 + y, 400, era, y);
  }

  lemma DateInEraIsCivil(era: I32, doe: I32)
    requires -14_700 <= era <= 14_699 && 0 <= doe < DAYS_PER_ERA
    ensures DateInEra(era, doe).Exists()
    ensures var d := DateInEra(era, doe); CivilDays(d.year, d.month, d.day) == era * DAYS_PER_ERA + doe - EPOCH_SHIFT
  {
    hide YearOfEra, DayOfYearOfEra, EraYearStart, DateInYear, CivilDays, Clamp;
    var y := YearOfEra(doe);
    YearFound(doe);
    YearUnheld(era, y);
    DayOfYearUnclamped(doe, y);
    CivilOfDayInYear(era, y, DayOfYearOfEra(doe, y));
  }

  // The day count comes back, for every day whose shift fits in 32 bits.
  lemma DateFromDays(days: I32)
    requires days <= I32_MAX - EPOCH_SHIFT
    ensures FromDaysSinceEpoch(days).Exists()
    ensures var d := FromDaysSinceEpoch(days); CivilDays(d.year, d.month, d.day) == days
  {
    hide DateInEra, CivilDays, FromShifted;
    var shifted: I32 := days + EPOCH_SHIFT;
    ShiftedParts(shifted);
    DateInEraIsCivil(shifted / DAYS_PER_ERA, shifted % DAYS_PER_ERA);
  }

  // Days survive the round trip up to the last 719,468 of them, and no further.
  lemma DaysRoundTrip(days: I32)
    ensures FromDaysSinceEpoch(days).DaysSinceEpoch() == days <==> days <= I32_MAX - EPOCH_SHIFT
    ensures var d := FromDaysSinceEpoch(days); d.Exists() && New(d.year, d.month, d.day) == Some(d)
  {
    var held: I32 := if days > I32_MAX - EPOCH_SHIFT then I32_MAX - EPOCH_SHIFT else days;
    assert Clamp(days + EPOCH_SHIFT) == Clamp(held + EPOCH_SHIFT);
    DateFromDays(held);
    DaysSinceEpochIsCivil(FromDaysSinceEpoch(held));
  }

  // ---- the calendar's order

  function NextDay(d: Date): Date {
    if d.day < DaysInMonth(d.year, d.month) then d.(day := d.day + 1)
    else if d.month < 12 then Date(d.year, d.month + 1, 1)
    else Date(Clamp(d.year + 1), 1, 1)
  }

  predicate Before(a: Date, b: Date) {
    a.year < b.year || (a.year == b.year && (a.month < b.month || (a.month == b.month && a.day < b.day)))
  }

  lemma MonthFits(year: int, month: int, day: int)
    requires 1 <= month <= 12 && 1 <= day <= DaysInMonth(year, month)
    ensures MonthStart(year, month) + day <= YearLength(year)
  {
    MonthTable(year);
  }

  lemma NextDayIsNext(d: Date)
    requires d.Exists() && d.year < I32_MAX
    ensures NextDay(d).Exists()
    ensures CivilDays(NextDay(d).year, NextDay(d).month, NextDay(d).day) == CivilDays(d.year, d.month, d.day) + 1
  {
    hide YearStart, MonthStart, YearLength;
    if d.day == DaysInMonth(d.year, d.month) {
      if d.month == 12 {
        YearStep(d.year);
        YearIsItsMonths(d.year);
        YearIsItsMonths(d.year + 1);
      } else {
        MonthStep(d.year, d.month);
      }
    }
  }

  lemma MonthStep(year: int, month: int)
    requires 1 <= month <= 12
    ensures MonthStart(year, month + 1) == MonthStart(year, month) + DaysInMonth(year, month)
  {}

  lemma YearIsItsMonths(year: int)
    ensures MonthStart(year, 1) == 0 && MonthStart(year, 12) + DaysInMonth(year, 12) == YearLength(year)
  {
    MonthTable(year);
  }

  lemma YearStep(year: int)
    ensures YearStart(year + 1) == YearStart(year) + YearLength(year)
  {}

  lemma {:induction false} YearsInOrder(a: int, b: int)
    requires a < b
    ensures YearStart(a) + YearLength(a) <= YearStart(b)
    decreases b - a
  {
    YearStep(b - 1);
    if a < b - 1 {
      YearsInOrder(a, b - 1);
    }
  }

  lemma MonthsInOrder(year: int, a: int, b: int)
    requires 1 <= a < b <= 12
    ensures MonthStart(year, a) + DaysInMonth(year, a) <= MonthStart(year, b)
  {
    if a < b - 1 { MonthsInOrder(year, a, b - 1); }
  }

  lemma CivilOrder(a: Date, b: Date)
    requires a.Exists() && b.Exists()
    ensures Before(a, b) <==> CivilDays(a.year, a.month, a.day) < CivilDays(b.year, b.month, b.day)
  {
    MonthFits(a.year, a.month, a.day);
    MonthFits(b.year, b.month, b.day);
    if a.year < b.year {
      YearsInOrder(a.year, b.year);
    } else if b.year < a.year {
      YearsInOrder(b.year, a.year);
    } else if a.month < b.month {
      MonthsInOrder(a.year, a.month, b.month);
    } else if b.month < a.month {
      MonthsInOrder(a.year, b.month, a.month);
    }
  }

  predicate InRange(d: Date)
    requires d.Exists()
  {
    I32_MIN <= CivilDays(d.year, d.month, d.day) <= I32_MAX - EPOCH_SHIFT
  }

  // So dates survive the round trip exactly when their day is in range,
  lemma DateRoundTrip(d: Date)
    requires d.Exists()
    ensures FromDaysSinceEpoch(d.DaysSinceEpoch()) == d <==> InRange(d)
  {
    hide Date.DaysSinceEpoch, FromDaysSinceEpoch, CivilDays, Date.Exists, Before;
    DaysSinceEpochIsCivil(d);
    DateFromDays(d.DaysSinceEpoch());
    var back := FromDaysSinceEpoch(d.DaysSinceEpoch());
    CivilOrder(d, back);
    CivilOrder(back, d);
    OneOrder(d, back);
  }

  lemma OneOrder(a: Date, b: Date)
    ensures a == b || Before(a, b) || Before(b, a)
  {}

  // the day numbers of two dates in range are in the order of the dates,
  lemma DaysInOrder(a: Date, b: Date)
    requires a.Exists() && b.Exists() && InRange(a) && InRange(b)
    ensures Before(a, b) <==> a.DaysSinceEpoch() < b.DaysSinceEpoch()
  {
    hide Date.DaysSinceEpoch, CivilDays, Date.Exists, Before;
    DaysSinceEpochIsCivil(a);
    DaysSinceEpochIsCivil(b);
    CivilOrder(a, b);
  }

  // and the next day's number is one more exactly when there is room for it.
  lemma NextDayCounts(d: Date)
    requires d.Exists() && d.year < I32_MAX
    ensures NextDay(d).Exists()
    ensures NextDay(d).DaysSinceEpoch() == d.DaysSinceEpoch() + 1 <==> InRange(d) && InRange(NextDay(d))
  {
    hide Date.DaysSinceEpoch, CivilDays, Date.Exists, NextDay;
    NextDayIsNext(d);
    DaysSinceEpochIsCivil(d);
    DaysSinceEpochIsCivil(NextDay(d));
  }
}
