/**
 * The calendar arithmetic of the native date adapter.  It is built on a single
 * primitive, construction with field overflow.  None of these operations
 * reads adapter state, so each is a function of its arguments.  The adapter's
 * state (configuration and locale) lives in the class of module DateAdapter.
 */
module DateAdapterService {
  import opened Wrappers
  import opened EcmaDate

  /** Creates an array of `length` values and fills it so that index i holds `valueFunction(i)`. */
  method Range<T(0)>(length: nat, valueFunction: nat -> T) returns (values: seq<T>)
    ensures |values| == length
    ensures forall i :: 0 <= i < length ==> values[i] == valueFunction(i)
  {
    var valuesArray := new T[length];
    for i := 0 to length
      invariant forall k :: 0 <= k < i ==> valuesArray[k] == valueFunction(k)
    {
      valuesArray[i] := valueFunction(i);
    }
    values := valuesArray[..];
  }

  /** `date.getFullYear()`. */
  function GetYear(date: Date): (r: Number)
    ensures r.NaN? <==> date.InvalidDate?
  {
    date.GetFullYear()
  }

  /** `date.getMonth()`: 0 is January. */
  function GetMonth(date: Date): (r: Number)
    ensures r.NaN? <==> date.InvalidDate?
    ensures r.Int? ==> 0 <= r.value < 12
  {
    date.GetMonth()
  }

  /** `date.getDate()`: 1 is the first of the month. */
  function GetDate(date: Date): (r: Number)
    ensures r.NaN? <==> date.InvalidDate?
    ensures r.Int? ==> 1 <= r.value <= 31
  {
    date.GetDate()
  }

  /** `date.getDay()`: 0 is Sunday. */
  function GetDayOfWeek(date: Date): (r: Number)
    ensures r.NaN? <==> date.InvalidDate?
    ensures r.Int? ==> 0 <= r.value < 7
  {
    date.GetDay()
  }

  /**
   * Construction with overflow.  It starts from a fresh date, calls
   * `d.setFullYear(year, month, date)`, then `d.setHours(0, 0, 0, 0)`.  The
   * fields go through MakeDay, so the month and the day may run into earlier
   * or later months and years.  A NaN field makes the date invalid.  The year
   * is taken literally: unlike `new Date(...)`, 0..99 is not mapped to 19xx.
   */
  function CreateDateWithOverflow(year: Number, month: Number, date: Number): (r: Date)
    ensures r.InvalidDate? <==> year.NaN? || month.NaN? || date.NaN?
  {
    if year.NaN? || month.NaN? || date.NaN? then InvalidDate
    else
      At(Carry(year.value, month.value, date.value))
  }

  /** Day 0 of the month after the date's month; its day of the month is that month's length. */
  function GetNumDaysInMonth(date: Date): (r: Number)
    ensures r.NaN? <==> date.InvalidDate?
  {
    GetDate(CreateDateWithOverflow(GetYear(date), GetMonth(date).Plus(Int(1)), Int(0)))
  }

  /** `createDate` passes its fields straight to construction with overflow. */
  function CreateDate(year: int, month: int, date: int): (r: Date)
    ensures r.At?
  {
    CreateDateWithOverflow(Int(year), Int(month), Int(date))
  }

  /**
   * `createDate` as its documented contract describes it: the month must be
   * 0..11 and the day must lie in that month, and otherwise there is no date.
   * Where it gives a date, that date is the one `createDate` builds.
   */
  function CreateDateChecked(year: int, month: int, date: int): (r: Option<Date>)
    ensures r.Some? <==> 0 <= month < 12 && 1 <= date && date <= DaysInMonth(year, month)
    ensures r.Some? ==> r.value.At? && r.value.fields == Civil(year, month, date)
    ensures r.Some? ==> r.value == CreateDate(year, month, date)
  {
    if 0 <= month < 12 && 1 <= date && date <= DaysInMonth(year, month) then
      CarryOfValid(Civil(year, month, date));
      Some(CreateDate(year, month, date))
    else
      None
  }

  function AddCalendarYears(date: Date, years: int): Date
  {
    AddCalendarMonths(date, years * 12)
  }

  function AddCalendarMonths(date: Date, months: int): Date
  {
    var newDate := CreateDateWithOverflow(GetYear(date), GetMonth(date).Plus(Int(months)), GetDate(date));
    // A day the target month does not have overflows into the month after it.
    // In that case, go back to the last day of the target month.  The `+ 12`
    // keeps the remainder non-negative.
    if GetMonth(newDate).Differs(GetMonth(date).Plus(Int(months)).Rem(12).Plus(Int(12)).Rem(12)) then
      CreateDateWithOverflow(GetYear(newDate), GetMonth(newDate), Int(0))
    else
      newDate
  }

  function AddCalendarDays(date: Date, days: int): Date
  {
    CreateDateWithOverflow(GetYear(date), GetMonth(date), GetDate(date).Plus(Int(days)))
  }

  /** `!isNaN(date.getTime())`. */
  predicate IsValid(date: Date)
    ensures IsValid(date) <==> date.GetTime().Int?
  {
    date.At?
  }

  // ---- reference definitions and properties ----

  function Min(a: int, b: int): (r: int)
    ensures r <= a && r <= b && (r == a || r == b)
  {
    if a <= b then a else b
  }

  /**
   * Flips `months` pages of the calendar from a date, then takes the closest
   * date in the month reached.  The month number carries into the year by
   * floor division, and the day is cut down to the length of the new month.
   */
  function MonthsLater(c: Civil, months: int): (r: Civil)
    requires IsValidCivil(c)
    ensures IsValidCivil(r)
  {
    var year := c.year + (c.month + months) / 12;
    var month := (c.month + months) % 12;
    Civil(year, month, Min(c.day, DaysInMonth(year, month)))
  }

  /** JavaScript's `((x % 12) + 12) % 12` is the non-negative remainder, which is what Dafny's `%` is. */
  lemma DoubleRemainderIsModulo(x: int)
    ensures Int(x).Rem(12).Plus(Int(12)).Rem(12) == Int(x % 12)
    ensures 0 <= x % 12 < 12
  {
    if x < 0 {
      var q, k := (-x) / 12, (-x) % 12;
      assert Int(x).Rem(12) == Int(-k);
      if k == 0 {
        RemainderOf(-q, 0);
      } else {
        RemainderOf(-q - 1, 12 - k);
      }
    }
  }

  /** The remainder of 12 * q + r, for 0 <= r < 12, is r. */
  lemma RemainderOf(q: int, r: int)
    requires 0 <= r < 12
    ensures (12 * q + r) % 12 == r
  {
  }

  /**
   * Construction with overflow lands on the day that MakeDay (section
   * 21.4.1 of ECMA-262) computes from the fields, and so does `createDate`.
   */
  lemma CreateDateWithOverflowIsMakeDay(year: int, month: int, date: int)
    ensures CreateDateWithOverflow(Int(year), Int(month), Int(date)).GetTime() == Int(MakeDay(year, month, date))
    ensures CreateDate(year, month, date).GetTime() == Int(MakeDay(year, month, date))
  {
    CarryIsMakeDay(year, month, date);
  }

  /**
   * A month outside 0..11 rolls into the year by floor division.  A month of
   * 12 or more moves into later years, a negative month into earlier ones.
   */
  lemma MonthOverflowCarriesIntoYear(year: int, month: int, date: int)
    requires 1 <= date <= DaysInMonth(year + month / 12, month % 12)
    ensures CreateDateWithOverflow(Int(year), Int(month), Int(date)).fields
         == Civil(year + month / 12, month % 12, date)
    ensures month >= 12 ==> CreateDateWithOverflow(Int(year), Int(month), Int(date)).fields.year > year
    ensures month < 0 ==> CreateDateWithOverflow(Int(year), Int(month), Int(date)).fields.year < year
  {
    NormalizeOfValid(Civil(year + month / 12, month % 12, date));
  }

  /** Day 0 of month m is the last day of month m - 1, carried into the right year. */
  lemma DayZeroIsLastDayOfPreviousMonth(year: int, month: int)
    ensures CreateDateWithOverflow(Int(year), Int(month), Int(0)).fields
         == Civil(year + (month - 1) / 12, (month - 1) % 12,
                  DaysInMonth(year + (month - 1) / 12, (month - 1) % 12))
  {
    CarryDayZero(year, month);
  }

  /** Past the end of the month, or below 1, the day count moves the date by that many days. */
  lemma DayOverflowMovesByDays(year: int, month: int, date: int)
    ensures CreateDateWithOverflow(Int(year), Int(month), Int(date)).GetTime().value
         == CreateDateWithOverflow(Int(year), Int(month), Int(1)).GetTime().value + (date - 1)
  {
    CreateDateWithOverflowIsMakeDay(year, month, date);
    CreateDateWithOverflowIsMakeDay(year, month, 1);
  }

  /** For a real calendar date, `createDate` reads back the year, month and day it was given, even a year below 100. */
  lemma CreateDateReadsBack(year: int, month: int, date: int)
    requires 0 <= month < 12 && 1 <= date <= DaysInMonth(year, month)
    ensures CreateDate(year, month, date).fields == Civil(year, month, date)
    ensures GetYear(CreateDate(year, month, date)) == Int(year)
  {
    CarryOfValid(Civil(year, month, date));
  }

  /** A date's own fields rebuild it. */
  lemma FieldsRebuildDate(date: Date)
    requires date.At?
    ensures CreateDateWithOverflow(GetYear(date), GetMonth(date), GetDate(date)) == date
  {
    CarryOfValid(date.fields);
  }

  /** `getNumDaysInMonth` is the Gregorian length of the date's month. */
  lemma NumDaysInMonthIsGregorian(date: Date)
    requires date.At?
    ensures GetNumDaysInMonth(date) == Int(DaysInMonth(date.fields.year, date.fields.month))
    ensures 28 <= GetNumDaysInMonth(date).value <= 31
    ensures date.fields.month == 1 ==>
              (GetNumDaysInMonth(date) == Int(29) <==> IsLeapYear(date.fields.year))
    ensures date.fields.month != 1 ==>
              (GetNumDaysInMonth(date) == Int(30) <==> date.fields.month in {3, 5, 8, 10})
  {
    var c := date.fields;
    DayZeroIsLastDayOfPreviousMonth(c.year, c.month + 1);
    assert (c.month + 1 - 1) / 12 == 0 && (c.month + 1 - 1) % 12 == c.month;
  }

  /** `addCalendarMonths` on a valid date, with the getters and the double remainder worked out. */
  lemma AddCalendarMonthsSteps(date: Date, months: int)
    requires date.At?
    ensures var c := date.fields;
      var newDate := CreateDateWithOverflow(Int(c.year), Int(c.month + months), Int(c.day));
      newDate.At? &&
      AddCalendarMonths(date, months)
        == if newDate.fields.month != (c.month + months) % 12
           then CreateDateWithOverflow(Int(newDate.fields.year), Int(newDate.fields.month), Int(0))
           else newDate
  {
    var c := date.fields;
    var newDate := CreateDateWithOverflow(Int(c.year), Int(c.month + months), Int(c.day));
    assert GetMonth(date).Plus(Int(months)) == Int(c.month + months);
    DoubleRemainderIsModulo(c.month + months);
    assert GetMonth(newDate) == Int(newDate.fields.month);
  }

  /** `addCalendarMonths` on a day that the target month has: plain overflow construction. */
  lemma AddMonthsWithinMonth(date: Date, months: int)
    requires date.At?
    requires var total := date.fields.month + months;
      date.fields.day <= DaysInMonth(date.fields.year + total / 12, total % 12)
    ensures AddCalendarMonths(date, months).At?
    ensures AddCalendarMonths(date, months).fields == MonthsLater(date.fields, months)
  {
    var c := date.fields;
    MonthOverflowCarriesIntoYear(c.year, c.month + months, c.day);
    AddCalendarMonthsSteps(date, months);
  }

  /**
   * A day that month `month` (carried into the year) does not have lands in
   * the month after it, and day 0 of that month is the last day of the month
   * asked for.
   */
  lemma OverflowThenDayZero(year: int, month: int, date: int)
    requires DaysInMonth(year + month / 12, month % 12) < date <= 31
    ensures var overflowed := CreateDateWithOverflow(Int(year), Int(month), Int(date)).fields;
      overflowed.month != month % 12 &&
      CreateDateWithOverflow(Int(overflowed.year), Int(overflowed.month), Int(0)).fields
        == Civil(year + month / 12, month % 12, DaysInMonth(year + month / 12, month % 12))
  {
    var target := Civil(year + month / 12, month % 12, date);
    var next := IntoNextMonth(target);
    OverflowIntoNextMonth(target);
    DayZeroIsLastDayOfPreviousMonth(next.year, next.month);
    NextThenPrevious(target.year, target.month);
  }

  /**
   * `addCalendarMonths` on a day that the target month lacks: the date
   * overflows into the next month, then goes back to day 0 of that month.
   */
  lemma AddMonthsPastMonthEnd(date: Date, months: int)
    requires date.At?
    requires var total := date.fields.month + months;
      date.fields.day > DaysInMonth(date.fields.year + total / 12, total % 12)
    ensures AddCalendarMonths(date, months).At?
    ensures AddCalendarMonths(date, months).fields == MonthsLater(date.fields, months)
  {
    var c := date.fields;
    OverflowThenDayZero(c.year, c.month + months, c.day);
    AddCalendarMonthsSteps(date, months);
  }

  /**
   * `addCalendarMonths` is exactly the reference MonthsLater, for every number
   * of months, negative ones included.
   */
  lemma AddCalendarMonthsIsMonthsLater(date: Date, months: int)
    requires date.At?
    ensures AddCalendarMonths(date, months).At?
    ensures AddCalendarMonths(date, months).fields == MonthsLater(date.fields, months)
  {
    var c := date.fields;
    var total := c.month + months;
    if c.day <= DaysInMonth(c.year + total / 12, total % 12) {
      AddMonthsWithinMonth(date, months);
    } else {
      AddMonthsPastMonthEnd(date, months);
    }
  }

  /**
   * `addCalendarYears` flips twelve pages per year.  The month stays, the year
   * moves by `years`, and the day is cut down to the target month's length.
   * So February 29 becomes February 28 in a common year.
   */
  lemma AddCalendarYearsKeepsMonth(date: Date, years: int)
    requires date.At?
    ensures AddCalendarYears(date, years) == AddCalendarMonths(date, 12 * years)
    ensures AddCalendarYears(date, years).At?
    ensures AddCalendarYears(date, years).fields
         == Civil(date.fields.year + years, date.fields.month,
                  Min(date.fields.day, DaysInMonth(date.fields.year + years, date.fields.month)))
    ensures date.fields.month == 1 && date.fields.day == 29 && !IsLeapYear(date.fields.year + years) ==>
              AddCalendarYears(date, years).fields.day == 28
  {
    var c := date.fields;
    assert years * 12 == 12 * years;
    AddCalendarMonthsIsMonthsLater(date, 12 * years);
    assert c.month + 12 * years == 12 * years + c.month;
    assert (c.month + 12 * years) / 12 == years && (c.month + 12 * years) % 12 == c.month;
  }

  /** Adding days moves the local day number by exactly that many days, and an invalid date stays invalid. */
  lemma AddCalendarDaysMoves(date: Date, days: int)
    ensures date.InvalidDate? <==> AddCalendarDays(date, days).InvalidDate?
    ensures date.At? ==> AddCalendarDays(date, days).GetTime() == Int(date.GetTime().value + days)
  {
    if date.At? {
      var c := date.fields;
      CreateDateWithOverflowIsMakeDay(c.year, c.month, c.day + days);
      assert c.month / 12 == 0 && c.month % 12 == c.month;
    }
  }

  /** Two valid dates with the same local day number are the same date. */
  lemma SameTimeSameDate(a: Date, b: Date)
    requires a.GetTime() == b.GetTime()
    ensures a == b
  {
    if a.At? {
      CivilUnique(a.fields, b.fields);
    }
  }

  /** Adding n days and then -n days gives back the date, for every date and every n. */
  lemma AddCalendarDaysRoundTrip(date: Date, days: int)
    ensures AddCalendarDays(AddCalendarDays(date, days), -days) == date
    ensures AddCalendarDays(date, 0) == date
  {
    AddCalendarDaysMoves(date, days);
    AddCalendarDaysMoves(date, 0);
    AddCalendarDaysMoves(AddCalendarDays(date, days), -days);
    SameTimeSameDate(AddCalendarDays(AddCalendarDays(date, days), -days), date);
    SameTimeSameDate(AddCalendarDays(date, 0), date);
  }

  /** On consecutive days the weekday advances by one, modulo 7. */
  lemma DayOfWeekAdvances(date: Date)
    requires date.At?
    ensures GetDayOfWeek(AddCalendarDays(date, 1)) == Int((GetDayOfWeek(date).value + 1) % 7)
  {
    AddCalendarDaysMoves(date, 1);
    WeekDayStep(DayFromCivil(date.fields));
  }

  /** Every calendar operation maps the invalid date to the invalid date. */
  lemma InvalidDateStaysInvalid(years: int, months: int, days: int)
    ensures AddCalendarYears(InvalidDate, years) == InvalidDate
    ensures AddCalendarMonths(InvalidDate, months) == InvalidDate
    ensures AddCalendarDays(InvalidDate, days) == InvalidDate
    ensures GetNumDaysInMonth(InvalidDate) == NaN
  {
  }
}
