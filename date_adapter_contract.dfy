/**
 * The documented contract of the abstract date adapter, stated about the
 * native adapter: the ranges of the getters and the worked examples of its
 * doc comments.
 */
module DateAdapterContract {
  import opened Wrappers
  import opened EcmaDate
  import opened DateAdapterService

  /** The day of the month lies between 1 and the number of days in the month. */
  lemma GetDateWithinMonth(date: Date)
    requires IsValid(date)
    ensures 1 <= GetDate(date).value <= GetNumDaysInMonth(date).value
  {
    NumDaysInMonthIsGregorian(date);
  }

  /** Every getter of an invalid date is NaN, so is the month length. */
  lemma InvalidDateGettersAreNaN()
    ensures GetYear(InvalidDate) == NaN && GetMonth(InvalidDate) == NaN
    ensures GetDate(InvalidDate) == NaN && GetDayOfWeek(InvalidDate) == NaN
    ensures GetNumDaysInMonth(InvalidDate) == NaN
  {
  }

  /** 1 January 2017 is day 17167, and the first week of 2017 runs from Sunday (0) to Saturday (6). */
  lemma January2017StartsOnSunday(date: Date)
    requires date.At? && date.fields.year == 2017 && date.fields.month == 0 && date.fields.day <= 7
    ensures DayFromCivil(Civil(2017, 0, 1)) == 17167
    ensures GetDayOfWeek(date) == Int(date.fields.day - 1)
  {
    DayFromYearClosedForm(2017);
  }

  /** Adding one month to 31 January 2017 gives 28 February 2017, not a day in March. */
  lemma January31PlusOneMonth(date: Date)
    requires date.At? && date.fields == Civil(2017, 0, 31)
    ensures AddCalendarMonths(date, 1).At?
    ensures AddCalendarMonths(date, 1).fields == Civil(2017, 1, 28)
  {
    assert MonthsLater(Civil(2017, 0, 31), 1) == Civil(2017, 1, 28);
    AddCalendarMonthsIsMonthsLater(date, 1);
  }

  /** Adding one year to 29 February 2016 gives 28 February 2017. */
  lemma February29PlusOneYear(date: Date)
    requires date.At? && date.fields == Civil(2016, 1, 29)
    ensures AddCalendarYears(date, 1).At?
    ensures AddCalendarYears(date, 1).fields == Civil(2017, 1, 28)
  {
    AddCalendarYearsKeepsMonth(date, 1);
  }

  /** Going back a month from 31 March 2016 gives 29 February 2016, a leap day. */
  lemma March31MinusOneMonth(date: Date)
    requires date.At? && date.fields == Civil(2016, 2, 31)
    ensures AddCalendarMonths(date, -1).At?
    ensures AddCalendarMonths(date, -1).fields == Civil(2016, 1, 29)
  {
    assert MonthsLater(Civil(2016, 2, 31), -1) == Civil(2016, 1, 29);
    AddCalendarMonthsIsMonthsLater(date, -1);
  }

  /** `createDate(89, 0, 1)` is in the year 89, where `new Date(89, 0, 1)` is in 1989. */
  lemma CreateDateYearIsLiteral()
    ensures GetYear(CreateDate(89, 0, 1)) == Int(89)
    ensures NewDate(89, 0, 1).GetFullYear() == Int(1989)
  {
    CreateDateReadsBack(89, 0, 1);
    NewDateOfValid(Civil(1989, 0, 1));
  }

  /** February has 29 days in 2000 and 2024 but 28 in 1900 and 2023. */
  lemma LeapYearExamples(date: Date)
    requires date.At? && date.fields.month == 1
    ensures date.fields.year in {2000, 2024} ==> GetNumDaysInMonth(date) == Int(29)
    ensures date.fields.year in {1900, 2023} ==> GetNumDaysInMonth(date) == Int(28)
  {
    NumDaysInMonthIsGregorian(date);
  }

  /** `createDate(2017, 1, 30)` does not refuse 30 February 2017: it overflows to 2 March. */
  lemma CreateDateOverflowsDespiteContract()
    ensures CreateDate(2017, 1, 30).fields == Civil(2017, 2, 2)
  {
    OverflowIntoNextMonth(Civil(2017, 1, 30));
  }

  /** The checked form refuses 30 February 2017 and gives back every real date. */
  lemma CreateDateCheckedRefusesOverflow(year: int, month: int, date: int)
    ensures CreateDateChecked(2017, 1, 30) == None
    ensures 0 <= month < 12 && 1 <= date <= DaysInMonth(year, month) ==>
      CreateDateChecked(year, month, date) == Some(CreateDate(year, month, date))
  {
  }
}
