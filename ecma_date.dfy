/**
 * Option and Result, for the values JavaScript writes as `undefined`/`null`
 * and for the errors the adapter throws.
 */
module Wrappers {
  datatype Option<+T> = None | Some(value: T)

  datatype Result<+R, +E> = Success(value: R) | Failure(error: E)
}

/**
 * The part of the ECMAScript `Date` object that the native date adapter relies
 * on (section 21.4 of ECMA-262).  A date is modelled by its local calendar
 * fields in the proleptic Gregorian calendar, at local midnight; its time
 * value is the number of that day counted from 1 January 1970 (day 0).  A
 * JavaScript number is modelled as an integer or NaN.
 */
module EcmaDate {

  /** A JavaScript number as the adapter handles it: an integer, or NaN. */
  datatype Number = Int(value: int) | NaN {

    /** `this + other`; NaN absorbs everything. */
    function Plus(other: Number): (r: Number)
      ensures r.Int? <==> Int? && other.Int?
      ensures r.Int? ==> r.value == value + other.value
    {
      if NaN? || other.NaN? then NaN else Int(value + other.value)
    }

    /**
     * `this % n`: the remainder of division truncated toward zero, which takes
     * the sign of the dividend; `x % 0` and `NaN % n` are NaN.
     */
    function Rem(n: int): (r: Number)
      ensures r.Int? <==> Int? && n != 0
      ensures r.Int? && value >= 0 ==> 0 <= r.value < Abs(n)
      ensures r.Int? && value < 0 ==> -Abs(n) < r.value <= 0
      ensures r.Int? ==> exists q: int :: value == Abs(n) * q + r.value
    {
      if NaN? || n == 0 then NaN
      else
        var m := Abs(n);
        if value >= 0 then
          assert value == m * (value / m) + value % m;
          Int(value % m)
        else
          assert -value == m * ((-value) / m) + (-value) % m;
          assert value == m * (-((-value) / m)) + -((-value) % m);
          Int(-((-value) % m))
    }

    /** `this != other`; NaN differs from every number, itself included. */
    predicate Differs(other: Number)
    {
      NaN? || other.NaN? || value != other.value
    }
  }

  function Abs(x: int): (r: int)
    ensures r >= 0 && (r == x || r == -x)
  {
    if x < 0 then -x else x
  }

  /**
   * A `Date` object: the local calendar fields of a date at local midnight,
   * or the invalid date whose time value is NaN.  Its getters read the local
   * fields (section 21.4.4 of ECMA-262); on the invalid date every one of
   * them is NaN.  The fields determine the local day number (`GetTime`), and
   * the local day number determines the fields (lemma CivilRoundTrip), so
   * nothing is lost by keeping the fields.
   */
  datatype Date = At(fields: ValidCivil) | InvalidDate {

    /** `date.getFullYear()`. */
    function GetFullYear(): (r: Number)
      ensures r.NaN? <==> InvalidDate?
    {
      if InvalidDate? then NaN else Int(fields.year)
    }

    /** `date.getMonth()`. */
    function GetMonth(): (r: Number)
      ensures r.NaN? <==> InvalidDate?
      ensures r.Int? ==> 0 <= r.value < 12
    {
      if InvalidDate? then NaN else Int(fields.month)
    }

    /** `date.getDate()`. */
    function GetDate(): (r: Number)
      ensures r.NaN? <==> InvalidDate?
      ensures r.Int? ==> 1 <= r.value <= 31
    {
      if InvalidDate? then NaN else Int(fields.day)
    }

    /** `date.getDay()`. */
    function GetDay(): (r: Number)
      ensures r.NaN? <==> InvalidDate?
      ensures r.Int? ==> 0 <= r.value < 7
    {
      if InvalidDate? then NaN else Int(WeekDay(DayFromCivil(fields)))
    }

    /**
     * `date.getTime()` as a local day number: the days from 1 January 1970 to
     * the date's local calendar date.  ECMA-262's time value counts UTC
     * milliseconds instead; the two agree on NaN, and they differ by the
     * host's UTC offset, which varies with daylight saving time.
     */
    function GetTime(): (r: Number)
      ensures r.NaN? <==> InvalidDate?
    {
      if InvalidDate? then NaN else Int(DayFromCivil(fields))
    }
  }

  /** Calendar fields with a 0-based month, as `getFullYear`, `getMonth` and `getDate` report them. */
  datatype Civil = Civil(year: int, month: int, day: int)

  /** Fields that name a real calendar date. */
  type ValidCivil = c: Civil | IsValidCivil(c) witness Civil(1970, 0, 1)

  /** InLeapYear: the Gregorian leap-year rule. */
  predicate IsLeapYear(year: int)
  {
    (year % 4 == 0 && year % 100 != 0) || year % 400 == 0
  }

  /** DaysInYear (section 21.4.1 of ECMA-262). */
  function DaysInYear(year: int): (r: int)
    ensures r == 365 || r == 366
    ensures r == 366 <==> IsLeapYear(year)
  {
    if IsLeapYear(year) then 366 else 365
  }

  /** The number of days in month `month` (0 = January) of `year`. */
  function DaysInMonth(year: int, month: int): (r: int)
    requires 0 <= month < 12
    ensures 28 <= r <= 31
    ensures month == 1 ==> (r == 29 <==> IsLeapYear(year))
  {
    if month == 1 then (if IsLeapYear(year) then 29 else 28)
    else if month == 3 || month == 5 || month == 8 || month == 10 then 30
    else 31
  }

  /** The fields are a real calendar date. */
  predicate IsValidCivil(c: Civil)
  {
    0 <= c.month < 12 && 1 <= c.day <= DaysInMonth(c.year, c.month)
  }

  /**
   * DayFromYear (section 21.4.1 of ECMA-262): the day number of 1 January of
   * `year`, counted year by year from 1970.  Lemma DayFromYearClosedForm proves
   * it equal to the standard's closed formula.
   */
  function DayFromYear(year: int): int
    decreases if year >= 1970 then year - 1970 else 1970 - year
  {
    if year == 1970 then 0
    else if year > 1970 then DayFromYear(year - 1) + DaysInYear(year - 1)
    else DayFromYear(year + 1) - DaysInYear(year)
  }

  /** The days of a year before the first of `month`, the table behind MonthFromTime. */
  function DaysBeforeMonth(year: int, month: int): int
    requires 0 <= month <= 12
    decreases month
  {
    if month == 0 then 0 else DaysBeforeMonth(year, month - 1) + DaysInMonth(year, month - 1)
  }

  /** Day number of a date whose month is in range; the day may lie outside its month. */
  function DayFromCivil(c: Civil): int
    requires 0 <= c.month < 12
  {
    DayFromYear(c.year) + DaysBeforeMonth(c.year, c.month) + c.day - 1
  }

  /**
   * MakeDay (section 21.4.1 of ECMA-262): the month carries into the year by
   * floor division and the day is added to the first of the resulting month, so
   * both may overflow or underflow freely.
   */
  function MakeDay(year: int, month: int, date: int): int
  {
    DayFromCivil(Civil(year + month / 12, month % 12, 1)) + date - 1
  }

  /** WeekDay (section 21.4.1 of ECMA-262): 1 January 1970 was a Thursday; 0 = Sunday. */
  function WeekDay(day: int): (r: int)
    ensures 0 <= r < 7
    ensures r == (day + 4) % 7
  {
    (day + 4) % 7
  }

  lemma FloorStep4(x: int)
    ensures (x + 1) / 4 - x / 4 == if (x + 1) % 4 == 0 then 1 else 0
  {
  }

  lemma FloorStep100(x: int)
    ensures (x + 1) / 100 - x / 100 == if (x + 1) % 100 == 0 then 1 else 0
  {
  }

  lemma FloorStep400(x: int)
    ensures (x + 1) / 400 - x / 400 == if (x + 1) % 400 == 0 then 1 else 0
  {
  }

  lemma ShiftedRemainders(year: int)
    ensures (year - 1968) % 4 == year % 4
    ensures (year - 1900) % 100 == year % 100
    ensures (year - 1600) % 400 == year % 400
  {
    assert year - 1968 == 4 * (year / 4 - 492) + year % 4;
    assert year - 1900 == 100 * (year / 100 - 19) + year % 100;
    assert year - 1600 == 400 * (year / 400 - 4) + year % 400;
  }

  lemma MultipleOf400(year: int)
    requires year % 400 == 0
    ensures year % 100 == 0 && year % 4 == 0
  {
    var k := year / 400;
    assert year == 100 * (4 * k);
    assert year == 4 * (100 * k);
  }

  lemma MultipleOf100(year: int)
    requires year % 100 == 0
    ensures year % 4 == 0
  {
    var k := year / 100;
    assert year == 4 * (25 * k);
  }

  /** The leap-year rule read off the three shifted remainders DayFromYear uses. */
  lemma LeapYearIndicators(year: int)
    ensures DaysInYear(year) - 365
         == (if (year - 1968) % 4 == 0 then 1 else 0)
          - (if (year - 1900) % 100 == 0 then 1 else 0)
          + (if (year - 1600) % 400 == 0 then 1 else 0)
  {
    ShiftedRemainders(year);
    if year % 400 == 0 {
      MultipleOf400(year);
    } else if year % 100 == 0 {
      MultipleOf100(year);
    }
  }

  /** One year on, DayFromYear grows by the length of the year. */
  lemma DayFromYearStep(year: int)
    ensures DayFromYear(year + 1) == DayFromYear(year) + DaysInYear(year)
  {
  }

  /** The closed formula of section 21.4.1 of ECMA-262, with floor division. */
  function DayFromYearFormula(year: int): int
  {
    365 * (year - 1970) + (year - 1969) / 4 - (year - 1901) / 100 + (year - 1601) / 400
  }

  lemma FormulaStep(year: int)
    ensures DayFromYearFormula(year + 1) == DayFromYearFormula(year) + DaysInYear(year)
  {
    FloorStep4(year - 1969);
    FloorStep100(year - 1901);
    FloorStep400(year - 1601);
    LeapYearIndicators(year);
  }

  /** Counting the years one by one gives the standard's closed formula. */
  lemma {:induction false} DayFromYearClosedForm(year: int)
    ensures DayFromYear(year) == DayFromYearFormula(year)
    decreases if year >= 1970 then year - 1970 else 1970 - year
  {
    if year > 1970 {
      DayFromYearClosedForm(year - 1);
      FormulaStep(year - 1);
      DayFromYearStep(year - 1);
    } else if year < 1970 {
      DayFromYearClosedForm(year + 1);
      FormulaStep(year);
      DayFromYearStep(year);
    }
  }

  /** Four hundred Gregorian years are exactly 146097 days. */
  lemma DayFromYearCycle(k: int)
    ensures DayFromYear(1970 + 400 * k) == 146097 * k
  {
    DayFromYearClosedForm(1970 + 400 * k);
    assert (1 + 400 * k) / 4 == 100 * k;
    assert (69 + 400 * k) / 100 == 4 * k;
    assert (369 + 400 * k) / 400 == k;
  }

  /** DayFromYear grows by at least 365 a year, so it is strictly increasing. */
  lemma {:induction false} DayFromYearMonotonic(a: int, b: int)
    requires a <= b
    ensures DayFromYear(a) + 365 * (b - a) <= DayFromYear(b)
    decreases b - a
  {
    if a < b {
      DayFromYearMonotonic(a, b - 1);
      DayFromYearStep(b - 1);
    }
  }

  lemma DaysBeforeMonthStep(year: int, month: int)
    requires 0 <= month < 12
    ensures DaysBeforeMonth(year, month + 1) == DaysBeforeMonth(year, month) + DaysInMonth(year, month)
  {
  }

  /** The twelve months make up the year, and their table is the one of MonthFromTime. */
  lemma DaysBeforeMonthTable(year: int)
    ensures DaysBeforeMonth(year, 12) == DaysInYear(year)
    ensures var leap := if IsLeapYear(year) then 1 else 0;
      DaysBeforeMonth(year, 1) == 31 && DaysBeforeMonth(year, 2) == 59 + leap &&
      DaysBeforeMonth(year, 3) == 90 + leap && DaysBeforeMonth(year, 4) == 120 + leap &&
      DaysBeforeMonth(year, 5) == 151 + leap && DaysBeforeMonth(year, 6) == 181 + leap &&
      DaysBeforeMonth(year, 7) == 212 + leap && DaysBeforeMonth(year, 8) == 243 + leap &&
      DaysBeforeMonth(year, 9) == 273 + leap && DaysBeforeMonth(year, 10) == 304 + leap &&
      DaysBeforeMonth(year, 11) == 334 + leap
  {
    assert DaysBeforeMonth(year, 1) == 31;
    assert DaysBeforeMonth(year, 2) == 31 + DaysInMonth(year, 1);
    assert DaysBeforeMonth(year, 3) == DaysBeforeMonth(year, 2) + 31;
    assert DaysBeforeMonth(year, 4) == DaysBeforeMonth(year, 3) + 30;
    assert DaysBeforeMonth(year, 5) == DaysBeforeMonth(year, 4) + 31;
    assert DaysBeforeMonth(year, 6) == DaysBeforeMonth(year, 5) + 30;
    assert DaysBeforeMonth(year, 7) == DaysBeforeMonth(year, 6) + 31;
    assert DaysBeforeMonth(year, 8) == DaysBeforeMonth(year, 7) + 31;
    assert DaysBeforeMonth(year, 9) == DaysBeforeMonth(year, 8) + 30;
    assert DaysBeforeMonth(year, 10) == DaysBeforeMonth(year, 9) + 31;
    assert DaysBeforeMonth(year, 11) == DaysBeforeMonth(year, 10) + 30;
    assert DaysBeforeMonth(year, 12) == DaysBeforeMonth(year, 11) + 31;
  }

  lemma {:induction false} DaysBeforeMonthMonotonic(year: int, a: int, b: int)
    requires 0 <= a <= b <= 12
    ensures DaysBeforeMonth(year, a) + 28 * (b - a) <= DaysBeforeMonth(year, b)
    decreases b - a
  {
    if a < b {
      DaysBeforeMonthMonotonic(year, a, b - 1);
      DaysBeforeMonthStep(year, b - 1);
    }
  }

  /**
   * Carries a day count that runs past either end of its month into the
   * neighbouring months, one month at a time, until it names a real date.
   * The day number does not change.
   */
  function Normalize(c: Civil): (r: Civil)
    requires 0 <= c.month < 12
    ensures IsValidCivil(r)
    decreases if c.day < 1 then 1 else 0, if c.day < 1 then -c.day else c.day
  {
    if c.day < 1 then
      StepBack(c);
      Normalize(IntoPreviousMonth(c))
    else if c.day > DaysInMonth(c.year, c.month) then
      StepForward(c);
      Normalize(IntoNextMonth(c))
    else
      c
  }

  /** Normalizing keeps the day number: it only rewrites which month the day is counted from. */
  lemma {:induction false} NormalizeKeepsDay(c: Civil)
    requires 0 <= c.month < 12
    ensures DayFromCivil(Normalize(c)) == DayFromCivil(c)
    decreases if c.day < 1 then 1 else 0, if c.day < 1 then -c.day else c.day
  {
    if c.day < 1 {
      StepBack(c);
      NormalizeKeepsDay(IntoPreviousMonth(c));
    } else if c.day > DaysInMonth(c.year, c.month) {
      StepForward(c);
      NormalizeKeepsDay(IntoNextMonth(c));
    }
  }

  /** A real calendar date is already normal. */
  lemma NormalizeOfValid(c: Civil)
    requires IsValidCivil(c)
    ensures Normalize(c) == c
  {
  }

  /** The same day counted from the first of the month before. */
  function IntoPreviousMonth(c: Civil): (r: Civil)
    requires 0 <= c.month < 12
  {
    var year, month := c.year + (c.month - 1) / 12, (c.month - 1) % 12;
    Civil(year, month, c.day + DaysInMonth(year, month))
  }

  /** The same day counted from the first of the month after. */
  function IntoNextMonth(c: Civil): (r: Civil)
    requires 0 <= c.month < 12
  {
    Civil(c.year + (c.month + 1) / 12, (c.month + 1) % 12, c.day - DaysInMonth(c.year, c.month))
  }

  lemma StepBack(c: Civil)
    requires 0 <= c.month < 12
    ensures 0 <= IntoPreviousMonth(c).month < 12
    ensures DayFromCivil(IntoPreviousMonth(c)) == DayFromCivil(c)
    ensures IntoPreviousMonth(c).day <= c.day + 31
    ensures IntoPreviousMonth(c).day >= c.day + 28
  {
    var year, month := c.year + (c.month - 1) / 12, (c.month - 1) % 12;
    PreviousThenNext(c.year, c.month);
    var len := DaysInMonth(year, month);
    assert DayFromCivil(Civil(year, month, 1)) + len == DayFromCivil(Civil(c.year, c.month, 1)) by {
      FirstOfNextMonth(year, month);
    }
    assert IntoPreviousMonth(c) == Civil(year, month, c.day + len);
  }

  lemma StepForward(c: Civil)
    requires 0 <= c.month < 12
    ensures 0 <= IntoNextMonth(c).month < 12
    ensures DayFromCivil(IntoNextMonth(c)) == DayFromCivil(c)
    ensures IntoNextMonth(c).day == c.day - DaysInMonth(c.year, c.month)
  {
    FirstOfNextMonth(c.year, c.month);
    assert 0 <= (c.month + 1) % 12 < 12;
  }

  /**
   * The local calendar fields of a day number.  These are YearFromTime,
   * MonthFromTime and DateFromTime (section 21.4.1 of
   * ECMA-262); lemma CivilFromDayIsYearFromTime states the standard's
   * definitions of them.
   */
  function CivilFromDay(day: int): (c: Civil)
    ensures IsValidCivil(c)
    ensures DayFromCivil(c) == day
  {
    var first := Normalize(Civil(1970, 0, day + 1));
    NormalizeKeepsDay(Civil(1970, 0, day + 1));
    assert IsValidCivil(first) && DayFromCivil(first) == day;
    CivilUniqueEverywhere();
    var c :| IsValidCivil(c) && DayFromCivil(c) == day;
    c
  }

  /** No two real calendar dates share a day number. */
  lemma CivilUniqueEverywhere()
    ensures forall a: Civil, b: Civil :: IsValidCivil(a) && IsValidCivil(b) && DayFromCivil(a) == DayFromCivil(b) ==> a == b
  {
    forall a: Civil, b: Civil | IsValidCivil(a) && IsValidCivil(b) && DayFromCivil(a) == DayFromCivil(b)
      ensures a == b
    {
      CivilUnique(a, b);
    }
  }

  /** The day number of a real calendar date lies within its year. */
  lemma DayFromCivilWithinYear(c: Civil)
    requires IsValidCivil(c)
    ensures DayFromYear(c.year) <= DayFromCivil(c) < DayFromYear(c.year + 1)
  {
    DaysBeforeMonthStep(c.year, c.month);
    DaysBeforeMonthMonotonic(c.year, c.month + 1, 12);
    DaysBeforeMonthTable(c.year);
    DayFromYearStep(c.year);
  }

  /** The year of a day number is the one whose days hold it. */
  lemma YearUnique(ya: int, yb: int, day: int)
    requires DayFromYear(ya) <= day < DayFromYear(ya + 1)
    requires DayFromYear(yb) <= day < DayFromYear(yb + 1)
    ensures ya == yb
  {
    if ya < yb {
      DayFromYearMonotonic(ya + 1, yb);
    } else if yb < ya {
      DayFromYearMonotonic(yb + 1, ya);
    }
  }

  /** The month of a day of the year is the one whose days hold it. */
  lemma MonthUnique(year: int, ma: int, mb: int, dayInYear: int)
    requires 0 <= ma < 12 && 0 <= mb < 12
    requires DaysBeforeMonth(year, ma) <= dayInYear < DaysBeforeMonth(year, ma + 1)
    requires DaysBeforeMonth(year, mb) <= dayInYear < DaysBeforeMonth(year, mb + 1)
    ensures ma == mb
  {
    if ma < mb {
      DaysBeforeMonthMonotonic(year, ma + 1, mb);
    } else if mb < ma {
      DaysBeforeMonthMonotonic(year, mb + 1, ma);
    }
  }

  /** Two real calendar dates with the same day number are the same date. */
  lemma CivilUnique(a: Civil, b: Civil)
    requires IsValidCivil(a) && IsValidCivil(b)
    requires DayFromCivil(a) == DayFromCivil(b)
    ensures a == b
  {
    DayFromCivilWithinYear(a);
    DayFromCivilWithinYear(b);
    YearUnique(a.year, b.year, DayFromCivil(a));
    DaysBeforeMonthStep(a.year, a.month);
    DaysBeforeMonthStep(a.year, b.month);
    MonthUnique(a.year, a.month, b.month, DaysBeforeMonth(a.year, a.month) + a.day - 1);
  }

  /**
   * The year of a day is the largest year whose first day is not after it,
   * which is how YearFromTime is defined.  Its month is the one whose span
   * in the month table holds the day, as MonthFromTime reads that table.
   */
  lemma CivilFromDayIsYearFromTime(day: int, y: int)
    ensures DayFromYear(CivilFromDay(day).year) <= day < DayFromYear(CivilFromDay(day).year + 1)
    ensures DayFromYear(y) <= day ==> y <= CivilFromDay(day).year
    ensures var c := CivilFromDay(day); var dayInYear := day - DayFromYear(c.year);
      DaysBeforeMonth(c.year, c.month) <= dayInYear < DaysBeforeMonth(c.year, c.month + 1)
  {
    var c := CivilFromDay(day);
    DayFromCivilWithinYear(c);
    DaysBeforeMonthStep(c.year, c.month);
    if c.year < y {
      DayFromYearMonotonic(c.year + 1, y);
    }
  }

  /** Every real calendar date comes back unchanged from its day number. */
  lemma CivilRoundTrip(c: Civil)
    requires IsValidCivil(c)
    ensures CivilFromDay(DayFromCivil(c)) == c
  {
    CivilUnique(CivilFromDay(DayFromCivil(c)), c);
  }

  /** The first of a month, plus that month's length, is the first of the next month. */
  lemma FirstOfNextMonth(year: int, month: int)
    requires 0 <= month < 12
    ensures DayFromCivil(Civil(year, month, 1)) + DaysInMonth(year, month)
         == DayFromCivil(Civil(year + (month + 1) / 12, (month + 1) % 12, 1))
  {
    DaysBeforeMonthStep(year, month);
    if month == 11 {
      DaysBeforeMonthTable(year);
      DayFromYearStep(year);
      assert (month + 1) / 12 == 1 && (month + 1) % 12 == 0;
    } else {
      assert (month + 1) / 12 == 0 && (month + 1) % 12 == month + 1;
    }
  }

  /** A day one to three past the end of its month is a real date early in the next month. */
  lemma OverflowIntoNextMonth(c: Civil)
    requires 0 <= c.month < 12
    requires DaysInMonth(c.year, c.month) < c.day <= 31
    ensures IsValidCivil(IntoNextMonth(c))
    ensures Normalize(c) == IntoNextMonth(c)
    ensures IntoNextMonth(c).month != c.month
  {
    StepForward(c);
    assert (c.month + 1) % 12 != c.month;
    NormalizeOfValid(IntoNextMonth(c));
  }

  /** From a month in 0..11, the month before and then the month after is the month itself. */
  lemma PreviousThenNext(year: int, month: int)
    requires 0 <= month < 12
    ensures var py, pm := year + (month - 1) / 12, (month - 1) % 12;
      0 <= pm < 12 && py + (pm + 1) / 12 == year && (pm + 1) % 12 == month
  {
    if month == 0 {
      assert (-1) / 12 == -1 && (-1) % 12 == 11;
      assert 12 / 12 == 1 && 12 % 12 == 0;
    } else {
      assert (month - 1) / 12 == 0 && (month - 1) % 12 == month - 1;
      assert month / 12 == 0 && month % 12 == month;
    }
  }

  /** Moving on from month p to month p + 1 carries at most one year. */
  lemma MonthCarry(p: int)
    ensures p / 12 + (p % 12 + 1) / 12 == (p + 1) / 12
    ensures (p % 12 + 1) % 12 == (p + 1) % 12
  {
    if p % 12 == 11 {
      assert p + 1 == 12 * (p / 12 + 1);
    } else {
      assert p + 1 == 12 * (p / 12) + (p % 12 + 1);
    }
  }

  /**
   * The local fields that `setFullYear(year, month, date)` leaves in a date:
   * the month carries into the year by floor division, then the day carries
   * across month ends.  Lemma CarryIsMakeDay shows that these are the fields
   * of MakeDay(year, month, date).
   */
  function Carry(year: int, month: int, date: int): (c: Civil)
    ensures IsValidCivil(c)
  {
    Normalize(Civil(year + month / 12, month % 12, date))
  }

  /** Carrying the fields lands on the day MakeDay computes. */
  lemma CarryIsMakeDay(year: int, month: int, date: int)
    ensures DayFromCivil(Carry(year, month, date)) == MakeDay(year, month, date)
  {
    NormalizeKeepsDay(Civil(year + month / 12, month % 12, date));
  }

  /** Fields that already name a real date are kept as they are. */
  lemma CarryOfValid(c: Civil)
    requires IsValidCivil(c)
    ensures Carry(c.year, c.month, c.day) == c
  {
    assert c.month / 12 == 0 && c.month % 12 == c.month;
    NormalizeOfValid(c);
  }

  /**
   * Day 0 of a month is the last day of the month before it, whatever the
   * month number: day 0 of month m is the last day of month m - 1, carried
   * into its year.
   */
  lemma CarryDayZero(year: int, month: int)
    ensures var p := month - 1;
      Carry(year, month, 0) == Civil(year + p / 12, p % 12, DaysInMonth(year + p / 12, p % 12))
  {
    var p := month - 1;
    var y, m := year + p / 12, p % 12;
    MonthCarry(p);
    NextThenPrevious(y, m);
    var before := Civil(year + month / 12, month % 12, 0);
    assert IntoPreviousMonth(before) == Civil(y, m, DaysInMonth(y, m));
    NormalizeOfValid(Civil(y, m, DaysInMonth(y, m)));
  }

  /** The day after a day is one weekday later, Saturday being followed by Sunday. */
  lemma WeekDayStep(day: int)
    ensures WeekDay(day + 1) == (WeekDay(day) + 1) % 7
  {
    var q := (day + 4) / 7;
    assert day + 4 == 7 * q + WeekDay(day);
    if WeekDay(day) == 6 {
      assert day + 5 == 7 * (q + 1);
    } else {
      assert day + 5 == 7 * q + WeekDay(day) + 1;
    }
  }

  /** From a month in 0..11, the month after and then the month before is the month itself. */
  lemma NextThenPrevious(year: int, month: int)
    requires 0 <= month < 12
    ensures var ny, nm := year + (month + 1) / 12, (month + 1) % 12;
      ny + (nm - 1) / 12 == year && (nm - 1) % 12 == month
  {
    if month == 11 {
      assert (month + 1) / 12 == 1 && (month + 1) % 12 == 0;
      assert (-1) / 12 == -1 && (-1) % 12 == 11;
    } else {
      assert (month + 1) / 12 == 0 && (month + 1) % 12 == month + 1;
      assert month / 12 == 0 && month % 12 == month;
    }
  }

  /**
   * `new Date(year, month, date)` at local midnight.  Before the fields are
   * carried, the constructor maps a year in 0..99 into the twentieth century
   * (section 21.4.2 of ECMA-262).
   */
  function NewDate(year: int, month: int, date: int): (r: Date)
    ensures r.At?
    ensures 0 <= year <= 99 ==> r.fields == Carry(1900 + year, month, date)
    ensures !(0 <= year <= 99) ==> r.fields == Carry(year, month, date)
  {
    var fullYear := if 0 <= year <= 99 then 1900 + year else year;
    At(Carry(fullYear, month, date))
  }

  /** A real calendar date outside the years 0..99 comes out of the constructor as it went in. */
  lemma NewDateOfValid(c: Civil)
    requires IsValidCivil(c) && !(0 <= c.year <= 99)
    ensures NewDate(c.year, c.month, c.day) == At(c)
  {
    CarryOfValid(c);
  }

  /**
   * The constructor's date is the day MakeDay computes from the fields, once a
   * year in 0..99 has been moved into the twentieth century.
   */
  lemma NewDateIsMakeDay(year: int, month: int, date: int)
    ensures DayFromCivil(NewDate(year, month, date).fields)
         == MakeDay(if 0 <= year <= 99 then 1900 + year else year, month, date)
  {
    CarryIsMakeDay(if 0 <= year <= 99 then 1900 + year else year, month, date);
  }
}
