/**
 * The adapter object: its configuration, the locale it formats with, and the
 * stream that tells subscribers the locale changed.  The stream is modelled
 * by the number of notifications it has emitted.  Names and display strings
 * come from `Intl.DateTimeFormat`.  Its constructor's acceptance of a locale
 * and options (`Acceptance`) and its `format` (`Formatter`) are parameters.
 */
module DateAdapter {
  import opened Wrappers
  import opened EcmaDate
  import opened DateAdapterService

  /** The part of the calendar configuration the adapter reads. */
  datatype CalendarConfig = CalendarConfig(firstDayOfWeek: Option<int>, locale: string)

  /** The default configuration: weeks start on Monday, locale en-US. */
  const NativeConfig := CalendarConfig(Some(1), "en-US")

  /** The naming styles of month and weekday names. */
  datatype NameStyle = Long | Short | Narrow {
    function Name(): string
    {
      match this
      case Long => "long"
      case Short => "short"
      case Narrow => "narrow"
    }
  }

  /** `new Intl.DateTimeFormat(locale, options)`: a locale and its options, option name to value. */
  datatype DateTimeFormat = DateTimeFormat(locale: string, options: map<string, string>)

  /** `dtf.format(d)` for a date whose UTC calendar fields are the given ones. */
  type Formatter = (DateTimeFormat, ValidCivil) -> string

  /**
   * Whether `new Intl.DateTimeFormat(locale, options)` accepts its arguments:
   * a well-formed language tag, and option values it knows.
   */
  type Acceptance = DateTimeFormat -> bool

  /** What the adapter's formatting can throw. */
  datatype Thrown =
    | Error(message: string)
    /** The RangeError `Intl.DateTimeFormat.prototype.format` throws on an invalid date. */
    | InvalidTimeValue
    /** The RangeError `new Intl.DateTimeFormat` throws for a locale or an option it rejects. */
    | RejectedFormat

  /** `new Intl.DateTimeFormat(locale, options)`, which throws unless it accepts its arguments. */
  function NewDateTimeFormat(accepts: Acceptance, locale: string, options: map<string, string>): (r: Result<DateTimeFormat, Thrown>)
    ensures r.Success? <==> accepts(DateTimeFormat(locale, options))
    ensures r.Success? ==> r.value.locale == locale && r.value.options == options
    ensures r.Failure? ==> r.error == RejectedFormat
  {
    var dtf := DateTimeFormat(locale, options);
    if accepts(dtf) then Success(dtf) else Failure(RejectedFormat)
  }

  const CannotFormatInvalidDate := "NativeDateAdapter: Cannot format invalid date."

  /**
   * `_format(dtf, date)`.  It copies the date's local fields into the UTC
   * fields of a fresh date, with `setUTCFullYear` so that a year below 100
   * stays as it is, and formats that date in UTC.  The string therefore
   * depends on the local fields alone.  A NaN field makes the copy invalid,
   * and `dtf.format` throws.
   */
  function FormatFields(format: Formatter, dtf: DateTimeFormat, date: Date): (r: Result<string, Thrown>)
    ensures r.Success? <==> date.At?
    ensures r.Failure? ==> r.error == InvalidTimeValue
  {
    if date.InvalidDate? then Failure(InvalidTimeValue) else Success(format(dtf, date.fields))
  }

  /**
   * The locale `init` picks from the UTC offset: "jp" when the offset is nine
   * hours either way, else "en-US".  `timezoneOffset` is in minutes with the
   * sign of `Date.prototype.getTimezoneOffset`, so UTC+9 is -540.
   */
  function InitialLocale(timezoneOffset: int): (l: string)
    ensures l == "jp" <==> timezoneOffset == -540 || timezoneOffset == 540
    ensures l != "jp" ==> l == "en-US"
  {
    if timezoneOffset == -540 || timezoneOffset == 540 then "jp" else "en-US"
  }

  /** `new Date(2017, i, 1)` is the first of month i of 2017. */
  lemma Months2017()
    ensures forall i :: 0 <= i < 12 ==> NewDate(2017, i, 1) == At(Civil(2017, i, 1))
  {
    forall i | 0 <= i < 12
      ensures NewDate(2017, i, 1) == At(Civil(2017, i, 1))
    {
      NewDateOfValid(Civil(2017, i, 1));
    }
  }

  /** `new Date(2017, 0, d)` is day d of January 2017. */
  lemma January2017()
    ensures forall d :: 1 <= d <= 31 ==> NewDate(2017, 0, d) == At(Civil(2017, 0, d))
  {
    forall d | 1 <= d <= 31
      ensures NewDate(2017, 0, d) == At(Civil(2017, 0, d))
    {
      NewDateOfValid(Civil(2017, 0, d));
    }
  }

  class NativeDateAdapter {
    const config: CalendarConfig
    /** The locale used for all dates. */
    var locale: string
    /** How many notifications the locale-change stream has emitted. */
    var localeChanges: nat

    /** Builds the adapter and lets `init` choose the locale from the host's UTC offset. */
    constructor(config: CalendarConfig, timezoneOffset: int)
      ensures this.config == config
      ensures locale == InitialLocale(timezoneOffset)
      ensures localeChanges == 1
    {
      this.config := config;
      locale := "";
      localeChanges := 0;
      new;
      Init(timezoneOffset);
    }

    /** `init`: the offset in hours is the negated minutes over 60. */
    method Init(timezoneOffset: int)
      modifies this
      ensures locale == InitialLocale(timezoneOffset)
      ensures localeChanges == old(localeChanges) + 1
    {
      var offset := timezoneOffset as real * -1.0 / 60.0;
      var magnitude := if offset < 0.0 then -offset else offset;
      if magnitude == 9.0 {
        SetLocale("jp");
        return;
      }
      SetLocale("en-US");
    }

    /** Sets the locale and emits exactly one change notification; nothing else changes. */
    method SetLocale(l: string)
      modifies this
      ensures locale == l
      ensures localeChanges == old(localeChanges) + 1
    {
      locale := l;
      localeChanges := localeChanges + 1;
    }

    /** The configured first day of the week, or Sunday (0) when none is configured. */
    function GetFirstDayOfWeek(): (r: int)
      ensures config.firstDayOfWeek.Some? ==> r == config.firstDayOfWeek.value
      ensures config.firstDayOfWeek.None? ==> r == 0
    {
      if config.firstDayOfWeek.Some? then config.firstDayOfWeek.value else 0
    }

    /**
     * Month names, January first: the month of each first of the month of
     * 2017.  A locale the formatter rejects makes the list throw.
     */
    method GetMonthNames(style: NameStyle, accepts: Acceptance, format: Formatter) returns (r: Result<seq<string>, Thrown>)
      ensures var dtf := DateTimeFormat(locale, map["month" := style.Name(), "timeZone" := "utc"]);
        && (r.Success? <==> accepts(dtf))
        && (r.Failure? ==> r.error == RejectedFormat)
        && (r.Success? ==> |r.value| == 12 && forall i :: 0 <= i < 12 ==> r.value[i] == format(dtf, Civil(2017, i, 1)))
    {
      var created := NewDateTimeFormat(accepts, locale, map["month" := style.Name(), "timeZone" := "utc"]);
      if created.Failure? {
        return Failure(created.error);
      }
      var dtf := created.value;
      var names := Range(12, i => FormatFields(format, dtf, NewDate(2017, i, 1)).value);
      Months2017();
      r := Success(names);
    }

    /** The names of the days of the month, day 1 first: the days of January 2017. */
    method GetDateNames(accepts: Acceptance, format: Formatter) returns (r: Result<seq<string>, Thrown>)
      ensures var dtf := DateTimeFormat(locale, map["day" := "numeric", "timeZone" := "utc"]);
        && (r.Success? <==> accepts(dtf))
        && (r.Failure? ==> r.error == RejectedFormat)
        && (r.Success? ==> |r.value| == 31 && forall i :: 0 <= i < 31 ==> r.value[i] == format(dtf, Civil(2017, 0, i + 1)))
    {
      var created := NewDateTimeFormat(accepts, locale, map["day" := "numeric", "timeZone" := "utc"]);
      if created.Failure? {
        return Failure(created.error);
      }
      var dtf := created.value;
      var names := Range(31, i => FormatFields(format, dtf, NewDate(2017, 0, i + 1)).value);
      January2017();
      r := Success(names);
    }

    /**
     * Weekday names: the weekdays of 1 to 7 January 2017.  That week starts on
     * a Sunday (lemma January2017StartsOnSunday), so the list does too.
     */
    method GetDayOfWeekNames(style: NameStyle, accepts: Acceptance, format: Formatter) returns (r: Result<seq<string>, Thrown>)
      ensures var dtf := DateTimeFormat(locale, map["weekday" := style.Name(), "timeZone" := "utc"]);
        && (r.Success? <==> accepts(dtf))
        && (r.Failure? ==> r.error == RejectedFormat)
        && (r.Success? ==> |r.value| == 7 && forall i :: 0 <= i < 7 ==> r.value[i] == format(dtf, Civil(2017, 0, i + 1)))
    {
      var created := NewDateTimeFormat(accepts, locale, map["weekday" := style.Name(), "timeZone" := "utc"]);
      if created.Failure? {
        return Failure(created.error);
      }
      var dtf := created.value;
      var names := Range(7, i => FormatFields(format, dtf, NewDate(2017, 0, i + 1)).value);
      January2017();
      r := Success(names);
    }

    /**
     * The numeric year of a date.  The formatter is built first, so a rejected
     * locale throws whatever the date; then formatting an invalid date throws.
     */
    function GetYearName(date: Date, accepts: Acceptance, format: Formatter): (r: Result<string, Thrown>)
      reads this
      ensures var dtf := DateTimeFormat(locale, map["year" := "numeric", "timeZone" := "utc"]);
        && (r.Success? <==> accepts(dtf) && IsValid(date))
        && (!accepts(dtf) ==> r == Failure(RejectedFormat))
        && (accepts(dtf) && !IsValid(date) ==> r == Failure(InvalidTimeValue))
        && (r.Success? ==> r.value == format(dtf, date.fields))
    {
      var created := NewDateTimeFormat(accepts, locale, map["year" := "numeric", "timeZone" := "utc"]);
      if created.Failure? then Failure(created.error)
      else FormatFields(format, created.value, date)
    }

    /**
     * Formats a date with a display format, always in UTC: a `timeZone` in
     * the display format is overridden.  An invalid date is refused with the
     * adapter's own error before any formatting; after that, a locale or an
     * option the formatter rejects throws.
     */
    function Format(date: Date, displayFormat: map<string, string>, accepts: Acceptance, format: Formatter): (r: Result<string, Thrown>)
      reads this
      ensures var dtf := DateTimeFormat(locale, displayFormat["timeZone" := "utc"]);
        && (r.Failure? <==> !IsValid(date) || !accepts(dtf))
        && (!IsValid(date) ==> r == Failure(Error(CannotFormatInvalidDate)))
        && (IsValid(date) && !accepts(dtf) ==> r == Failure(RejectedFormat))
        && (r.Success? ==> r.value == format(dtf, date.fields))
    {
      if !IsValid(date) then Failure(Error(CannotFormatInvalidDate))
      else
        var created := NewDateTimeFormat(accepts, locale, displayFormat["timeZone" := "utc"]);
        if created.Failure? then Failure(created.error)
        else FormatFields(format, created.value, date)
    }
  }

  /** The display format's own time zone never matters: the result is the same as with none. */
  lemma FormatIgnoresTimeZone(adapter: NativeDateAdapter, date: Date, displayFormat: map<string, string>,
                              timeZone: string, accepts: Acceptance, format: Formatter)
    ensures adapter.Format(date, displayFormat["timeZone" := timeZone], accepts, format)
         == adapter.Format(date, displayFormat - {"timeZone"}, accepts, format)
  {
    assert displayFormat["timeZone" := timeZone]["timeZone" := "utc"]
        == (displayFormat - {"timeZone"})["timeZone" := "utc"];
  }

  /** With the default configuration, weeks start on Monday. */
  lemma NativeConfigStartsOnMonday(adapter: NativeDateAdapter)
    requires adapter.config == NativeConfig
    ensures adapter.GetFirstDayOfWeek() == 1
  {
  }

  /** `init`'s choice of locale, with the offset in hours worked out. */
  lemma InitialLocaleIsNineHours(timezoneOffset: int)
    ensures var hours := timezoneOffset as real * -1.0 / 60.0;
      InitialLocale(timezoneOffset) == "jp" <==> hours == 9.0 || hours == -9.0
  {
  }
}
