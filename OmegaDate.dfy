/**
 * OmegaDate: a mutable, chainable wrapper around one java.util.Calendar.
 *
 * The wrapped Calendar is modelled by its time value (`instant`, epoch
 * milliseconds in UTC) and by the first day of week its locale gave it.
 * Every accessor reads the calendar fields that GregorianCalendar computes
 * from the instant; every mutator changes the instant and returns the
 * receiver, so that calls chain.
 */
module OmegaDates {
  import opened JavaTypes
  import opened Types
  import opened GregorianCalendar
  import opened OmegaDateSpec

  /** A Calendar.DAY_OF_WEEK code, as Calendar.getFirstDayOfWeek returns it. */
  type DayCode = c: int | 1 <= c <= 7 witness 1

  class OmegaDate {
    /** The time value of the wrapped Calendar. */
    var instant: Instant
    /** The wrapped Calendar's first day of week, fixed by the locale it was created in. */
    const firstDayOfWeek: DayCode

    /** OmegaDate(date): a new Calendar set to the time of `date`. */
    constructor (date: Instant, localeFirstDayOfWeek: DayCode)
      ensures instant == date && firstDayOfWeek == localeFirstDayOfWeek
    {
      instant := date;
      firstDayOfWeek := localeFirstDayOfWeek;
    }

    /** OmegaDate(date: OmegaDate): a new, independent Calendar with the same time. */
    constructor Copy(date: OmegaDate)
      ensures instant == date.instant && firstDayOfWeek == date.firstDayOfWeek
    {
      instant := date.instant;
      firstDayOfWeek := date.firstDayOfWeek;
    }

    /**
     * The companion's clearTime(date): a copy of `date` with the time of day
     * cleared; `date` itself is left as it was.
     */
    static method CompanionClearTime(date: OmegaDate) returns (r: OmegaDate)
      ensures fresh(r) && r.firstDayOfWeek == date.firstDayOfWeek
      ensures r.instant == StartOfDayTime(date.instant)
    {
      r := new OmegaDate.Copy(date);
      r := r.ClearTime();
    }

    // -------------------------------------------------------------------------
    // Calendar field reads

    /** All calendar fields of the wrapped Calendar. */
    function CalendarFields(): (f: Fields)
      reads this
      ensures ValidFields(f) && TimeOf(f) == instant
    {
      FieldsOf(instant)
    }

    /** The civil date of the wrapped Calendar. */
    function CalendarDate(): (d: Date)
      reads this
      ensures ValidDate(d) && EpochDayOf(d) == EpochDay(instant)
    {
      TimeOfSplit(FieldsOf(instant));
      DateOf(FieldsOf(instant))
    }

    /** getYear(): Calendar.YEAR, the year whose days contain the instant's day. */
    function GetYear(): (year: int)
      reads this
      ensures year >= MIN_YEAR
      ensures DaysBeforeYear(year) <= EpochDay(instant) < DaysBeforeYear(year + 1)
    {
      EpochDayWithinYear(CalendarDate());
      CalendarDate().year
    }

    /** getMonth(): Calendar.MONTH (0-based), the month of the year containing the instant's day. */
    function GetMonth(): (month: int)
      reads this
      ensures 0 <= month < 12
      ensures var r := EpochDay(instant) - DaysBeforeYear(GetYear());
              DaysBeforeMonth(GetYear(), month) <= r < DaysBeforeMonth(GetYear(), month + 1)
    {
      var d := CalendarDate();
      EpochDayWithinMonth(d);
      d.month
    }

    /** getDayOfMonth(): Calendar.DAY_OF_MONTH, 1 up to the month's length. */
    function GetDayOfMonth(): (day: int)
      reads this
      ensures 1 <= day <= DaysInMonth(GetYear(), GetMonth())
      ensures EpochDayOf(Date(GetYear(), GetMonth(), day)) == EpochDay(instant)
    {
      CalendarDate().day
    }

    /** getDayOfYear(): Calendar.DAY_OF_YEAR, 1 up to the year's length. */
    function GetDayOfYear(): (day: int)
      reads this
      ensures 1 <= day <= DaysInYear(GetYear())
      ensures DaysBeforeYear(GetYear()) + day - 1 == EpochDay(instant)
    {
      DayOfYear(CalendarDate())
    }

    /** getDayOfWeek(): Calendar.DAY_OF_WEEK, SUNDAY = 1 ... SATURDAY = 7. */
    function GetDayOfWeek(): (code: int)
      reads this
      ensures 1 <= code <= 7
    {
      Weekday(EpochDay(instant))
    }

    /** Calendar.getActualMaximum(DAY_OF_MONTH): the length of the current month. */
    function ActualMaximumDayOfMonth(): (n: int)
      reads this
      ensures 28 <= n <= 31
      ensures n == 29 <==> GetMonth() == 1 && IsLeapYear(GetYear())
    {
      DaysInMonth(GetYear(), GetMonth())
    }

    // -------------------------------------------------------------------------
    // Setting the whole time

    /** setDate(date: Date): the Calendar takes the time of `date`. */
    method SetInstant(date: Instant) returns (self: OmegaDate)
      modifies this
      ensures self == this && instant == date
    {
      instant := date;
      self := this;
    }

    /** setDate(date: OmegaDate): the Calendar takes the time of `date`. */
    method SetDateFrom(date: OmegaDate) returns (self: OmegaDate)
      modifies this
      ensures self == this && instant == old(date.instant)
    {
      instant := date.instant;
      self := this;
    }

    /**
     * setTime(time), as written: `CALENDAR.time` hands out a fresh Date, and
     * the time is stored into that copy, so the Calendar keeps its time.
     */
    method SetTime(time: Int64) returns (self: OmegaDate)
      ensures self == this
    {
      // The store goes into the fresh Date that CALENDAR.time returned.
      self := this;
    }

    /** setTime(time) as documented: the Calendar takes the time `time`. */
    method SetTimeIntended(time: Instant) returns (self: OmegaDate)
      modifies this
      ensures self == this && instant == time
    {
      instant := time;
      self := this;
    }

    // -------------------------------------------------------------------------
    // Setting fields

    /**
     * setDate(dayOfMonth, month, year): the three fields are set together and
     * resolved together (OmegaDateSpec.SetDateSpec, SetDateRollsForward).
     */
    method SetDate(dayOfMonth: Int32, month: Int32, year: Int32) returns (self: OmegaDate)
      requires Resolvable(FieldsOf(instant).(year := year, month := month, day := dayOfMonth))
      modifies this
      ensures self == this
      ensures instant == TimeOf(FieldsOf(old(instant)).(year := year, month := month, day := dayOfMonth))
    {
      instant := TimeOf(FieldsOf(instant).(year := year, month := month, day := dayOfMonth));
      self := this;
    }

    /**
     * setTimeOfDay(millis, sec, min, hoursOfDay): the four time fields set and
     * resolved together (OmegaDateSpec.SetTimeOfDaySpec).
     */
    method SetTimeOfDay(millis: Int32, sec: Int32, min: Int32, hoursOfDay: Int32) returns (self: OmegaDate)
      requires Resolvable(FieldsOf(instant).(hour := hoursOfDay, minute := min, second := sec, millis := millis))
      modifies this
      ensures self == this
      ensures instant == TimeOf(FieldsOf(old(instant)).(hour := hoursOfDay, minute := min, second := sec, millis := millis))
    {
      instant := TimeOf(FieldsOf(instant).(hour := hoursOfDay, minute := min, second := sec, millis := millis));
      self := this;
    }

    /** setYear(year): Calendar.set(YEAR, year). */
    method SetYear(year: Int32) returns (self: OmegaDate)
      requires Resolvable(FieldsOf(instant).(year := year))
      modifies this
      ensures self == this && instant == TimeOf(FieldsOf(old(instant)).(year := year))
    {
      instant := TimeOf(FieldsOf(instant).(year := year));
      self := this;
    }

    /** setMonth(month): Calendar.set(MONTH, month), out-of-range months carrying into the year. */
    method SetMonth(month: Int32) returns (self: OmegaDate)
      requires Resolvable(FieldsOf(instant).(month := month))
      modifies this
      ensures self == this && instant == TimeOf(FieldsOf(old(instant)).(month := month))
    {
      instant := TimeOf(FieldsOf(instant).(month := month));
      self := this;
    }

    /** setDayOfMonth(day): Calendar.set(DAY_OF_MONTH, day), out-of-range days rolling over. */
    method SetDayOfMonth(day: Int32) returns (self: OmegaDate)
      requires Resolvable(FieldsOf(instant).(day := day))
      modifies this
      ensures self == this && instant == TimeOf(FieldsOf(old(instant)).(day := day))
    {
      instant := TimeOf(FieldsOf(instant).(day := day));
      self := this;
    }

    /** setHoursOfDay(hours): Calendar.set(HOUR_OF_DAY, hours). */
    method SetHoursOfDay(hours: Int32) returns (self: OmegaDate)
      requires Resolvable(FieldsOf(instant).(hour := hours))
      modifies this
      ensures self == this && instant == TimeOf(FieldsOf(old(instant)).(hour := hours))
    {
      instant := TimeOf(FieldsOf(instant).(hour := hours));
      self := this;
    }

    /** setMin(min): Calendar.set(MINUTE, min). */
    method SetMin(min: Int32) returns (self: OmegaDate)
      requires Resolvable(FieldsOf(instant).(minute := min))
      modifies this
      ensures self == this && instant == TimeOf(FieldsOf(old(instant)).(minute := min))
    {
      instant := TimeOf(FieldsOf(instant).(minute := min));
      self := this;
    }

    /** setSeconds(sec): Calendar.set(SECOND, sec). */
    method SetSeconds(sec: Int32) returns (self: OmegaDate)
      requires Resolvable(FieldsOf(instant).(second := sec))
      modifies this
      ensures self == this && instant == TimeOf(FieldsOf(old(instant)).(second := sec))
    {
      instant := TimeOf(FieldsOf(instant).(second := sec));
      self := this;
    }

    /** setMillis(millis): Calendar.set(MILLISECOND, millis). */
    method SetMillis(millis: Int32) returns (self: OmegaDate)
      requires Resolvable(FieldsOf(instant).(millis := millis))
      modifies this
      ensures self == this && instant == TimeOf(FieldsOf(old(instant)).(millis := millis))
    {
      instant := TimeOf(FieldsOf(instant).(millis := millis));
      self := this;
    }

    /**
     * setDayOfWeek(day): Calendar.set(DAY_OF_WEEK, day), resolved within the
     * current week as firstDayOfWeek delimits it; the time of day is kept.
     */
    method SetDayOfWeek(day: Int32) returns (self: OmegaDate)
      requires Representable(SetDayOfWeekTime(instant, firstDayOfWeek, day))
      modifies this
      ensures self == this
      ensures instant == SetDayOfWeekTime(old(instant), firstDayOfWeek, day)
      ensures GetDayOfWeek() == (day - 1) % 7 + 1
      ensures WeekStartDay(EpochDay(instant), firstDayOfWeek) == WeekStartDay(EpochDay(old(instant)), firstDayOfWeek)
      ensures MillisOfDay(instant) == MillisOfDay(old(instant))
    {
      SetDayOfWeekSpec(instant, firstDayOfWeek, day);
      instant := SetDayOfWeekTime(instant, firstDayOfWeek, day);
      self := this;
    }

    // -------------------------------------------------------------------------
    // Adding to fields

    /** addMillis(millis): Calendar.add(MILLISECOND, millis). */
    method AddMillis(millis: Int32) returns (self: OmegaDate)
      requires Representable(instant + millis)
      modifies this
      ensures self == this && instant == old(instant) + millis
    {
      instant := instant + millis;
      self := this;
    }

    /** addSeconds(sec): Calendar.add(SECOND, sec). */
    method AddSeconds(sec: Int32) returns (self: OmegaDate)
      requires Representable(instant + sec * 1000)
      modifies this
      ensures self == this && instant == old(instant) + sec * 1000
    {
      instant := instant + sec * 1000;
      self := this;
    }

    /** addMin(mins): Calendar.add(MINUTE, mins). */
    method AddMin(mins: Int32) returns (self: OmegaDate)
      requires Representable(instant + mins * 60_000)
      modifies this
      ensures self == this && instant == old(instant) + mins * 60_000
    {
      instant := instant + mins * 60_000;
      self := this;
    }

    /** addHours(hours): Calendar.add(HOUR, hours), hours of 3,600,000 ms. */
    method AddHours(hours: Int32) returns (self: OmegaDate)
      requires Representable(instant + hours * 3_600_000)
      modifies this
      ensures self == this && instant == old(instant) + hours * 3_600_000
    {
      instant := instant + hours * 3_600_000;
      self := this;
    }

    /** addDays(days): Calendar.add(DAY_OF_YEAR, days), moving the date and keeping the time of day. */
    method AddDays(days: Int32) returns (self: OmegaDate)
      requires Representable(instant + days * 86_400_000)
      modifies this
      ensures self == this && instant == old(instant) + days * 86_400_000
      ensures EpochDay(instant) == EpochDay(old(instant)) + days
      ensures MillisOfDay(instant) == MillisOfDay(old(instant))
    {
      InstantFromDayAndMillis(instant);
      DayAndMillisSplit(EpochDay(instant) + days, MillisOfDay(instant));
      instant := instant + days * 86_400_000;
      self := this;
    }

    /** addWeeks(weeks): Calendar.add(WEEK_OF_YEAR, weeks): seven days each, on the same weekday. */
    method AddWeeks(weeks: Int32) returns (self: OmegaDate)
      requires Representable(instant + weeks * 604_800_000)
      modifies this
      ensures self == this && instant == old(instant) + weeks * 604_800_000
      ensures EpochDay(instant) == EpochDay(old(instant)) + 7 * weeks
      ensures GetDayOfWeek() == old(GetDayOfWeek())
      ensures MillisOfDay(instant) == MillisOfDay(old(instant))
    {
      InstantFromDayAndMillis(instant);
      DayAndMillisSplit(EpochDay(instant) + 7 * weeks, MillisOfDay(instant));
      WeekdayShift(EpochDay(instant), 7 * weeks);
      instant := instant + weeks * 604_800_000;
      self := this;
    }

    /** addMonth(months): Calendar.add(MONTH, months) (GregorianCalendar.AddMonthsSpec). */
    method AddMonth(months: Int32) returns (self: OmegaDate)
      requires Resolvable(AddMonthsFields(FieldsOf(instant), months))
      modifies this
      ensures self == this && instant == AddMonthsTime(old(instant), months)
    {
      instant := AddMonthsTime(instant, months);
      self := this;
    }

    /** addYears(years): Calendar.add(YEAR, years) (GregorianCalendar.AddYearsSpec). */
    method AddYears(years: Int32) returns (self: OmegaDate)
      requires Resolvable(AddYearsFields(FieldsOf(instant), years))
      modifies this
      ensures self == this && instant == AddYearsTime(old(instant), years)
    {
      instant := AddYearsTime(instant, years);
      self := this;
    }

    // -------------------------------------------------------------------------
    // Clearing the time and period boundaries

    /** clearTime(): the receiver moves to midnight of its own date (OmegaDateSpec.StartOfDaySpec). */
    method ClearTime() returns (self: OmegaDate)
      modifies this
      ensures self == this && instant == StartOfDayTime(old(instant))
    {
      StartOfDayIsMidnight(instant);
      FirstDayIsJanuary1583();
      instant := StartOfDayTime(instant);
      self := this;
    }

    /** getEndOfDay(): the receiver moves to 23:59:59.999 of its own date (OmegaDateSpec.EndOfDaySpec). */
    method GetEndOfDay() returns (self: OmegaDate)
      requires EndOfDayTime(instant) <= MAX_INSTANT
      modifies this
      ensures self == this && instant == EndOfDayTime(old(instant))
    {
      EndOfDayIsLastMillisecond(instant);
      instant := EndOfDayTime(instant);
      self := this;
    }

    /** getStartOfDay(): a copy at midnight of this date; the receiver is left unchanged. */
    method GetStartOfDay() returns (r: OmegaDate)
      ensures fresh(r) && r.firstDayOfWeek == firstDayOfWeek
      ensures r.instant == StartOfDayTime(instant)
    {
      r := CompanionClearTime(this);
    }

    /**
     * getStartOfWeek(): a copy at midnight of the day, 0 to 6 days back, that
     * falls on firstDayOfWeek (OmegaDateSpec.StartOfWeekSpec); the receiver
     * is left unchanged.
     */
    method GetStartOfWeek() returns (r: OmegaDate)
      requires FIRST_DAY <= WeekStartDay(EpochDay(instant), firstDayOfWeek)
      ensures fresh(r) && r.firstDayOfWeek == firstDayOfWeek
      ensures r.instant == StartOfWeekTime(instant, firstDayOfWeek)
    {
      var t := instant;
      StartOfWeekSteps(t, firstDayOfWeek);
      var date := CompanionClearTime(this);
      assert date.instant == StartOfDayTime(t);
      r := date.SetDayOfWeek(date.firstDayOfWeek);
      assert instant == t;
    }

    /**
     * getEndOfWeek(): the receiver moves to 23:59:59.999 of the sixth day
     * after the start of its week (OmegaDateSpec.EndOfWeekSpec).
     */
    method GetEndOfWeek() returns (self: OmegaDate)
      requires FIRST_DAY <= WeekStartDay(EpochDay(instant), firstDayOfWeek)
      requires EndOfWeekTime(instant, firstDayOfWeek) <= MAX_INSTANT
      modifies this
      ensures self == this && instant == EndOfWeekTime(old(instant), firstDayOfWeek)
    {
      var t := instant;
      EndOfWeekSteps(t, firstDayOfWeek);
      var date := GetEndOfDay();
      assert date.instant == EndOfDayTime(t);
      date := date.SetDayOfWeek(date.firstDayOfWeek);
      self := date.AddDays(6);
    }

    /**
     * getStartOfMonth(): a copy at day 1, 00:00:00.000, of this month
     * (OmegaDateSpec.StartOfMonthSpec); the receiver is left unchanged.
     */
    method GetStartOfMonth() returns (r: OmegaDate)
      ensures fresh(r) && r.firstDayOfWeek == firstDayOfWeek
      ensures r.instant == StartOfMonthTime(instant)
    {
      var t := instant;
      StartOfMonthSteps(t);
      var date := CompanionClearTime(this);
      assert date.instant == StartOfDayTime(t);
      r := date.SetDayOfMonth(1);
      assert instant == t;
    }

    /**
     * getEndOfMonth(): the receiver moves to the last day of its month at
     * 23:59:59.999 (OmegaDateSpec.EndOfMonthSpec).
     */
    method GetEndOfMonth() returns (self: OmegaDate)
      requires EndOfMonthTime(instant) <= MAX_INSTANT
      modifies this
      ensures self == this && instant == EndOfMonthTime(old(instant))
    {
      var t := instant;
      EndOfMonthSteps(t);
      var date := GetEndOfDay();
      assert date.instant == EndOfDayTime(t);
      var _ := date.SetDayOfMonth(date.ActualMaximumDayOfMonth());
      self := date;
    }

    /**
     * getStartOfYear(): a copy at January 1, 00:00:00.000, of this year
     * (OmegaDateSpec.StartOfYearSpec); the receiver is left unchanged.
     */
    method GetStartOfYear() returns (r: OmegaDate)
      ensures fresh(r) && r.firstDayOfWeek == firstDayOfWeek
      ensures r.instant == StartOfYearTime(instant)
    {
      var t := instant;
      StartOfYearSteps(t);
      var date := CompanionClearTime(this);
      assert date.instant == StartOfDayTime(t);
      date.instant := TimeOf(WithDayOfYear(FieldsOf(date.instant), 1));
      r := date;
      assert instant == t;
    }

    /**
     * getEndOfYear(): the receiver moves to the last day of its year (day 365
     * or 366, December 31) at 23:59:59.999 (OmegaDateSpec.EndOfYearSpec).
     */
    method GetEndOfYear() returns (self: OmegaDate)
      requires EndOfYearTime(instant) <= MAX_INSTANT
      modifies this
      ensures self == this && instant == EndOfYearTime(old(instant))
    {
      var t := instant;
      EndOfYearSteps(t);
      var date := GetEndOfDay();
      assert date.instant == EndOfDayTime(t);
      var f := FieldsOf(date.instant);
      date.instant := TimeOf(WithDayOfYear(f, DaysInYear(f.year)));
      self := date;
    }

    // -------------------------------------------------------------------------
    // Ages and ranges

    /**
     * getAges(currentDate): the year difference, less one when the current
     * day of the year comes before this one's. In two years of the same kind
     * this is the number of whole years from this date to currentDate.
     */
    function GetAges(currentDate: OmegaDate): (age: int)
      reads this, currentDate
      ensures age == currentDate.GetYear() - GetYear() || age == currentDate.GetYear() - GetYear() - 1
      ensures age == currentDate.GetYear() - GetYear() - 1 <==> currentDate.GetDayOfYear() < GetDayOfYear()
      ensures IsLeapYear(GetYear()) == IsLeapYear(currentDate.GetYear()) ==> age == GetAgesIntended(currentDate)
    {
      AgesInSameKindYears(this, currentDate);
      var age := currentDate.GetYear() - GetYear();
      if currentDate.GetDayOfYear() < GetDayOfYear() then age - 1 else age
    }

    /**
     * The age getAges evidently means: whole years from this date to
     * currentDate, one less until the (month, day) of this date comes round.
     */
    function GetAgesIntended(currentDate: OmegaDate): (age: int)
      reads this, currentDate
      ensures age == currentDate.GetYear() - GetYear() - 1 <==> MonthDayBefore(currentDate.CalendarDate(), CalendarDate())
    {
      var age := currentDate.GetYear() - GetYear();
      if MonthDayBefore(currentDate.CalendarDate(), CalendarDate()) then age - 1 else age
    }

    /** isAllowableAge(minAge, maxAge, currentDate): getAges lies in minAge..maxAge, both ends included. */
    function IsAllowableAge(minAge: Int32, maxAge: Int32, currentDate: OmegaDate): (r: bool)
      reads this, currentDate
      ensures r <==> minAge <= GetAges(currentDate) <= maxAge
      ensures r ==> minAge <= currentDate.GetYear() - GetYear() <= maxAge + 1
      ensures IsLeapYear(GetYear()) == IsLeapYear(currentDate.GetYear()) ==>
                (r <==> minAge <= GetAgesIntended(currentDate) <= maxAge)
    {
      var age := GetAges(currentDate);
      minAge <= age <= maxAge
    }

    /** isInRange(minDate, maxDate): this instant lies from minDate to maxDate, both ends included. */
    function IsInRange(minDate: OmegaDate, maxDate: OmegaDate): (r: bool)
      reads this, minDate, maxDate
      ensures r <==> minDate.instant <= instant <= maxDate.instant
    {
      !minDate.After(this) && !maxDate.Before(this)
    }

    // -------------------------------------------------------------------------
    // Weekday and month-edge checks

    /** isDayOfWeek(date, possibleDay): date falls on possibleDay. */
    function IsDayOfWeek(date: OmegaDate, possibleDay: DaysOfWeek): (r: bool)
      reads date
      ensures r <==> date.GetDayOfWeek() == possibleDay.DayOfWeek()
      ensures r <==> possibleDay == FromCode(date.GetDayOfWeek())
    {
      var dayOfWeek := match possibleDay
        case Sunday => Sunday
        case Monday => Monday
        case Tuesday => Tuesday
        case Wednesday => Wednesday
        case Thursday => Thursday
        case Friday => Friday
        case Saturday => Saturday;
      CodeRoundTrip(possibleDay, date.GetDayOfWeek());
      date.GetDayOfWeek() == dayOfWeek.DayOfWeek()
    }

    /**
     * isStartOfWeek(), as written: the Calendar code firstDayOfWeek indexes
     * the 0-based values(), so it checks for the day after firstDayOfWeek,
     * and throws when firstDayOfWeek is SATURDAY.
     */
    function IsStartOfWeek(): (r: Result<bool>)
      reads this
      ensures r.Failure? <==> firstDayOfWeek == 7
      ensures r.Failure? ==> r.error == ArrayIndexOutOfBounds(7)
      ensures r.Success? ==> (r.value <==> GetDayOfWeek() == firstDayOfWeek + 1)
    {
      match ValueAt(firstDayOfWeek)
      case Success(day) => Success(IsDayOfWeek(this, day))
      case Failure(e) => Failure(e)
    }

    /**
     * isEndOfWeek(), as written: index (firstDayOfWeek + 6) mod 7 of values()
     * is the constant whose code is firstDayOfWeek itself.
     */
    function IsEndOfWeek(): (r: bool)
      reads this
      ensures r <==> GetDayOfWeek() == firstDayOfWeek
    {
      var daysOfWeek := Values();
      var lastDayOfWeek := (firstDayOfWeek + |daysOfWeek| - 1) % |daysOfWeek|;
      IsDayOfWeek(this, daysOfWeek[lastDayOfWeek])
    }

    /** The start-of-week check as getStartOfWeek defines the week: holds on the day it returns. */
    function IsStartOfWeekIntended(): (r: bool)
      reads this
      ensures r <==> GetDayOfWeek() == firstDayOfWeek
      ensures r <==> EpochDay(instant) == WeekStartDay(EpochDay(instant), firstDayOfWeek)
    {
      IsDayOfWeek(this, Values()[firstDayOfWeek - 1])
    }

    /** The end-of-week check as getEndOfWeek defines the week: holds on the day it returns. */
    function IsEndOfWeekIntended(): (r: bool)
      reads this
      ensures r <==> GetDayOfWeek() == (firstDayOfWeek + 5) % 7 + 1
      ensures r <==> EpochDay(instant) == WeekStartDay(EpochDay(instant), firstDayOfWeek) + 6
    {
      IsDayOfWeek(this, Values()[(firstDayOfWeek + 5) % 7])
    }

    /** isStartOfMonth(): the day of the month is getActualMinimum(DAY_OF_MONTH), which is 1. */
    function IsStartOfMonth(): (r: bool)
      reads this
      ensures r <==> GetDayOfMonth() == 1
      ensures r <==> EpochDay(instant) == EpochDay(StartOfMonthTime(instant))
    {
      StartOfMonthSpec(instant);
      TimeOfSplit(FieldsOf(StartOfMonthTime(instant)));
      GetDayOfMonth() == 1
    }

    /** isEndOfMonth(): the day of the month is getActualMaximum(DAY_OF_MONTH). */
    function IsEndOfMonth(): (r: bool)
      reads this
      ensures r <==> GetDayOfMonth() == DaysInMonth(GetYear(), GetMonth())
      ensures r <==> EpochDay(instant) == EpochDay(EndOfMonthTime(instant))
    {
      EndOfMonthSpec(instant);
      TimeOfSplit(FieldsOf(EndOfMonthTime(instant)));
      GetDayOfMonth() == ActualMaximumDayOfMonth()
    }

    // -------------------------------------------------------------------------
    // Differences

    /** differenceBetweenDatesInMillis(compareDate): this time minus compareDate's, as a Long. */
    function DifferenceBetweenDatesInMillis(compareDate: OmegaDate): (d: Int64)
      reads this, compareDate
      ensures InLongRange(instant - compareDate.instant) ==> d == instant - compareDate.instant
      ensures d == 0 <==> instant == compareDate.instant
    {
      MillisDifferenceZero(instant, compareDate.instant);
      MillisDifference(instant, compareDate.instant)
    }

    /** differenceBetweenDatesInSec: the millisecond difference in whole seconds, truncated toward zero. */
    function DifferenceBetweenDatesInSec(compareDate: OmegaDate): (d: Int64)
      reads this, compareDate
      ensures var m := DifferenceBetweenDatesInMillis(compareDate);
              && (m >= 0 ==> 0 <= d && d * 1000 <= m < d * 1000 + 1000)
              && (m < 0 ==> d <= 0 && d * 1000 - 1000 < m <= d * 1000)
    {
      TruncDiv(DifferenceBetweenDatesInMillis(compareDate), 1000)
    }

    /** differenceBetweenDatesInMin: the millisecond difference in whole minutes, truncated toward zero. */
    function DifferenceBetweenDatesInMin(compareDate: OmegaDate): (d: Int64)
      reads this, compareDate
      ensures var m := DifferenceBetweenDatesInMillis(compareDate);
              && (m >= 0 ==> 0 <= d && d * 60_000 <= m < d * 60_000 + 60_000)
              && (m < 0 ==> d <= 0 && d * 60_000 - 60_000 < m <= d * 60_000)
    {
      TruncDiv(DifferenceBetweenDatesInMillis(compareDate), 60_000)
    }

    /** differenceBetweenDatesInHour: the millisecond difference in whole hours, truncated toward zero. */
    function DifferenceBetweenDatesInHour(compareDate: OmegaDate): (d: Int64)
      reads this, compareDate
      ensures var m := DifferenceBetweenDatesInMillis(compareDate);
              && (m >= 0 ==> 0 <= d && d * 3_600_000 <= m < d * 3_600_000 + 3_600_000)
              && (m < 0 ==> d <= 0 && d * 3_600_000 - 3_600_000 < m <= d * 3_600_000)
    {
      TruncDiv(DifferenceBetweenDatesInMillis(compareDate), 3_600_000)
    }

    /** differenceBetweenDatesInDays: the millisecond difference in whole days, truncated toward zero. */
    function DifferenceBetweenDatesInDays(compareDate: OmegaDate): (d: Int64)
      reads this, compareDate
      ensures var m := DifferenceBetweenDatesInMillis(compareDate);
              && (m >= 0 ==> 0 <= d && d * 86_400_000 <= m < d * 86_400_000 + 86_400_000)
              && (m < 0 ==> d <= 0 && d * 86_400_000 - 86_400_000 < m <= d * 86_400_000)
    {
      TruncDiv(DifferenceBetweenDatesInMillis(compareDate), 86_400_000)
    }

    /**
     * isYesterday(currentDate): the day difference of the two dates with
     * their times cleared is -1, which holds exactly when this date is the
     * day before currentDate's.
     */
    function IsYesterday(currentDate: OmegaDate): (r: bool)
      reads this, currentDate
      ensures r <==> EpochDay(instant) + 1 == EpochDay(currentDate.instant)
    {
      StartOfDaySpec(instant);
      StartOfDaySpec(currentDate.instant);
      var a := StartOfDayTime(instant);
      var b := StartOfDayTime(currentDate.instant);
      DayDifferenceOfMidnights(a, b);
      TruncDiv(MillisDifference(a, b), 86_400_000) == -1
    }

    // -------------------------------------------------------------------------
    // Ordering and equality

    /** compareTo(other): Calendar.compareTo, the sign of the difference of the two times. */
    function CompareTo(other: OmegaDate): (c: int)
      reads this, other
      ensures -1 <= c <= 1
      ensures c < 0 <==> instant < other.instant
      ensures c == 0 <==> instant == other.instant
      ensures c > 0 <==> instant > other.instant
    {
      if instant < other.instant then -1 else if instant == other.instant then 0 else 1
    }

    /** after(other): this time is strictly later than other's. */
    function After(other: OmegaDate): (r: bool)
      reads this, other
      ensures r <==> instant > other.instant
    {
      CompareTo(other) > 0
    }

    /** before(other): this time is strictly earlier than other's. */
    function Before(other: OmegaDate): (r: bool)
      reads this, other
      ensures r <==> instant < other.instant
    {
      CompareTo(other) < 0
    }

    /** isSameDate(other): the two times are the same instant (not merely the same day). */
    function IsSameDate(other: OmegaDate): (r: bool)
      reads this, other
      ensures r <==> instant == other.instant
    {
      CompareTo(other) == 0
    }

    /**
     * equals(other): the same object, or another OmegaDate whose Calendar
     * has the same time and the same first day of week.
     */
    function Equals(other: OmegaDate?): (r: bool)
      reads this, other
      ensures r <==> other != null && instant == other.instant && firstDayOfWeek == other.firstDayOfWeek
    {
      if this == other then true
      else if other == null then false
      else instant == other.instant && firstDayOfWeek == other.firstDayOfWeek
    }
  }

  // ---------------------------------------------------------------------------
  // Properties relating several members

  /** Exactly one of after, before and isSameDate holds, as the sign of compareTo says. */
  lemma OrderTrichotomy(a: OmegaDate, b: OmegaDate)
    ensures a.After(b) || a.Before(b) || a.IsSameDate(b)
    ensures !(a.After(b) && a.Before(b)) && !(a.After(b) && a.IsSameDate(b)) && !(a.Before(b) && a.IsSameDate(b))
    ensures a.After(b) <==> a.CompareTo(b) == 1
    ensures a.Before(b) <==> a.CompareTo(b) == -1
  {
  }

  /** compareTo is antisymmetric and transitive: a total order on instants. */
  lemma CompareToIsTotalOrder(a: OmegaDate, b: OmegaDate, c: OmegaDate)
    ensures a.CompareTo(b) == -b.CompareTo(a)
    ensures a.CompareTo(b) <= 0 && b.CompareTo(c) <= 0 ==> a.CompareTo(c) <= 0
    ensures a.Before(b) <==> b.After(a)
  {
  }

  /** equals implies isSameDate; with the same first day of week the converse holds too. */
  lemma EqualsIsSameDate(a: OmegaDate, b: OmegaDate)
    ensures a.Equals(b) ==> a.IsSameDate(b)
    ensures a.IsSameDate(b) && a.firstDayOfWeek == b.firstDayOfWeek ==> a.Equals(b)
    ensures a.Equals(a)
  {
  }

  /** Every date lies in the range from itself to itself. */
  lemma RangeIsInclusive(a: OmegaDate, min: OmegaDate, max: OmegaDate)
    ensures a.IsInRange(a, a)
    ensures a.IsInRange(min, max) ==> !min.After(max)
  {
  }

  /**
   * On the day getStartOfWeek returns, isStartOfWeek (as written) does not
   * report true, while isEndOfWeek does.
   */
  lemma WeekEdgeChecksAreOffByOne(d: OmegaDate)
    requires d.GetDayOfWeek() == d.firstDayOfWeek
    ensures d.IsStartOfWeekIntended()
    ensures d.IsStartOfWeek() != Success(true)
    ensures d.IsEndOfWeek()
  {
  }

  /**
   * Born 2000-03-01, on 2023-03-01 the day-of-year comparison reports 22
   * years, because March 1 is day 61 of the leap year 2000 but day 60 of
   * 2023; the whole-years age is 23.
   */
  lemma AgesMisfireAcrossLeapYears(birth: OmegaDate, current: OmegaDate)
    requires birth.CalendarDate() == Date(2000, 2, 1)
    requires current.CalendarDate() == Date(2023, 2, 1)
    ensures birth.GetAges(current) == 22
    ensures birth.GetAgesIntended(current) == 23
  {
    MarchFirstAcrossLeapYears();
    assert birth.GetYear() == 2000 && current.GetYear() == 2023;
    assert birth.GetDayOfYear() == 61 && current.GetDayOfYear() == 60;
  }

  /**
   * In two years of the same kind (both leap or both common), comparing days
   * of the year, as getAges does, is comparing (month, day).
   */
  lemma AgesInSameKindYears(birth: OmegaDate, current: OmegaDate)
    ensures IsLeapYear(birth.GetYear()) == IsLeapYear(current.GetYear()) ==>
              (current.GetDayOfYear() < birth.GetDayOfYear() <==> MonthDayBefore(current.CalendarDate(), birth.CalendarDate()))
  {
    if IsLeapYear(birth.GetYear()) == IsLeapYear(current.GetYear()) {
      DayOfYearOrderIsMonthDayOrder(current.CalendarDate(), birth.CalendarDate());
    }
  }

  /**
   * The getAges misfire reaches isAllowableAge: born 2000-03-01, a person is
   * 23 on 2023-03-01, yet an allowed age of exactly 23 is refused.
   */
  lemma AllowableAgeMisfiresAcrossLeapYears(birth: OmegaDate, current: OmegaDate)
    requires birth.CalendarDate() == Date(2000, 2, 1)
    requires current.CalendarDate() == Date(2023, 2, 1)
    ensures birth.GetAgesIntended(current) == 23
    ensures !birth.IsAllowableAge(23, 23, current)
  {
    AgesMisfireAcrossLeapYears(birth, current);
  }

  /** On each anniversary of this date (month and day), the intended age is the year difference. */
  lemma AgesIntendedOnAnniversary(birth: OmegaDate, current: OmegaDate)
    requires current.GetMonth() == birth.GetMonth() && current.GetDayOfMonth() == birth.GetDayOfMonth()
    ensures birth.GetAgesIntended(current) == current.GetYear() - birth.GetYear()
  {
  }

  /** The intended age is one less on the day before an anniversary in the same month. */
  lemma AgesIntendedDayBeforeAnniversary(birth: OmegaDate, current: OmegaDate)
    requires current.GetMonth() == birth.GetMonth() && current.GetDayOfMonth() + 1 == birth.GetDayOfMonth()
    ensures birth.GetAgesIntended(current) == current.GetYear() - birth.GetYear() - 1
  {
  }
}
