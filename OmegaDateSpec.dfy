/**
 * What OmegaDate's composite operations compute, stated on instants. Each
 * function follows the chain of Calendar calls the OmegaDate method makes;
 * the lemmas say what the result is in calendar terms: the date it falls on,
 * its time of day, how far it lies from the input.
 */
module OmegaDateSpec {
  import opened JavaTypes
  import opened GregorianCalendar

  // ---------------------------------------------------------------------------
  // Day boundaries

  /** clearTime(): HOUR_OF_DAY, MINUTE, SECOND and MILLISECOND set to 0, resolved together. */
  function StartOfDayTime(t: int): int
    requires MIN_INSTANT <= t
  {
    TimeOf(FieldsOf(t).(hour := 0, minute := 0, second := 0, millis := 0))
  }

  /** getEndOfDay(): the four time fields set to 23:59:59.999, resolved together. */
  function EndOfDayTime(t: int): int
    requires MIN_INSTANT <= t
  {
    TimeOf(FieldsOf(t).(hour := 23, minute := 59, second := 59, millis := 999))
  }

  /** Clearing the time fields leaves the millisecond count of the day's midnight. */
  lemma StartOfDayIsMidnight(t: int)
    requires MIN_INSTANT <= t
    ensures StartOfDayTime(t) == EpochDay(t) * 86_400_000
  {
    TimeOfSplit(FieldsOf(t));
    LenientAgreesOnValidDates(DateOf(FieldsOf(t)));
  }

  /** Setting 23:59:59.999 leaves the millisecond count of the day's last millisecond. */
  lemma EndOfDayIsLastMillisecond(t: int)
    requires MIN_INSTANT <= t
    ensures EndOfDayTime(t) == EpochDay(t) * 86_400_000 + 86_399_999
  {
    TimeOfSplit(FieldsOf(t));
    LenientAgreesOnValidDates(DateOf(FieldsOf(t)));
  }

  /** Start of day is midnight of the same date, at or before t. */
  lemma StartOfDaySpec(t: int)
    requires MIN_INSTANT <= t
    ensures var s := StartOfDayTime(t);
            && s == EpochDay(t) * 86_400_000
            && MIN_INSTANT <= s <= t < s + 86_400_000
            && FieldsOf(s) == FieldsOf(t).(hour := 0, minute := 0, second := 0, millis := 0)
  {
    var f := FieldsOf(t);
    var g := f.(hour := 0, minute := 0, second := 0, millis := 0);
    FieldsRoundTrip(g);
    TimeOfSplit(f);
    TimeOfSplit(g);
    InstantFromDayAndMillis(t);
    InstantFromDayAndMillis(TimeOf(g));
  }

  /** End of day is 23:59:59.999 of the same date, at or after t. */
  lemma EndOfDaySpec(t: int)
    requires MIN_INSTANT <= t
    ensures var e := EndOfDayTime(t);
            && e == EpochDay(t) * 86_400_000 + 86_399_999
            && t <= e < t + 86_400_000
            && FieldsOf(e) == FieldsOf(t).(hour := 23, minute := 59, second := 59, millis := 999)
  {
    var f := FieldsOf(t);
    var g := f.(hour := 23, minute := 59, second := 59, millis := 999);
    FieldsRoundTrip(g);
    TimeOfSplit(f);
    TimeOfSplit(g);
    InstantFromDayAndMillis(t);
    InstantFromDayAndMillis(TimeOf(g));
  }

  // ---------------------------------------------------------------------------
  // Week boundaries

  /** getStartOfWeek(): clearTime on a copy, then set(DAY_OF_WEEK, firstDayOfWeek). */
  function StartOfWeekTime(t: int, firstDayOfWeek: int): int
    requires MIN_INSTANT <= t
  {
    SetDayOfWeekTime(StartOfDayTime(t), firstDayOfWeek, firstDayOfWeek)
  }

  /** getEndOfWeek(): getEndOfDay, set(DAY_OF_WEEK, firstDayOfWeek), then add(DAY_OF_YEAR, 6). */
  function EndOfWeekTime(t: int, firstDayOfWeek: int): int
    requires MIN_INSTANT <= t
  {
    SetDayOfWeekTime(EndOfDayTime(t), firstDayOfWeek, firstDayOfWeek) + 6 * 86_400_000
  }

  /**
   * Start of week is midnight of the day, 0 to 6 days back, whose weekday is
   * firstDayOfWeek.
   */
  lemma StartOfWeekSpec(t: int, firstDayOfWeek: int)
    requires MIN_INSTANT <= t && 1 <= firstDayOfWeek <= 7
    ensures var s := StartOfWeekTime(t, firstDayOfWeek);
            && s == WeekStartDay(EpochDay(t), firstDayOfWeek) * 86_400_000
            && s <= t
            && MillisOfDay(s) == 0
            && Weekday(EpochDay(s)) == firstDayOfWeek
            && 0 <= EpochDay(t) - EpochDay(s) <= 6
  {
    StartOfDayIsMidnight(t);
    var n := EpochDay(t);
    var ws := WeekStartDay(n, firstDayOfWeek);
    DayAndMillisSplit(n, 0);
    assert SetDayOfWeekTime(StartOfDayTime(t), firstDayOfWeek, firstDayOfWeek) == ws * 86_400_000;
    FirstMillisecondOfWeek(t, firstDayOfWeek);
  }

  /** The week's first millisecond, midnight of the week start, in day-and-millisecond terms. */
  lemma FirstMillisecondOfWeek(t: int, firstDayOfWeek: int)
    requires 1 <= firstDayOfWeek <= 7
    ensures var ws := WeekStartDay(EpochDay(t), firstDayOfWeek);
            var s := ws * 86_400_000;
            && s <= t
            && MillisOfDay(s) == 0
            && EpochDay(s) == ws
            && Weekday(EpochDay(s)) == firstDayOfWeek
            && 0 <= EpochDay(t) - EpochDay(s) <= 6
  {
    var ws := WeekStartDay(EpochDay(t), firstDayOfWeek);
    InstantFromDayAndMillis(t);
    WeekStartSpec(EpochDay(t), firstDayOfWeek);
    DayAndMillisSplit(ws, 0);
  }

  /**
   * End of week is 23:59:59.999 of the sixth day after the start of week:
   * 0 to 6 days ahead, on the weekday before firstDayOfWeek.
   */
  lemma EndOfWeekSpec(t: int, firstDayOfWeek: int)
    requires MIN_INSTANT <= t && 1 <= firstDayOfWeek <= 7
    ensures var e := EndOfWeekTime(t, firstDayOfWeek);
            var ws := WeekStartDay(EpochDay(t), firstDayOfWeek);
            && e == (ws + 6) * 86_400_000 + 86_399_999
            && t <= e
            && MillisOfDay(e) == 86_399_999
            && EpochDay(e) == ws + 6
            && Weekday(EpochDay(e)) == (firstDayOfWeek + 5) % 7 + 1
            && 0 <= EpochDay(e) - EpochDay(t) <= 6
  {
    EndOfDayIsLastMillisecond(t);
    var n := EpochDay(t);
    var ws := WeekStartDay(n, firstDayOfWeek);
    DayAndMillisSplit(n, 86_399_999);
    assert SetDayOfWeekTime(EndOfDayTime(t), firstDayOfWeek, firstDayOfWeek) == ws * 86_400_000 + 86_399_999;
    LastMillisecondOfWeek(t, firstDayOfWeek);
  }

  /** The week's last millisecond, six days after the week start, in day-and-millisecond terms. */
  lemma LastMillisecondOfWeek(t: int, firstDayOfWeek: int)
    requires 1 <= firstDayOfWeek <= 7
    ensures var ws := WeekStartDay(EpochDay(t), firstDayOfWeek);
            var e := (ws + 6) * 86_400_000 + 86_399_999;
            && t <= e
            && MillisOfDay(e) == 86_399_999
            && EpochDay(e) == ws + 6
            && Weekday(EpochDay(e)) == (firstDayOfWeek + 5) % 7 + 1
            && 0 <= EpochDay(e) - EpochDay(t) <= 6
  {
    var ws := WeekStartDay(EpochDay(t), firstDayOfWeek);
    InstantFromDayAndMillis(t);
    WeekStartSpec(EpochDay(t), firstDayOfWeek);
    DayAndMillisSplit(ws + 6, 86_399_999);
    WeekdayShift(ws, 6);
  }

  // ---------------------------------------------------------------------------
  // Month and year boundaries

  /** getStartOfMonth(): clearTime on a copy, then set(DAY_OF_MONTH, 1). */
  function StartOfMonthTime(t: int): int
    requires MIN_INSTANT <= t
  {
    StartOfDaySpec(t);
    TimeOf(FieldsOf(StartOfDayTime(t)).(day := 1))
  }

  /** getEndOfMonth(): getEndOfDay, then set(DAY_OF_MONTH, getActualMaximum(DAY_OF_MONTH)). */
  function EndOfMonthTime(t: int): int
    requires MIN_INSTANT <= t
  {
    EndOfDaySpec(t);
    var f := FieldsOf(EndOfDayTime(t));
    TimeOf(f.(day := DaysInMonth(f.year, f.month)))
  }

  /**
   * Calendar.set(DAY_OF_YEAR, n) on fields: resolved as day n counted from
   * January 1 of the year field; the month field takes no part.
   */
  function WithDayOfYear(f: Fields, n: int): Fields {
    f.(month := 0, day := n)
  }

  /** getStartOfYear(): clearTime on a copy, then set(DAY_OF_YEAR, 1). */
  function StartOfYearTime(t: int): int
    requires MIN_INSTANT <= t
  {
    StartOfDaySpec(t);
    TimeOf(WithDayOfYear(FieldsOf(StartOfDayTime(t)), 1))
  }

  /** getEndOfYear(): getEndOfDay, then set(DAY_OF_YEAR, getActualMaximum(DAY_OF_YEAR)). */
  function EndOfYearTime(t: int): int
    requires MIN_INSTANT <= t
  {
    EndOfDaySpec(t);
    var f := FieldsOf(EndOfDayTime(t));
    TimeOf(WithDayOfYear(f, DaysInYear(f.year)))
  }

  /** Start of month is day 1 of the same month at 00:00:00.000, at or before t. */
  lemma StartOfMonthSpec(t: int)
    requires MIN_INSTANT <= t
    ensures var f := FieldsOf(t);
            var s := StartOfMonthTime(t);
            && MIN_INSTANT <= s <= t
            && FieldsOf(s) == Fields(f.year, f.month, 1, 0, 0, 0, 0)
  {
    StartOfDaySpec(t);
    var f := FieldsOf(t);
    var g := Fields(f.year, f.month, 1, 0, 0, 0, 0);
    FieldsRoundTrip(g);
    TimeOfSplit(g);
    TimeOfSplit(f);
    InstantFromDayAndMillis(t);
    InstantFromDayAndMillis(TimeOf(g));
  }

  /** End of month is the month's last day (28 to 31, leap-aware) at 23:59:59.999, at or after t. */
  lemma EndOfMonthSpec(t: int)
    requires MIN_INSTANT <= t
    ensures var f := FieldsOf(t);
            var e := EndOfMonthTime(t);
            && t <= e
            && EndOfDayTime(t) <= e
            && FieldsOf(e) == Fields(f.year, f.month, DaysInMonth(f.year, f.month), 23, 59, 59, 999)
  {
    EndOfDaySpec(t);
    var f := FieldsOf(t);
    var g := Fields(f.year, f.month, DaysInMonth(f.year, f.month), 23, 59, 59, 999);
    FieldsRoundTrip(g);
    TimeOfSplit(g);
    TimeOfSplit(f);
    InstantFromDayAndMillis(t);
    InstantFromDayAndMillis(TimeOf(g));
  }

  /** Start of year is January 1 at 00:00:00.000, at or before t. */
  lemma StartOfYearSpec(t: int)
    requires MIN_INSTANT <= t
    ensures var f := FieldsOf(t);
            var s := StartOfYearTime(t);
            && MIN_INSTANT <= s <= t
            && FieldsOf(s) == Fields(f.year, 0, 1, 0, 0, 0, 0)
  {
    StartOfDaySpec(t);
    var f := FieldsOf(t);
    var g := Fields(f.year, 0, 1, 0, 0, 0, 0);
    FieldsRoundTrip(g);
    TimeOfSplit(g);
    TimeOfSplit(f);
    EpochDayWithinYear(DateOf(f));
    InstantFromDayAndMillis(t);
    InstantFromDayAndMillis(TimeOf(g));
  }

  /**
   * End of year is December 31 at 23:59:59.999, whose day of year is the
   * year's length (365 or 366), at or after t.
   */
  lemma EndOfYearSpec(t: int)
    requires MIN_INSTANT <= t
    ensures var f := FieldsOf(t);
            var e := EndOfYearTime(t);
            && t <= e
            && EndOfDayTime(t) <= e
            && FieldsOf(e) == Fields(f.year, 11, 31, 23, 59, 59, 999)
            && DayOfYear(DateOf(FieldsOf(e))) == DaysInYear(f.year)
  {
    EndOfDaySpec(t);
    var f := FieldsOf(t);
    var g := Fields(f.year, 11, 31, 23, 59, 59, 999);
    var last := DaysBeforeYear(f.year + 1) - 1;
    LastDayOfYear(f.year);
    assert TimeOf(WithDayOfYear(FieldsOf(EndOfDayTime(t)), DaysInYear(f.year))) == TimeOf(g);
    assert TimeOf(g) == last * 86_400_000 + 86_399_999 by {
      LenientAgreesOnValidDates(DateOf(g));
    }
    FieldsRoundTrip(g);
    assert EpochDay(t) <= last by {
      TimeOfSplit(f);
      EpochDayWithinYear(DateOf(f));
    }
    NoLaterThanLastMillisecond(t, last);
  }

  // ---------------------------------------------------------------------------
  // The month and year boundaries resolved as one set of fields
  //
  // The Kotlin chains of getStartOfMonth, getEndOfMonth, getStartOfYear and
  // getEndOfYear leave all their fields pending until the next read; the
  // functions above resolve the time fields first. The two agree, because the
  // time fields they clear or fill are in range.

  /** getStartOfMonth's fields resolved together give the same instant as step by step. */
  lemma StartOfMonthResolvedTogether(t: int)
    requires MIN_INSTANT <= t
    ensures StartOfMonthTime(t) == TimeOf(FieldsOf(t).(hour := 0, minute := 0, second := 0, millis := 0, day := 1))
  {
    StartOfDaySpec(t);
  }

  /** getEndOfMonth's fields resolved together give the same instant as step by step. */
  lemma EndOfMonthResolvedTogether(t: int)
    requires MIN_INSTANT <= t
    ensures var f := FieldsOf(t);
            EndOfMonthTime(t)
              == TimeOf(f.(hour := 23, minute := 59, second := 59, millis := 999, day := DaysInMonth(f.year, f.month)))
  {
    EndOfDaySpec(t);
  }

  /** getStartOfYear's fields resolved together give the same instant as step by step. */
  lemma StartOfYearResolvedTogether(t: int)
    requires MIN_INSTANT <= t
    ensures StartOfYearTime(t) == TimeOf(WithDayOfYear(FieldsOf(t).(hour := 0, minute := 0, second := 0, millis := 0), 1))
  {
    StartOfDaySpec(t);
  }

  /** getEndOfYear's fields resolved together give the same instant as step by step. */
  lemma EndOfYearResolvedTogether(t: int)
    requires MIN_INSTANT <= t
    ensures var f := FieldsOf(t);
            EndOfYearTime(t)
              == TimeOf(WithDayOfYear(f.(hour := 23, minute := 59, second := 59, millis := 999), DaysInYear(f.year)))
  {
    EndOfDaySpec(t);
  }

  /** December 31 is day DaysInYear of its year and the day before the next January 1. */
  lemma LastDayOfYear(y: int)
    requires y >= MIN_YEAR
    ensures ValidDate(Date(y, 11, 31))
    ensures LenientEpochDay(y, 0, DaysInYear(y)) == LenientEpochDay(y, 11, 31)
    ensures EpochDayOf(Date(y, 11, 31)) == DaysBeforeYear(y + 1) - 1
    ensures DayOfYear(Date(y, 11, 31)) == DaysInYear(y)
  {
    DaysBeforeMonthStep(y, 11);
    DaysBeforeYearStep(y);
    assert 0 / 12 == 0 && 0 % 12 == 0 && 11 / 12 == 0 && 11 % 12 == 11;
  }

  /** An instant on day d or earlier lies at or before d's last millisecond. */
  lemma NoLaterThanLastMillisecond(t: int, d: int)
    requires EpochDay(t) <= d
    ensures t <= d * 86_400_000 + 86_399_999
  {
    InstantFromDayAndMillis(t);
  }

  /** Midnight of a representable instant is representable. */
  lemma MidnightInRange(t: int)
    requires Representable(t)
    ensures Representable(StartOfDayTime(t)) && StartOfDayTime(t) <= t
  {
    StartOfDayIsMidnight(t);
    InstantFromDayAndMillis(t);
    FirstDayIsJanuary1583();
  }

  /** The Calendar calls of getStartOfWeek stay within the modelled range when the week starts in it. */
  lemma StartOfWeekSteps(t: int, firstDayOfWeek: int)
    requires Representable(t) && 1 <= firstDayOfWeek <= 7
    requires FIRST_DAY <= WeekStartDay(EpochDay(t), firstDayOfWeek)
    ensures Representable(StartOfDayTime(t))
    ensures Representable(SetDayOfWeekTime(StartOfDayTime(t), firstDayOfWeek, firstDayOfWeek))
  {
    FirstDayIsJanuary1583();
    StartOfDayIsMidnight(t);
    StartOfWeekSpec(t, firstDayOfWeek);
  }

  /** The Calendar calls of getEndOfWeek stay within the modelled range when its result does. */
  lemma EndOfWeekSteps(t: int, firstDayOfWeek: int)
    requires Representable(t) && 1 <= firstDayOfWeek <= 7
    requires FIRST_DAY <= WeekStartDay(EpochDay(t), firstDayOfWeek)
    requires EndOfWeekTime(t, firstDayOfWeek) <= MAX_INSTANT
    ensures Representable(EndOfDayTime(t))
    ensures var w := SetDayOfWeekTime(EndOfDayTime(t), firstDayOfWeek, firstDayOfWeek);
            Representable(w) && Representable(w + 6 * 86_400_000)
  {
    FirstDayIsJanuary1583();
    EndOfDayIsLastMillisecond(t);
    EndOfWeekSpec(t, firstDayOfWeek);
    WeekStartSpec(EpochDay(t), firstDayOfWeek);
  }

  /** The Calendar calls of getStartOfMonth stay within the modelled range. */
  lemma StartOfMonthSteps(t: int)
    requires Representable(t)
    ensures Representable(StartOfDayTime(t))
    ensures Resolvable(FieldsOf(StartOfDayTime(t)).(day := 1))
    ensures StartOfMonthTime(t) == TimeOf(FieldsOf(StartOfDayTime(t)).(day := 1))
  {
    MidnightInRange(t);
    StartOfMonthSpec(t);
  }

  /** The Calendar calls of getEndOfMonth stay within the modelled range when its result does. */
  lemma EndOfMonthSteps(t: int)
    requires Representable(t) && EndOfMonthTime(t) <= MAX_INSTANT
    ensures Representable(EndOfDayTime(t))
    ensures var f := FieldsOf(EndOfDayTime(t));
            Resolvable(f.(day := DaysInMonth(f.year, f.month)))
  {
    EndOfMonthSpec(t);
  }

  /** The Calendar calls of getStartOfYear stay within the modelled range. */
  lemma StartOfYearSteps(t: int)
    requires Representable(t)
    ensures Representable(StartOfDayTime(t))
    ensures Representable(StartOfYearTime(t))
  {
    MidnightInRange(t);
    StartOfYearSpec(t);
  }

  /** The Calendar calls of getEndOfYear stay within the modelled range when its result does. */
  lemma EndOfYearSteps(t: int)
    requires Representable(t) && EndOfYearTime(t) <= MAX_INSTANT
    ensures Representable(EndOfDayTime(t))
    ensures Representable(EndOfYearTime(t))
  {
    EndOfYearSpec(t);
  }

  // ---------------------------------------------------------------------------
  // Setting the date fields

  /**
   * setDate(day, month, year) with a valid (day, month) for the year: the
   * date becomes exactly (year, month, day) and the time of day is kept.
   */
  lemma SetDateSpec(t: int, day: int, month: int, year: int)
    requires MIN_INSTANT <= t && ValidDate(Date(year, month, day))
    ensures var f := FieldsOf(t);
            var t' := TimeOf(f.(year := year, month := month, day := day));
            && MIN_INSTANT <= t'
            && FieldsOf(t') == f.(year := year, month := month, day := day)
            && MillisOfDay(t') == MillisOfDay(t)
  {
    var f := FieldsOf(t);
    var g := f.(year := year, month := month, day := day);
    FieldsRoundTrip(g);
    TimeOfSplit(f);
    TimeOfSplit(g);
  }

  /**
   * Setting the four time fields together keeps the date and replaces the
   * time of day: the instant is the date's midnight plus the fields'
   * milliseconds, so out-of-range values roll into the neighbouring days;
   * in-range values read back exactly as set.
   */
  lemma SetTimeOfDaySpec(t: int, millis: int, sec: int, min: int, hours: int)
    requires MIN_INSTANT <= t
    ensures var f := FieldsOf(t);
            var t' := TimeOf(f.(hour := hours, minute := min, second := sec, millis := millis));
            && t' == EpochDay(t) * 86_400_000 + hours * 3_600_000 + min * 60_000 + sec * 1000 + millis
            && (0 <= hours < 24 && 0 <= min < 60 && 0 <= sec < 60 && 0 <= millis < 1000 ==>
                  && MIN_INSTANT <= t'
                  && EpochDay(t') == EpochDay(t)
                  && FieldsOf(t') == f.(hour := hours, minute := min, second := sec, millis := millis))
  {
    var f := FieldsOf(t);
    var g := f.(hour := hours, minute := min, second := sec, millis := millis);
    TimeOfSplit(f);
    LenientAgreesOnValidDates(DateOf(f));
    if 0 <= hours < 24 && 0 <= min < 60 && 0 <= sec < 60 && 0 <= millis < 1000 {
      FieldsRoundTrip(g);
      TimeOfSplit(g);
    }
  }

  /** The date that day `day` of (year, month) names once it runs past the month's end. */
  function RolledOver(year: int, month: int, day: int): Date
    requires 0 <= month < 12
  {
    var k := day - DaysInMonth(year, month);
    if month == 11 then Date(year + 1, 0, k) else Date(year, month + 1, k)
  }

  /** A day up to 28 past the month's end names a valid date of the next month, by the same day count. */
  lemma RolledOverSpec(year: int, month: int, day: int)
    requires year >= MIN_YEAR && 0 <= month < 12
    requires DaysInMonth(year, month) < day <= DaysInMonth(year, month) + 28
    ensures var d := RolledOver(year, month, day);
            && ValidDate(d)
            && LenientEpochDay(year, month, day) == LenientEpochDay(d.year, d.month, d.day)
  {
    LenientDayRollsForward(year, month, day);
    var k := day - DaysInMonth(year, month);
    assert 1 <= k <= 28;
    if month == 11 {
      assert LenientEpochDay(year, 12, k) == LenientEpochDay(year + 1, 0, k) by {
        assert 12 / 12 == 1 && 12 % 12 == 0 && 0 / 12 == 0 && 0 % 12 == 0;
      }
      assert ValidDate(Date(year + 1, 0, k));
    } else {
      assert ValidDate(Date(year, month + 1, k));
    }
  }

  /**
   * setDate with a day past the month's end: all three fields are applied
   * before normalising, so day `dim + k` of a month of `dim` days is day k
   * of the next month (December rolls into January of the next year).
   */
  lemma SetDateRollsForward(t: int, day: int, month: int, year: int)
    requires MIN_INSTANT <= t && year >= MIN_YEAR && 0 <= month < 12
    requires DaysInMonth(year, month) < day <= DaysInMonth(year, month) + 28
    ensures var f := FieldsOf(t);
            var next := RolledOver(year, month, day);
            var t' := TimeOf(f.(year := year, month := month, day := day));
            && MIN_INSTANT <= t'
            && FieldsOf(t') == f.(year := next.year, month := next.month, day := next.day)
  {
    var f := FieldsOf(t);
    RolledOverSpec(year, month, day);
    var next := RolledOver(year, month, day);
    var g := f.(year := next.year, month := next.month, day := next.day);
    SameDayCountSameTime(f.(year := year, month := month, day := day), g);
    FieldsRoundTrip(g);
  }

  /** Fields naming the same lenient day and the same time of day resolve to the same instant. */
  lemma SameDayCountSameTime(f: Fields, g: Fields)
    requires LenientEpochDay(f.year, f.month, f.day) == LenientEpochDay(g.year, g.month, g.day)
    requires f.hour == g.hour && f.minute == g.minute && f.second == g.second && f.millis == g.millis
    ensures TimeOf(f) == TimeOf(g)
  {
  }

  // ---------------------------------------------------------------------------
  // Differences

  /** differenceBetweenDatesInMillis: the Long subtraction of the two times. */
  function MillisDifference(a: int, b: int): (d: Int64)
    ensures InLongRange(a - b) ==> d == a - b
  {
    WrapLong(a - b)
  }

  /** The Long difference of two representable instants is zero only when they are equal. */
  lemma MillisDifferenceZero(a: Instant, b: Instant)
    ensures MillisDifference(a, b) == 0 <==> a == b
  {
    if a - b >= 0x8000_0000_0000_0000 {
      assert MillisDifference(a, b) == a - b - 0x1_0000_0000_0000_0000;
    } else if a - b < -0x8000_0000_0000_0000 {
      assert MillisDifference(a, b) == a - b + 0x1_0000_0000_0000_0000;
    }
  }

  /**
   * isYesterday's test on two midnights: their day difference, truncated
   * toward zero, is -1 exactly when the first date is the day before the
   * second, also where the Long subtraction wraps.
   */
  lemma DayDifferenceOfMidnights(a: Instant, b: Instant)
    requires MillisOfDay(a) == 0 && MillisOfDay(b) == 0
    ensures TruncDiv(MillisDifference(a, b), 86_400_000) == -1 <==> EpochDay(a) + 1 == EpochDay(b)
  {
    InstantFromDayAndMillis(a);
    InstantFromDayAndMillis(b);
    var d := a - b;
    if d >= 0x8000_0000_0000_0000 {
      assert MillisDifference(a, b) == d - 0x1_0000_0000_0000_0000;
    } else if d < -0x8000_0000_0000_0000 {
      assert MillisDifference(a, b) == d + 0x1_0000_0000_0000_0000;
    } else {
      assert MillisDifference(a, b) == (EpochDay(a) - EpochDay(b)) * 86_400_000;
    }
  }

  // ---------------------------------------------------------------------------
  // Ages

  /** Month and day of a come strictly before those of b. */
  predicate MonthDayBefore(a: Date, b: Date) {
    a.month < b.month || (a.month == b.month && a.day < b.day)
  }

  /**
   * In two years of the same kind (both leap or both common), comparing days
   * of the year is comparing (month, day).
   */
  lemma DayOfYearOrderIsMonthDayOrder(a: Date, b: Date)
    requires ValidDate(a) && ValidDate(b) && IsLeapYear(a.year) == IsLeapYear(b.year)
    ensures DayOfYear(a) < DayOfYear(b) <==> MonthDayBefore(a, b)
  {
    DaysBeforeMonthStep(a.year, a.month);
    DaysBeforeMonthStep(b.year, b.month);
    if a.month < b.month {
      DaysBeforeMonthMonotone(a.year, a.month + 1, b.month);
    } else if b.month < a.month {
      DaysBeforeMonthMonotone(a.year, b.month + 1, a.month);
    }
  }

  /** March 1 is day 61 of the leap year 2000 and day 60 of the common year 2023. */
  lemma MarchFirstAcrossLeapYears()
    ensures ValidDate(Date(2000, 2, 1)) && ValidDate(Date(2023, 2, 1))
    ensures DayOfYear(Date(2000, 2, 1)) == 61 && DayOfYear(Date(2023, 2, 1)) == 60
    ensures !MonthDayBefore(Date(2023, 2, 1), Date(2000, 2, 1))
  {
  }
}
