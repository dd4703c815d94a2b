/**
 * A stand-in for the java.util.GregorianCalendar that OmegaDate wraps, fixed
 * to the UTC zone and restricted to years from 1583 on, where the proleptic
 * Gregorian rules apply without the Julian cutover.
 *
 * An instant is a count of epoch milliseconds; an epoch day counts days from
 * 1970-01-01. Months are 0-based as in Calendar.MONTH. The functions here
 * state what Calendar does: computeFields (FieldsOf), the lenient
 * computeTime (TimeOf), add(MONTH/YEAR) with its day pinning, and the
 * resolution of a DAY_OF_WEEK set within the current week.
 */
module GregorianCalendar {
  import opened JavaTypes

  const MIN_YEAR := 1583
  /** The epoch day of 1583-01-01. */
  const FIRST_DAY := -141349
  /** The instant 1583-01-01T00:00:00.000Z. */
  const MIN_INSTANT := -12_212_553_600_000
  /** Long.MAX_VALUE, the largest time a Calendar holds. */
  const MAX_INSTANT := 0x7FFF_FFFF_FFFF_FFFF

  /** An instant this model admits. */
  type Instant = t: int | MIN_INSTANT <= t <= MAX_INSTANT

  predicate Representable(t: int) {
    MIN_INSTANT <= t <= MAX_INSTANT
  }

  // ---------------------------------------------------------------------------
  // Years and months

  predicate IsLeapYear(y: int) {
    y % 4 == 0 && (y % 100 != 0 || y % 400 == 0)
  }

  function DaysInYear(y: int): int {
    if IsLeapYear(y) then 366 else 365
  }

  /** Calendar.getActualMaximum(DAY_OF_MONTH) for month m (0-based) of year y. */
  function DaysInMonth(y: int, m: int): (n: int)
    requires 0 <= m < 12
    ensures 28 <= n <= 31
    ensures n == 29 <==> m == 1 && IsLeapYear(y)
  {
    if m == 1 then (if IsLeapYear(y) then 29 else 28)
    else if m == 3 || m == 5 || m == 8 || m == 10 then 30
    else 31
  }

  /** Days of year y before the first of month m; m == 12 gives the whole year. */
  function DaysBeforeMonth(y: int, m: int): int
    requires 0 <= m <= 12
  {
    (if m <= 6 then
       (if m <= 2 then (if m == 0 then 0 else if m == 1 then 31 else 59)
        else if m <= 4 then (if m == 3 then 90 else 120)
        else (if m == 5 then 151 else 181))
     else
       (if m <= 9 then (if m == 7 then 212 else if m == 8 then 243 else 273)
        else (if m == 10 then 304 else if m == 11 then 334 else 365)))
      + (if 2 <= m && IsLeapYear(y) then 1 else 0)
  }

  lemma DaysBeforeMonthStep(y: int, m: int)
    requires 0 <= m < 12
    ensures DaysBeforeMonth(y, m + 1) == DaysBeforeMonth(y, m) + DaysInMonth(y, m)
    ensures DaysBeforeMonth(y, 12) == DaysInYear(y)
    ensures DaysBeforeMonth(y, 0) == 0
  {
  }

  lemma DaysBeforeMonthMonotone(y: int, a: int, b: int)
    requires 0 <= a <= b <= 12
    ensures a < b ==> DaysBeforeMonth(y, a) + 28 <= DaysBeforeMonth(y, b)
  {
  }

  /** Leap years strictly before year y, counted from year 1 (floor division). */
  function LeapYearsBefore(y: int): int {
    (y - 1) / 4 - (y - 1) / 100 + (y - 1) / 400
  }

  /** The epoch day of January 1 of year y (proleptic Gregorian). */
  function DaysBeforeYear(y: int): int {
    365 * (y - 1970) + LeapYearsBefore(y) - 477
  }

  lemma FirstDayIsJanuary1583()
    ensures DaysBeforeYear(MIN_YEAR) == FIRST_DAY
    ensures MIN_INSTANT == FIRST_DAY * 86_400_000
  {
  }

  lemma DivStep(y: int)
    ensures y / 4 - (y - 1) / 4 == (if y % 4 == 0 then 1 else 0)
    ensures y / 100 - (y - 1) / 100 == (if y % 100 == 0 then 1 else 0)
    ensures y / 400 - (y - 1) / 400 == (if y % 400 == 0 then 1 else 0)
  {
  }

  /** Consecutive New Year's days are a year's length apart. */
  lemma DaysBeforeYearStep(y: int)
    ensures DaysBeforeYear(y + 1) == DaysBeforeYear(y) + DaysInYear(y)
  {
    DivStep(y);
  }

  lemma {:induction false} DaysBeforeYearMonotone(a: int, b: int)
    requires a < b
    ensures DaysBeforeYear(a) + 365 <= DaysBeforeYear(b)
    decreases b - a
  {
    DaysBeforeYearStep(a);
    if a + 1 < b {
      DaysBeforeYearMonotone(a + 1, b);
    }
  }

  // ---------------------------------------------------------------------------
  // Civil dates and epoch days

  /** A civil date: year, 0-based month, day of month. */
  datatype Date = Date(year: int, month: int, day: int)

  predicate ValidDate(d: Date) {
    d.year >= MIN_YEAR && 0 <= d.month < 12 && 1 <= d.day <= DaysInMonth(d.year, d.month)
  }

  /** Calendar.DAY_OF_YEAR of a date. */
  function DayOfYear(d: Date): (n: int)
    requires ValidDate(d)
    ensures 1 <= n <= DaysInYear(d.year)
  {
    DaysBeforeMonthStep(d.year, d.month);
    DaysBeforeMonthMonotone(d.year, d.month + 1, 12);
    DaysBeforeMonth(d.year, d.month) + d.day
  }

  function EpochDayOf(d: Date): int
    requires 0 <= d.month < 12
  {
    DaysBeforeYear(d.year) + DaysBeforeMonth(d.year, d.month) + d.day - 1
  }

  /**
   * The lenient day count of Calendar.computeTime: the month carries into the
   * year by floor division, and day d is d - 1 days after the first of the
   * month, whatever its sign or size.
   */
  function LenientEpochDay(year: int, month: int, day: int): int {
    var y := year + month / 12;
    DaysBeforeYear(y) + DaysBeforeMonth(y, month % 12) + day - 1
  }

  /** The year containing epoch day n, searched upward from year y. */
  function YearFrom(n: int, y: int): (r: int)
    requires DaysBeforeYear(y) <= n
    ensures y <= r && DaysBeforeYear(r) <= n < DaysBeforeYear(r + 1)
    decreases n - DaysBeforeYear(y)
  {
    DaysBeforeYearStep(y);
    if n < DaysBeforeYear(y + 1) then y else YearFrom(n, y + 1)
  }

  /** The month containing day r (0-based) of year y, searched upward from month m. */
  function MonthFrom(y: int, r: int, m: int): (k: int)
    requires 0 <= m < 12 && DaysBeforeMonth(y, m) <= r < DaysInYear(y)
    ensures m <= k < 12 && DaysBeforeMonth(y, k) <= r < DaysBeforeMonth(y, k + 1)
    decreases 12 - m
  {
    DaysBeforeMonthStep(y, m);
    if r < DaysBeforeMonth(y, m + 1) then m else MonthFrom(y, r, m + 1)
  }

  /** Calendar.computeFields for the date part: the civil date of epoch day n. */
  function DateOfEpochDay(n: int): (d: Date)
    requires FIRST_DAY <= n
    ensures ValidDate(d) && EpochDayOf(d) == n
  {
    FirstDayIsJanuary1583();
    var y := YearFrom(n, MIN_YEAR);
    DaysBeforeYearStep(y);
    var r := n - DaysBeforeYear(y);
    var m := MonthFrom(y, r, 0);
    DaysBeforeMonthStep(y, m);
    Date(y, m, r - DaysBeforeMonth(y, m) + 1)
  }

  /** Every valid date lies within its year's run of epoch days. */
  lemma EpochDayWithinYear(d: Date)
    requires ValidDate(d)
    ensures DaysBeforeYear(d.year) <= EpochDayOf(d) < DaysBeforeYear(d.year + 1)
  {
    DaysBeforeMonthStep(d.year, d.month);
    DaysBeforeMonthMonotone(d.year, d.month + 1, 12);
    DaysBeforeYearStep(d.year);
  }

  /** A valid date's day of the year lies within its month's share of the year. */
  lemma EpochDayWithinMonth(d: Date)
    requires ValidDate(d)
    ensures var r := EpochDayOf(d) - DaysBeforeYear(d.year);
            DaysBeforeMonth(d.year, d.month) <= r < DaysBeforeMonth(d.year, d.month + 1)
  {
    DaysBeforeMonthStep(d.year, d.month);
  }

  /** Distinct valid dates have distinct epoch days. */
  lemma EpochDayInjective(a: Date, b: Date)
    requires ValidDate(a) && ValidDate(b) && EpochDayOf(a) == EpochDayOf(b)
    ensures a == b
  {
    SameEpochDaySameYear(a, b);
    DaysBeforeMonthStep(a.year, a.month);
    DaysBeforeMonthStep(a.year, b.month);
    if a.month < b.month {
      DaysBeforeMonthMonotone(a.year, a.month + 1, b.month);
      assert false;
    } else if b.month < a.month {
      DaysBeforeMonthMonotone(a.year, b.month + 1, a.month);
      assert false;
    }
  }

  /** Valid dates on the same epoch day lie in the same year. */
  lemma SameEpochDaySameYear(a: Date, b: Date)
    requires ValidDate(a) && ValidDate(b) && EpochDayOf(a) == EpochDayOf(b)
    ensures a.year == b.year
  {
    EpochDayWithinYear(a);
    EpochDayWithinYear(b);
    if a.year < b.year {
      YearsApart(a.year, b.year);
      assert false;
    } else if b.year < a.year {
      YearsApart(b.year, a.year);
      assert false;
    }
  }

  /** The end of an earlier year comes no later than the start of a later one. */
  lemma YearsApart(x: int, y: int)
    requires x < y
    ensures DaysBeforeYear(x + 1) <= DaysBeforeYear(y)
  {
    if x + 1 < y { DaysBeforeYearMonotone(x + 1, y); }
  }

  /** Date to epoch day and back returns the date. */
  lemma DateRoundTrip(d: Date)
    requires ValidDate(d)
    ensures FIRST_DAY <= EpochDayOf(d)
    ensures DateOfEpochDay(EpochDayOf(d)) == d
  {
    EpochDayWithinYear(d);
    FirstDayIsJanuary1583();
    if d.year > MIN_YEAR { DaysBeforeYearMonotone(MIN_YEAR, d.year); }
    EpochDayInjective(DateOfEpochDay(EpochDayOf(d)), d);
  }

  /** For a valid date the lenient day count is the plain one. */
  lemma LenientAgreesOnValidDates(d: Date)
    requires 0 <= d.month < 12
    ensures LenientEpochDay(d.year, d.month, d.day) == EpochDayOf(d)
  {
  }

  /** Day `dim + k` of a month of length `dim` is day k of the next month: leniency rolls forward. */
  lemma LenientDayRollsForward(year: int, month: int, day: int)
    requires 0 <= month < 12
    ensures LenientEpochDay(year, month, day) == LenientEpochDay(year, month + 1, day - DaysInMonth(year, month))
  {
    DaysBeforeMonthStep(year, month);
    assert month / 12 == 0 && month % 12 == month;
    if month == 11 {
      assert (month + 1) / 12 == 1 && (month + 1) % 12 == 0;
      DaysBeforeYearStep(year);
    } else {
      assert (month + 1) / 12 == 0 && (month + 1) % 12 == month + 1;
    }
  }

  /** 1 + (n + 4) mod 7: Calendar.DAY_OF_WEEK of epoch day n; 1970-01-01 was a Thursday (5). */
  function Weekday(n: int): (code: int)
    ensures 1 <= code <= 7
  {
    (n + 4) % 7 + 1
  }

  /** 1970-01-01 was a Thursday and 2000-01-01 a Saturday. */
  lemma WeekdayAnchors()
    ensures Weekday(0) == 5
    ensures Weekday(DaysBeforeYear(2000)) == 7
  {
  }

  /** The weekday advances by one each day, from SATURDAY (7) back to SUNDAY (1). */
  lemma WeekdaySuccessor(n: int)
    ensures Weekday(n + 1) == Weekday(n) % 7 + 1
  {
  }

  /** Numbers that differ by a multiple of 7 leave the same remainder. */
  lemma SameResidue(a: int, b: int, j: int)
    requires a == 7 * j + b
    ensures a % 7 == b % 7
  {
  }

  /** k days on, the weekday has advanced by k, modulo 7. */
  lemma WeekdayShift(n: int, k: int)
    ensures Weekday(n + k) == (Weekday(n) - 1 + k) % 7 + 1
  {
    var q := (n + 4) / 7;
    assert n + 4 == 7 * q + (n + 4) % 7;
    assert n + k + 4 == 7 * q + ((n + 4) % 7 + k);
  }

  // ---------------------------------------------------------------------------
  // Calendar fields and instants

  /** The Calendar fields OmegaDate reads and writes (HOUR_OF_DAY for the hour). */
  datatype Fields = Fields(year: int, month: int, day: int, hour: int, minute: int, second: int, millis: int)

  function DateOf(f: Fields): Date {
    Date(f.year, f.month, f.day)
  }

  /** Fields as computeFields leaves them: a valid date and an in-range time of day. */
  predicate ValidFields(f: Fields) {
    ValidDate(DateOf(f))
    && 0 <= f.hour < 24 && 0 <= f.minute < 60 && 0 <= f.second < 60 && 0 <= f.millis < 1000
  }

  /** Calendar.computeTime in lenient mode: out-of-range fields roll into the next larger ones. */
  function TimeOf(f: Fields): int {
    LenientEpochDay(f.year, f.month, f.day) * 86_400_000
      + f.hour * 3_600_000 + f.minute * 60_000 + f.second * 1000 + f.millis
  }

  /**
   * Fields whose resolution stays in the modelled range. Calendar picks the
   * Julian or the Gregorian rules from the YEAR field as set, before the
   * month carries into it: from 1582 on, where the cutover lies, a date that
   * ends up in 1583 or later is resolved as Gregorian. The year after the
   * month's carry must be 1583 or later and the resulting instant
   * representable.
   */
  predicate Resolvable(f: Fields) {
    f.year >= MIN_YEAR - 1 && f.year + f.month / 12 >= MIN_YEAR && Representable(TimeOf(f))
  }

  /** Milliseconds since midnight of an instant. */
  function MillisOfDay(t: int): int {
    t % 86_400_000
  }

  /** The epoch day of an instant (floor division, so instants before 1970 fall on the right day). */
  function EpochDay(t: int): int {
    t / 86_400_000
  }

  lemma SplitMillisOfDay(ms: int)
    requires 0 <= ms < 86_400_000
    ensures 0 <= ms / 3_600_000 < 24 && 0 <= ms / 60_000 % 60 < 60 && 0 <= ms / 1000 % 60 < 60
    ensures ms == ms / 3_600_000 * 3_600_000 + ms / 60_000 % 60 * 60_000 + ms / 1000 % 60 * 1000 + ms % 1000
  {
    var s, m := ms / 1000, ms / 1000 / 60;
    var h := m / 60;
    assert ms == 1000 * s + ms % 1000;
    assert s == 60 * m + s % 60;
    assert m == 60 * h + m % 60;
    assert ms / 60_000 == m;
    assert ms / 3_600_000 == h;
  }

  /** Calendar.computeFields: the fields of instant t. */
  function FieldsOf(t: int): (f: Fields)
    requires MIN_INSTANT <= t
    ensures ValidFields(f) && TimeOf(f) == t
  {
    var d := DateOfEpochDay(EpochDay(t));
    var ms := MillisOfDay(t);
    SplitMillisOfDay(ms);
    LenientAgreesOnValidDates(d);
    Fields(d.year, d.month, d.day, ms / 3_600_000, ms / 60_000 % 60, ms / 1000 % 60, ms % 1000)
  }

  /** Splitting e days plus ms milliseconds (ms within a day) recovers e and ms. */
  lemma DayAndMillisSplit(e: int, ms: int)
    requires 0 <= ms < 86_400_000
    ensures EpochDay(e * 86_400_000 + ms) == e
    ensures MillisOfDay(e * 86_400_000 + ms) == ms
  {
  }

  /** An in-range time of day is recovered from its millisecond count. */
  lemma TimeOfDayRoundTrip(h: int, mi: int, s: int, ms: int)
    requires 0 <= h < 24 && 0 <= mi < 60 && 0 <= s < 60 && 0 <= ms < 1000
    ensures var x := h * 3_600_000 + mi * 60_000 + s * 1000 + ms;
            && 0 <= x < 86_400_000
            && x / 3_600_000 == h && x / 60_000 % 60 == mi && x / 1000 % 60 == s && x % 1000 == ms
  {
    var x := h * 3_600_000 + mi * 60_000 + s * 1000 + ms;
    assert x / 1000 == h * 3600 + mi * 60 + s;
    assert x / 60_000 == h * 60 + mi;
  }

  lemma TimeOfSplit(f: Fields)
    requires ValidFields(f)
    ensures EpochDay(TimeOf(f)) == EpochDayOf(DateOf(f))
    ensures MillisOfDay(TimeOf(f)) == f.hour * 3_600_000 + f.minute * 60_000 + f.second * 1000 + f.millis
  {
    LenientAgreesOnValidDates(DateOf(f));
    TimeOfDayRoundTrip(f.hour, f.minute, f.second, f.millis);
    DayAndMillisSplit(EpochDayOf(DateOf(f)), f.hour * 3_600_000 + f.minute * 60_000 + f.second * 1000 + f.millis);
  }

  /** Valid fields survive computeTime followed by computeFields unchanged. */
  lemma FieldsRoundTrip(f: Fields)
    requires ValidFields(f)
    ensures MIN_INSTANT <= TimeOf(f)
    ensures FieldsOf(TimeOf(f)) == f
  {
    TimeOfSplit(f);
    DateRoundTrip(DateOf(f));
    FirstDayIsJanuary1583();
    TimeOfDayRoundTrip(f.hour, f.minute, f.second, f.millis);
    assert MIN_INSTANT <= TimeOf(f);
  }

  /** The epoch day and the time of day of an instant determine it. */
  lemma InstantFromDayAndMillis(t: int)
    ensures t == EpochDay(t) * 86_400_000 + MillisOfDay(t)
    ensures 0 <= MillisOfDay(t) < 86_400_000
  {
  }

  // ---------------------------------------------------------------------------
  // Calendar operations beyond set-and-resolve

  function Min(a: int, b: int): int {
    if a <= b then a else b
  }

  /**
   * Calendar.add(MONTH, n) on fields: the month moves by n, the sum taken as
   * an Int (so it wraps past Int.MAX_VALUE), carrying into the year by floor
   * division; pinDayOfMonth then clamps the day to the new month's length;
   * the time of day is kept.
   */
  function AddMonthsFields(f: Fields, n: int): Fields {
    var sum: int := WrapInt(f.month + n);
    var y := f.year + sum / 12;
    var m := sum % 12;
    f.(year := y, month := m, day := Min(f.day, DaysInMonth(y, m)))
  }

  function AddMonthsTime(t: int, n: int): int
    requires MIN_INSTANT <= t
  {
    TimeOf(AddMonthsFields(FieldsOf(t), n))
  }

  /** Calendar.add(YEAR, n) on fields: the year moves by n and the day is pinned to the month's length. */
  function AddYearsFields(f: Fields, n: int): Fields
    requires 0 <= f.month < 12
  {
    f.(year := f.year + n, day := Min(f.day, DaysInMonth(f.year + n, f.month)))
  }

  function AddYearsTime(t: int, n: int): int
    requires MIN_INSTANT <= t
  {
    TimeOf(AddYearsFields(FieldsOf(t), n))
  }

  /** The epoch day that starts the week containing epoch day n, weeks starting on `firstDayOfWeek`. */
  function WeekStartDay(n: int, firstDayOfWeek: int): int {
    n - (Weekday(n) - firstDayOfWeek) % 7
  }

  /**
   * Calendar.set(DAY_OF_WEEK, day) followed by a read: the day, within the
   * week (as firstDayOfWeek defines it) of instant t, whose weekday code is
   * congruent to `day` modulo 7; the time of day is kept.
   */
  function SetDayOfWeekTime(t: int, firstDayOfWeek: int, day: int): int {
    (WeekStartDay(EpochDay(t), firstDayOfWeek) + (day - firstDayOfWeek) % 7) * 86_400_000 + MillisOfDay(t)
  }

  /** The week start is 0..6 days back and falls on firstDayOfWeek. */
  lemma WeekStartSpec(n: int, firstDayOfWeek: int)
    requires 1 <= firstDayOfWeek <= 7
    ensures n - 6 <= WeekStartDay(n, firstDayOfWeek) <= n
    ensures Weekday(WeekStartDay(n, firstDayOfWeek)) == firstDayOfWeek
  {
  }

  /**
   * add(MONTH, n) yields the target month with the day clamped to its length
   * and the time kept; the target is n months on unless the Int sum wrapped.
   */
  lemma AddMonthsSpec(f: Fields, n: int)
    requires ValidFields(f) && f.year + WrapInt(f.month + n) / 12 >= MIN_YEAR
    ensures var g := AddMonthsFields(f, n);
            && ValidFields(g)
            && g.year * 12 + g.month == f.year * 12 + WrapInt(f.month + n)
            && (InIntRange(f.month + n) ==> g.year * 12 + g.month == f.year * 12 + f.month + n)
            && g.day == Min(f.day, DaysInMonth(g.year, g.month))
            && g.hour == f.hour && g.minute == f.minute && g.second == f.second && g.millis == f.millis
            && MIN_INSTANT <= TimeOf(g) && FieldsOf(TimeOf(g)) == g
  {
    var g := AddMonthsFields(f, n);
    var sum: int := WrapInt(f.month + n);
    assert g.year * 12 + g.month == f.year * 12 + sum by {
      assert sum / 12 * 12 + sum % 12 == sum;
    }
    assert ValidFields(g);
    FieldsRoundTrip(g);
  }

  /** add(YEAR, n) yields the same month n years on, the day clamped (Feb 29 to Feb 28), the time kept. */
  lemma AddYearsSpec(f: Fields, n: int)
    requires ValidFields(f) && f.year + n >= MIN_YEAR
    ensures var g := AddYearsFields(f, n);
            && ValidFields(g)
            && g.year == f.year + n && g.month == f.month
            && g.day == Min(f.day, DaysInMonth(g.year, g.month))
            && g.hour == f.hour && g.minute == f.minute && g.second == f.second && g.millis == f.millis
            && MIN_INSTANT <= TimeOf(g) && FieldsOf(TimeOf(g)) == g
  {
    FieldsRoundTrip(AddYearsFields(f, n));
  }

  /**
   * set(DAY_OF_WEEK, day) stays in the same week, lands on the weekday
   * congruent to `day` and keeps the time of day.
   */
  lemma SetDayOfWeekSpec(t: int, firstDayOfWeek: int, day: int)
    requires 1 <= firstDayOfWeek <= 7
    ensures var t' := SetDayOfWeekTime(t, firstDayOfWeek, day);
            && Weekday(EpochDay(t')) == (day - 1) % 7 + 1
            && WeekStartDay(EpochDay(t'), firstDayOfWeek) == WeekStartDay(EpochDay(t), firstDayOfWeek)
            && MillisOfDay(t') == MillisOfDay(t)
  {
    var ws := WeekStartDay(EpochDay(t), firstDayOfWeek);
    var k := (day - firstDayOfWeek) % 7;
    var ms := MillisOfDay(t);
    assert 0 <= ms < 86_400_000;
    assert SetDayOfWeekTime(t, firstDayOfWeek, day) == (ws + k) * 86_400_000 + ms;
    DayAndMillisSplit(ws + k, ms);
    WeekStartSpec(EpochDay(t), firstDayOfWeek);
    OffsetInWeek(ws, firstDayOfWeek, day);
  }

  /**
   * From a week start ws (a day on firstDayOfWeek), the offset
   * (day - firstDayOfWeek) mod 7 reaches the weekday congruent to `day`
   * without leaving the week.
   */
  lemma OffsetInWeek(ws: int, firstDayOfWeek: int, day: int)
    requires 1 <= firstDayOfWeek <= 7 && Weekday(ws) == firstDayOfWeek
    ensures var k := (day - firstDayOfWeek) % 7;
            && Weekday(ws + k) == (day - 1) % 7 + 1
            && WeekStartDay(ws + k, firstDayOfWeek) == ws
  {
    var k := (day - firstDayOfWeek) % 7;
    WeekdayShift(ws, k);
    SameResidue(day - 1, firstDayOfWeek - 1 + k, (day - firstDayOfWeek) / 7);
    SameResidue(Weekday(ws + k) - firstDayOfWeek, k, -((firstDayOfWeek - 1 + k) / 7));
  }
}
