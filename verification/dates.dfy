/** Time as the app sees it: instants, day truncation, and the calendar fields
    the statistics dialog reads. An instant is a count of milliseconds since
    1970-01-01T00:00 in the device's own offset, so "truncated to the day" means
    "rounded down to a multiple of one day". */
module Dates {

  /** Milliseconds since the epoch, local offset already applied. */
  type Instant = int

  const MillisPerDay: int := 86_400_000

  /** The instant is midnight of its day: it has no time-of-day part. */
  predicate IsDayStart(t: Instant) {
    t % MillisPerDay == 0
  }

  /** Number of whole days since the epoch (floor division, also before 1970). */
  function EpochDay(t: Instant): int {
    t / MillisPerDay
  }

  /** `truncatedTo(ChronoUnit.DAYS)`: midnight at the start of `t`'s day. */
  function TruncateToDay(t: Instant): (r: Instant)
    ensures IsDayStart(r)
    ensures r <= t < r + MillisPerDay
    ensures EpochDay(r) == EpochDay(t)
  {
    EpochDay(t) * MillisPerDay
  }

  /** `plusDays(n)`; `minusDays(n)` is `PlusDays(t, -n)`. */
  function PlusDays(t: Instant, n: int): (r: Instant)
    ensures EpochDay(r) == EpochDay(t) + n
    ensures r % MillisPerDay == t % MillisPerDay
  {
    t + n * MillisPerDay
  }

  /** Truncation is idempotent: a stored date truncated again does not move. */
  lemma TruncateIdempotent(t: Instant)
    ensures TruncateToDay(TruncateToDay(t)) == TruncateToDay(t)
  {
  }

  /** A midnight instant is its own truncation, and only midnight instants are. */
  lemma TruncateFixesDayStarts(t: Instant)
    ensures TruncateToDay(t) == t <==> IsDayStart(t)
  {
  }

  /** Two instants store the same truncated value exactly when they fall on the
      same day. */
  lemma SameDayIffSameTruncation(a: Instant, b: Instant)
    ensures TruncateToDay(a) == TruncateToDay(b) <==> EpochDay(a) == EpochDay(b)
  {
  }

  /** Between two midnights, `<` is "at least one whole day earlier". */
  lemma DayStartsAreADayApart(a: Instant, b: Instant)
    requires IsDayStart(a) && IsDayStart(b)
    ensures a < b <==> a + MillisPerDay <= b
  {
    var da, db := a / MillisPerDay, b / MillisPerDay;
    assert a == da * MillisPerDay;
    assert b == db * MillisPerDay;
    if a < b {
      assert da < db;
      assert da + 1 <= db;
      assert a + MillisPerDay == (da + 1) * MillisPerDay;
    }
  }

  /** A proleptic-Gregorian calendar date, as `OffsetDateTime` reports it. */
  datatype CivilDate = CivilDate(year: int, month: int, day: int)

  /** The calendar date of epoch day `z` (1970-01-01 is day 0), by the
      era method: the calendar repeats every 400 years (146097 days), and a
      year is counted from March 1st so that the leap day comes last. */
  function CivilFromDays(z: int): CivilDate {
    FromDayOfEra((z + 719468) / 146097, (z + 719468) % 146097)
  }

  /** Year within its 400-year era for day-of-era `doe`, correcting for the
      leap days of every 4th, 100th and 400th year. */
  function YearOfEra(doe: int): int {
    (doe - doe / 1460 + doe / 36524 - doe / 146096) / 365
  }

  /** Date of day `doe` of era `era` (era 0 starts on 0000-03-01). */
  function FromDayOfEra(era: int, doe: int): CivilDate {
    var yoe := YearOfEra(doe);
    FromDayOfYear(era * 400 + yoe, doe - (365 * yoe + yoe / 4 - yoe / 100))
  }

  /** Date of day `doy` of the March-based year `y`. */
  function FromDayOfYear(y: int, doy: int): CivilDate {
    FromMonthIndex(y, (5 * doy + 2) / 153, doy)
  }

  /** Date of day `doy` in March-based month `mp` (0 is March, 11 is
      February): January and February belong to the next civil year. */
  function FromMonthIndex(y: int, mp: int, doy: int): CivilDate {
    var d := doy - (153 * mp + 2) / 5 + 1;
    if mp < 10 then CivilDate(y, mp + 3, d) else CivilDate(y + 1, mp - 9, d)
  }

  /** The year of the instant's calendar date, `date.year`. */
  function YearOf(t: Instant): int {
    CivilFromDays(EpochDay(t)).year
  }

  /** The month of the instant's calendar date, `date.month`. */
  function MonthOf(t: Instant): int {
    CivilFromDays(EpochDay(t)).month
  }

  /** The era method spelled out: given the intermediate values for day
      `z`, its date is the one of March-based month `mp` and day-of-year
      `doy`. */
  lemma CivilFromDaysSteps(z: int, era: int, doe: int, yoe: int, doy: int, mp: int)
    requires (z + 719468) / 146097 == era && (z + 719468) % 146097 == doe
    requires (doe - doe / 1460 + doe / 36524 - doe / 146096) / 365 == yoe
    requires doe - (365 * yoe + yoe / 4 - yoe / 100) == doy
    requires (5 * doy + 2) / 153 == mp
    ensures CivilFromDays(z) == FromMonthIndex(era * 400 + yoe, mp, doy)
  {
  }

  /** Calendar fields of known days: the epoch, the day before it, and the
      leap day of 2024 with the day after it. */
  lemma CalendarSamples()
    ensures CivilFromDays(0) == CivilDate(1970, 1, 1)
    ensures CivilFromDays(-1) == CivilDate(1969, 12, 31)
    ensures CivilFromDays(19782) == CivilDate(2024, 2, 29)
    ensures CivilFromDays(19783) == CivilDate(2024, 3, 1)
  {
    EpochDate(); DayBeforeEpoch(); LeapDay2024(); MarchFirst2024();
  }

  /** Calendar fields of four days in 2023 and 2024, on both sides of a
      month and a year boundary. */
  lemma ExampleDates()
    ensures CivilFromDays(19727) == CivilDate(2024, 1, 5)
    ensures CivilFromDays(19742) == CivilDate(2024, 1, 20)
    ensures CivilFromDays(19754) == CivilDate(2024, 2, 1)
    ensures CivilFromDays(19362) == CivilDate(2023, 1, 5)
  {
    JanuaryFifth2024(); JanuaryTwentieth2024(); FebruaryFirst2024(); JanuaryFifth2023();
  }

  /** Epoch day 0 is 1970-01-01, the epoch. */
  lemma EpochDate()
    ensures CivilFromDays(0) == CivilDate(1970, 1, 1)
  {
    assert FromMonthIndex(1969, 10, 306) == CivilDate(1970, 1, 1);
    CivilFromDaysSteps(0, 4, 135080, 369, 306, 10);
  }

  /** Epoch day -1 is 1969-12-31. */
  lemma DayBeforeEpoch()
    ensures CivilFromDays(-1) == CivilDate(1969, 12, 31)
  {
    assert FromMonthIndex(1969, 9, 305) == CivilDate(1969, 12, 31);
    CivilFromDaysSteps(-1, 4, 135079, 369, 305, 9);
  }

  /** Epoch day 19782 is 2024-02-29. */
  lemma LeapDay2024()
    ensures CivilFromDays(19782) == CivilDate(2024, 2, 29)
  {
    assert FromMonthIndex(2023, 11, 365) == CivilDate(2024, 2, 29);
    CivilFromDaysSteps(19782, 5, 8765, 23, 365, 11);
  }

  /** Epoch day 19783 is 2024-03-01. */
  lemma MarchFirst2024()
    ensures CivilFromDays(19783) == CivilDate(2024, 3, 1)
  {
    assert FromMonthIndex(2024, 0, 0) == CivilDate(2024, 3, 1);
    CivilFromDaysSteps(19783, 5, 8766, 24, 0, 0);
  }

  /** Epoch day 19727 is 2024-01-05. */
  lemma JanuaryFifth2024()
    ensures CivilFromDays(19727) == CivilDate(2024, 1, 5)
  {
    assert FromMonthIndex(2023, 10, 310) == CivilDate(2024, 1, 5);
    CivilFromDaysSteps(19727, 5, 8710, 23, 310, 10);
  }

  /** Epoch day 19742 is 2024-01-20. */
  lemma JanuaryTwentieth2024()
    ensures CivilFromDays(19742) == CivilDate(2024, 1, 20)
  {
    assert FromMonthIndex(2023, 10, 325) == CivilDate(2024, 1, 20);
    CivilFromDaysSteps(19742, 5, 8725, 23, 325, 10);
  }

  /** Epoch day 19754 is 2024-02-01. */
  lemma FebruaryFirst2024()
    ensures CivilFromDays(19754) == CivilDate(2024, 2, 1)
  {
    assert FromMonthIndex(2023, 11, 337) == CivilDate(2024, 2, 1);
    CivilFromDaysSteps(19754, 5, 8737, 23, 337, 11);
  }

  /** Epoch day 19362 is 2023-01-05. */
  lemma JanuaryFifth2023()
    ensures CivilFromDays(19362) == CivilDate(2023, 1, 5)
  {
    assert FromMonthIndex(2022, 10, 310) == CivilDate(2023, 1, 5);
    CivilFromDaysSteps(19362, 5, 8345, 22, 310, 10);
  }
}
