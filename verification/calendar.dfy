// Day numbers and Gregorian dates: the arithmetic of the diagnostics
// timestamps and of the backup file names, against the calendar itself.
module Calendar {
  datatype Date = Date(year: int, month: int, day: int)

  // ---- the calendar ----

  predicate IsLeap(year: int) {
    year % 4 == 0 && (year % 100 != 0 || year % 400 == 0)
  }

  function YearLength(year: int): int {
    if IsLeap(year) then 366 else 365
  }

  function DaysInMonth(year: int, month: int): int {
    if month == 2 then (if IsLeap(year) then 29 else 28)
    else if month == 4 || month == 6 || month == 9 || month == 11 then 30
    else 31
  }

  predicate ValidDate(date: Date) {
    1 <= date.month <= 12 && 1 <= date.day <= DaysInMonth(date.year, date.month)
  }

  function Next(date: Date): Date {
    if date.day < DaysInMonth(date.year, date.month) then date.(day := date.day + 1)
    else if date.month < 12 then Date(date.year, date.month + 1, 1)
    else Date(date.year + 1, 1, 1)
  }

  // Counted day by day: the years since year 0, and the months of a year.
  function DaysBeforeYear(year: nat): nat {
    if year == 0 then 0 else DaysBeforeYear(year - 1) + YearLength(year - 1)
  }

  function DaysBeforeMonth(year: int, month: int): int
    decreases month
  {
    if month <= 1 then 0 else DaysBeforeMonth(year, month - 1) + DaysInMonth(year, month - 1)
  }

  const EPOCH: Date := Date(1970, 1, 1)
  const EPOCH_DAY: int := 719_528 // days from 1 January of year 0 to the epoch

  // Days since the epoch.
  function DayNumber(date: Date): int
    requires date.year >= 0
  {
    DaysBeforeYear(date.year) + DaysBeforeMonth(date.year, date.month) + date.day - 1 - EPOCH_DAY
  }

  // ---- the arithmetic ----

  function YearOfEra(doe: int): int {
    (doe - doe / 1_460 + doe / 36_524 - doe / 146_096) / 365
  }

  // Days before the year of an era that starts with March.
  function YearStart(yoe: int): int {
    365 * yoe + yoe / 4 - yoe / 100
  }

  // Days before a month of such a year, counted from March.
  function MonthStart(mp: int): int {
    (153 * mp + 2) / 5
  }

  // The second half of the conversion, from the day of an era on.
  function CivilInEra(era: int, doe: int): Date {
    var yoe := YearOfEra(doe);
    var year := yoe + era * 400;
    var doy := doe - YearStart(yoe);
    var mp := (5 * doy + 2) / 153;
    var day := doy - MonthStart(mp) + 1;
    var month := mp + (if mp < 10 then 3 else -9);
    Date(year + (if month <= 2 then 1 else 0), month, day)
  }

  function EraOf(z: int): int {
    (if z >= 0 then z else z - 146_096) / 146_097
  }

  function CivilFromDays(days: int): Date {
    var z := days + 719_468;
    var era := EraOf(z);
    CivilInEra(era, z - era * 146_097)
  }

  // Far enough before the epoch the era is off by one: two days get one date.
  lemma NegativeDaysExample()
    ensures CivilFromDays(-719_469) == CivilFromDays(-719_470) == Date(0, 2, 29)
  {
    ErasBefore();
    assert YearOfEra(146_096) == 399 && YearStart(399) == 145_731;
    assert YearOfEra(292_192) == 799 && YearStart(799) == 291_827;
  }

  lemma ErasBefore()
    ensures EraOf(-1) == -1 && EraOf(-2) == -2
  {
    assert -146_097 == -1 * 146_097 && -146_098 == -2 * 146_097 + 146_096;
  }

  // ---- a year of an era ----

  // A day of an era as centuries, cycles of four years, years and days.
  lemma SplitEra(doe: int) returns (c: int, q: int, a: int, d: int)
    requires 0 <= doe < 146_097
    ensures 0 <= c <= 3 && 0 <= q <= 24 && 0 <= a <= 3 && 0 <= d
    ensures doe == 36_524 * c + 1_461 * q + 365 * a + d
    ensures d < 365 || (d == 365 && a == 3)
    ensures d == 365 && q == 24 ==> c == 3
  {
    c := if doe / 36_524 < 4 then doe / 36_524 else 3;
    var r := doe - 36_524 * c;
    q := r / 1_461;
    var s := r - 1_461 * q;
    a := if s / 365 < 4 then s / 365 else 3;
    d := s - 365 * a;
  }

  lemma YearOfEraIs(doe: int, c: int, q: int, a: int, d: int)
    requires 0 <= doe < 146_097
    requires 0 <= c <= 3 && 0 <= q <= 24 && 0 <= a <= 3 && 0 <= d
    requires doe == 36_524 * c + 1_461 * q + 365 * a + d
    requires d < 365 || (d == 365 && a == 3)
    requires d == 365 && q == 24 ==> c == 3
    ensures YearOfEra(doe) == 100 * c + 4 * q + a
  {
    var s := 365 * a + d;
    var e := if 24 * c + q + s >= 1_460 then 1 else 0;
    assert doe / 1_460 == 25 * c + q + e by {
      assert doe == 1_460 * (25 * c + q + e) + (24 * c + q + s - 1_460 * e);
    }
    var last := if doe == 146_096 then 1 else 0;
    assert doe / 36_524 == c + last && doe / 146_096 == last by {
      assert doe == 36_524 * (c + last) + (1_461 * q + s - 36_524 * last);
    }
    assert doe - doe / 1_460 + doe / 36_524 - doe / 146_096 == 365 * (100 * c + 4 * q + a) + (d - e);
    assert e == 1 ==> a == 3 && d >= 1;
  }

  // The year of era is the year the day falls in.
  lemma YearOfEraMeaning(doe: int)
    requires 0 <= doe < 146_097
    ensures 0 <= YearOfEra(doe) < 400
    ensures var doy := doe - YearStart(YearOfEra(doe)); 0 <= doy < YearLength(YearOfEra(doe) + 1)
  {
    var c, q, a, d := SplitEra(doe);
    YearOfEraIs(doe, c, q, a, d);
    var y := 100 * c + 4 * q + a;
    assert y / 4 == 25 * c + q && y / 100 == c;
    assert doe - YearStart(y) == d;
    if d == 365 {
      assert (y + 1) % 4 == 0;
      if q == 24 {
        assert y == 399;
      } else {
        assert (y + 1) / 100 == c && (y + 1) % 100 != 0;
      }
    }
  }

  // ---- the months, counted from March ----

  lemma MonthMeaning(doy: int)
    requires 0 <= doy <= 365
    ensures var mp := (5 * doy + 2) / 153;
            && 0 <= mp <= 11 && MonthStart(mp) <= doy
            && doy < (if mp == 11 then 366 else MonthStart(mp + 1))
  {
  }

  // The length of the month that is `mp` months after March of `year`.
  lemma MonthLength(year: int, mp: int)
    requires 0 <= mp <= 11
    ensures var month := mp + (if mp < 10 then 3 else -9);
            var civil := year + (if month <= 2 then 1 else 0);
            && 1 <= month <= 12
            && (mp < 11 ==> DaysInMonth(civil, month) == MonthStart(mp + 1) - MonthStart(mp))
            && (mp == 11 ==> DaysInMonth(civil, month) == YearLength(year + 1) - MonthStart(11))
  {
  }

  lemma LeapInEra(era: int, yoe: int)
    ensures YearLength(yoe + era * 400 + 1) == YearLength(yoe + 1)
  {
    var y := yoe + 1;
    var shifted := y + era * 400;
    ByFour(y, shifted, era);
    ByHundred(y, shifted, era);
    ByFourHundred(y, shifted, era);
  }

  lemma ByFour(y: int, shifted: int, era: int)
    requires shifted == y + era * 400
    ensures shifted % 4 == y % 4
  {
    assert shifted == 4 * (y / 4 + 100 * era) + y % 4;
  }

  lemma ByHundred(y: int, shifted: int, era: int)
    requires shifted == y + era * 400
    ensures shifted % 100 == y % 100
  {
    assert shifted == 100 * (y / 100 + 4 * era) + y % 100;
  }

  lemma ByFourHundred(y: int, shifted: int, era: int)
    requires shifted == y + era * 400
    ensures shifted % 400 == y % 400
  {
    assert shifted == 400 * (y / 400 + era) + y % 400;
  }

  // The date as the arithmetic finds it: an era of 400 years, a year of the
  // era that starts with March, a day of that year, and its month.
  function MarchDate(era: int, yoe: int, doy: int, mp: int): Date {
    var month := mp + (if mp < 10 then 3 else -9);
    Date(yoe + era * 400 + (if month <= 2 then 1 else 0), month, doy - MonthStart(mp) + 1)
  }

  predicate InMonth(yoe: int, doy: int, mp: int) {
    && 0 <= doy < YearLength(yoe + 1) && 0 <= mp <= 11 && MonthStart(mp) <= doy
    && (mp < 11 ==> doy < MonthStart(mp + 1))
  }

  lemma CivilInEraParts(era: int, doe: int) returns (yoe: int, doy: int, mp: int)
    requires 0 <= doe < 146_097
    ensures 0 <= yoe < 400 && InMonth(yoe, doy, mp) && doe == YearStart(yoe) + doy
    ensures CivilInEra(era, doe) == MarchDate(era, yoe, doy, mp)
  {
    YearOfEraMeaning(doe);
    yoe := YearOfEra(doe);
    doy := doe - YearStart(yoe);
    MonthMeaning(doy);
    mp := (5 * doy + 2) / 153;
  }

  lemma CivilParts(days: int) returns (era: int, yoe: int, doy: int, mp: int)
    requires days >= 0
    ensures era >= 4 && 0 <= yoe < 400 && InMonth(yoe, doy, mp)
    ensures days + 719_468 == 146_097 * era + YearStart(yoe) + doy
    ensures CivilFromDays(days) == MarchDate(era, yoe, doy, mp)
  {
    var z := days + 719_468;
    era := z / 146_097;
    yoe, doy, mp := CivilInEraParts(era, z - era * 146_097);
  }

  lemma MarchDateIsValid(era: int, yoe: int, doy: int, mp: int)
    requires InMonth(yoe, doy, mp)
    ensures ValidDate(MarchDate(era, yoe, doy, mp))
  {
    LeapInEra(era, yoe);
    MonthLength(yoe + era * 400, mp);
  }

  // ---- the day number of a date ----

  // Days before a year of an era that starts with March, from the leap rule.
  lemma {:induction false} DaysBeforeYearIs(era: int, yoe: int)
    requires era >= 0 && 0 <= yoe < 400
    ensures DaysBeforeYear(yoe + era * 400 + 1) == 146_097 * era + YearStart(yoe) + 366
    decreases era, yoe
  {
    var year := yoe + era * 400 + 1;
    if yoe > 0 {
      DaysBeforeYearIs(era, yoe - 1);
      LeapInEra(era, yoe - 1);
      YearStartStep(yoe);
    } else if era > 0 {
      DaysBeforeYearIs(era - 1, 399);
      LeapInEra(era - 1, 399);
      assert YearLength(400) == 366 && YearStart(399) == 145_731;
    }
  }

  lemma YearStartStep(yoe: int)
    requires 0 < yoe < 400
    ensures YearStart(yoe) == YearStart(yoe - 1) + YearLength(yoe)
  {
  }

  // Days before a month, with the months counted from March.
  lemma DaysBeforeMonthIs(year: int, mp: int)
    requires 0 <= mp <= 11
    ensures var month := mp + (if mp < 10 then 3 else -9);
            DaysBeforeMonth(year, month) ==
            if mp < 10 then YearLength(year) - 306 + MonthStart(mp) else MonthStart(mp) - 306
  {
    assert DaysBeforeMonth(year, 1) == 0;
    assert DaysBeforeMonth(year, 2) == 31;
    assert DaysBeforeMonth(year, 3) == YearLength(year) - 306;
    assert DaysBeforeMonth(year, 4) == YearLength(year) - 306 + 31;
    assert DaysBeforeMonth(year, 5) == YearLength(year) - 306 + 61;
    assert DaysBeforeMonth(year, 6) == YearLength(year) - 306 + 92;
    assert DaysBeforeMonth(year, 7) == YearLength(year) - 306 + 122;
    assert DaysBeforeMonth(year, 8) == YearLength(year) - 306 + 153;
    assert DaysBeforeMonth(year, 9) == YearLength(year) - 306 + 184;
    assert DaysBeforeMonth(year, 10) == YearLength(year) - 306 + 214;
    assert DaysBeforeMonth(year, 11) == YearLength(year) - 306 + 245;
    assert DaysBeforeMonth(year, 12) == YearLength(year) - 306 + 275;
  }

  lemma MarchDayNumber(era: int, yoe: int, doy: int, mp: int)
    requires era >= 0 && 0 <= yoe < 400 && InMonth(yoe, doy, mp)
    ensures DayNumber(MarchDate(era, yoe, doy, mp)) == 146_097 * era + YearStart(yoe) + doy - 719_468
  {
    var year := yoe + era * 400;
    DaysBeforeYearIs(era, yoe);
    DaysBeforeMonthIs(MarchDate(era, yoe, doy, mp).year, mp);
    assert DaysBeforeYear(year + 1) == DaysBeforeYear(year) + YearLength(year);
  }

  // The date of a day number is valid, not before the epoch, and counts back to it.
  lemma CivilFromDaysIsDate(days: int)
    requires days >= 0
    ensures ValidDate(CivilFromDays(days)) && CivilFromDays(days).year >= 1970
    ensures DayNumber(CivilFromDays(days)) == days
  {
    var era, yoe, doy, mp := CivilParts(days);
    MarchDateIsValid(era, yoe, doy, mp);
    MarchDayNumber(era, yoe, doy, mp);
    NotBeforeEpoch(CivilFromDays(days));
  }

  // ---- dates in order have day numbers in order ----

  lemma {:induction false} MonthsGrow(year: int, month: int, later: int)
    requires 1 <= month < later <= 13
    ensures DaysBeforeMonth(year, month) + DaysInMonth(year, month) <= DaysBeforeMonth(year, later)
    decreases later
  {
    if month < later - 1 {
      MonthsGrow(year, month, later - 1);
    }
  }

  lemma DaysInYear(year: int)
    ensures DaysBeforeMonth(year, 13) == YearLength(year)
  {
    DaysBeforeMonthIs(year, 9);
    assert DaysBeforeMonth(year, 13) == DaysBeforeMonth(year, 12) + 31;
  }

  // The day of the year.
  lemma DayOfYearBound(date: Date)
    requires ValidDate(date)
    ensures 0 <= DaysBeforeMonth(date.year, date.month) + date.day - 1 < YearLength(date.year)
  {
    MonthsGrow(date.year, date.month, 13);
    DaysInYear(date.year);
    if date.month > 1 {
      MonthsGrow(date.year, 1, date.month);
    }
  }

  lemma {:induction false} YearsGrow(year: nat, later: nat)
    requires year < later
    ensures DaysBeforeYear(year) + YearLength(year) <= DaysBeforeYear(later)
  {
    if year < later - 1 {
      YearsGrow(year, later - 1);
    }
  }

  predicate Earlier(a: Date, b: Date) {
    || a.year < b.year
    || (a.year == b.year && (a.month < b.month || (a.month == b.month && a.day < b.day)))
  }

  lemma EarlierIsLess(a: Date, b: Date)
    requires ValidDate(a) && ValidDate(b) && a.year >= 0 && b.year >= 0 && Earlier(a, b)
    ensures DayNumber(a) < DayNumber(b)
  {
    DayOfYearBound(a);
    DayOfYearBound(b);
    if a.year < b.year {
      YearsGrow(a.year, b.year);
    } else if a.month < b.month {
      MonthsGrow(a.year, a.month, b.month);
    }
  }

  lemma NotBeforeEpoch(date: Date)
    requires ValidDate(date) && date.year >= 0 && DayNumber(date) >= 0
    ensures date.year >= 1970
  {
    EpochIsDayZero();
    if date.year < 1970 {
      EarlierIsLess(date, EPOCH);
    }
  }

  lemma EpochIsDayZero()
    ensures DayNumber(EPOCH) == 0
  {
    DaysBeforeYearIs(4, 369);
  }

  // The day count and the arithmetic are inverse to each other.
  lemma DayNumberIsInverse(date: Date)
    requires ValidDate(date) && date.year >= 1970
    ensures DayNumber(date) >= 0 && CivilFromDays(DayNumber(date)) == date
  {
    EpochIsDayZero();
    if date != EPOCH {
      assert Earlier(EPOCH, date);
      EarlierIsLess(EPOCH, date);
    }
    var found := CivilFromDays(DayNumber(date));
    CivilFromDaysIsDate(DayNumber(date));
    if Earlier(found, date) {
      EarlierIsLess(found, date);
    } else if Earlier(date, found) {
      EarlierIsLess(date, found);
    }
  }

  lemma NextDayNumber(date: Date)
    requires ValidDate(date) && date.year >= 0
    ensures ValidDate(Next(date)) && DayNumber(Next(date)) == DayNumber(date) + 1
  {
    if date.day == DaysInMonth(date.year, date.month) && date.month == 12 {
      DaysInYear(date.year);
    }
  }

  // One day later is the next date.
  lemma CivilOfNextDay(days: int)
    requires days >= 0
    ensures CivilFromDays(days + 1) == Next(CivilFromDays(days))
  {
    CivilFromDaysIsDate(days);
    InverseAtNext(days, CivilFromDays(days));
  }

  lemma InverseAtNext(days: int, date: Date)
    requires days >= 0 && ValidDate(date) && date.year >= 1970 && DayNumber(date) == days
    ensures CivilFromDays(days + 1) == Next(date)
  {
    NextDayNumber(date);
    DayNumberIsInverse(Next(date));
  }

  // ---- time of day ----

  datatype Timestamp = Timestamp(date: Date, hour: int, minute: int, second: int)

  // The fields of the diagnostics timestamp, from a time since the epoch.
  function TimestampOf(seconds: nat): Timestamp {
    var daySeconds := seconds % 86_400;
    Timestamp(CivilFromDays(seconds / 86_400), daySeconds / 3_600, daySeconds % 3_600 / 60, daySeconds % 60)
  }

  // A valid date and time of day that add up to these seconds.
  ghost predicate Stands(t: Timestamp, seconds: nat) {
    && ValidDate(t.date) && t.date.year >= 1970 && 0 <= t.hour < 24 && 0 <= t.minute < 60 && 0 <= t.second < 60
    && DayNumber(t.date) * 86_400 + t.hour * 3_600 + t.minute * 60 + t.second == seconds
  }

  lemma TimestampMeaning(seconds: nat)
    ensures Stands(TimestampOf(seconds), seconds)
  {
    CivilFromDaysIsDate(seconds / 86_400);
    FieldsAddUp(seconds, seconds / 86_400, TimestampOf(seconds));
  }

  lemma FieldsAddUp(seconds: nat, days: nat, t: Timestamp)
    requires ValidDate(t.date) && t.date.year >= 1970 && DayNumber(t.date) == days == seconds / 86_400
    requires var s := seconds % 86_400;
             t.hour == s / 3_600 && t.minute == s % 3_600 / 60 && t.second == s % 60
    ensures Stands(t, seconds)
  {
    DaySecondsAddUp(seconds % 86_400, t.hour, t.minute, t.second);
  }

  lemma DaySecondsAddUp(s: int, hour: int, minute: int, second: int)
    requires 0 <= s < 86_400 && hour == s / 3_600 && minute == s % 3_600 / 60 && second == s % 60
    ensures 0 <= hour < 24 && 0 <= minute < 60 && 0 <= second < 60 && hour * 3_600 + minute * 60 + second == s
  {
    var rest := s % 3_600;
    assert s == hour * 3_600 + rest;
    assert rest % 60 == s % 60 by {
      assert s == 60 * (60 * hour + rest / 60) + rest % 60;
    }
  }

  const I64_MAX: int := 0x7fff_ffff_ffff_ffff

  // The fields of an external backup's file name, which come from a second,
  // separately written copy of the arithmetic.
  function BackupDate(days: int): Date {
    var z := days + 719_468;
    var era := (if z >= 0 then z else z - 146_096) / 146_097;
    BackupDateInEra(era, z - era * 146_097)
  }

  function BackupDateInEra(era: int, doe: int): Date {
    var yoe := (doe - doe / 1_460 + doe / 36_524 - doe / 146_096) / 365;
    var year := yoe + era * 400;
    var doy := doe - (365 * yoe + yoe / 4 - yoe / 100);
    var monthPart := (5 * doy + 2) / 153;
    var day := doy - (153 * monthPart + 2) / 5 + 1;
    var month := monthPart + (if monthPart < 10 then 3 else -9);
    Date(if month <= 2 then year + 1 else year, month, day)
  }

  function BackupTimestamp(timestampSeconds: nat): Timestamp {
    var seconds := if timestampSeconds <= I64_MAX then timestampSeconds else I64_MAX;
    var secondsOfDay := seconds % 86_400;
    Timestamp(BackupDate(seconds / 86_400), secondsOfDay / 3_600, secondsOfDay % 3_600 / 60, secondsOfDay % 60)
  }

  lemma BackupDateAgrees(era: int, doe: int)
    ensures BackupDateInEra(era, doe) == CivilInEra(era, doe)
  {
    var yoe := YearOfEra(doe);
    var doy := doe - YearStart(yoe);
    var mp := (5 * doy + 2) / 153;
    assert MonthStart(mp) == (153 * mp + 2) / 5;
  }

  lemma BackupTimestampIsTimestamp(seconds: nat)
    requires seconds <= I64_MAX
    ensures BackupTimestamp(seconds) == TimestampOf(seconds)
  {
    var z := seconds / 86_400 + 719_468;
    BackupDateAgrees(EraOf(z), z - EraOf(z) * 146_097);
  }

  // Above the signed 64-bit maximum all backup names have its time.
  lemma BackupSaturates(timestampSeconds: nat)
    requires timestampSeconds > 9_223_372_036_854_775_807
    ensures BackupTimestamp(timestampSeconds) == BackupTimestamp(9_223_372_036_854_775_807)
  {
  }

  // The file name carries the date and time of its seconds, and is the same
  // only for the same seconds.
  lemma BackupTimestampMeaning(seconds: nat, other: nat)
    requires seconds <= I64_MAX && other <= I64_MAX
    ensures Stands(BackupTimestamp(seconds), seconds)
    ensures BackupTimestamp(seconds) == BackupTimestamp(other) <==> seconds == other
  {
    BackupTimestampIsTimestamp(seconds);
    BackupTimestampIsTimestamp(other);
    TimestampMeaning(seconds);
    TimestampMeaning(other);
  }
}
