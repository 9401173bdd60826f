// The printed forms of a time: the diagnostics timestamp and the name of an
// external backup.
module Timestamps {
  import opened Calendar
  import D = Decimals
  import Text

  // ---- numbers ----

  function Digits(n: nat): (digits: string)
    ensures digits != "" && D.AllDigits(digits) && D.Value(digits) == n
  {
    var last := (n % 10 + '0' as int) as char;
    if n < 10 then [last] else Digits(n / 10) + [last]
  }

  // Zeros in front up to a width, as `{:02}` and `{:04}` print.
  function Padded(digits: string, width: nat): (padded: string)
    requires D.AllDigits(digits)
    ensures D.AllDigits(padded) && |padded| == if |digits| < width then width else |digits|
    decreases width - |digits|
  {
    if |digits| >= width then digits else Padded("0" + digits, width)
  }

  lemma {:induction false} PaddingKeepsValue(digits: string, width: nat)
    requires D.AllDigits(digits)
    ensures D.Value(Padded(digits, width)) == D.Value(digits)
    decreases width - |digits|
  {
    if |digits| < width {
      assert ("0" + digits)[1..] == digits;
      D.LeadingZero("0" + digits);
      PaddingKeepsValue("0" + digits, width);
    }
  }

  function Field(n: nat, width: nat): (field: string)
    ensures D.AllDigits(field) && D.Value(field) == n
  {
    PaddingKeepsValue(Digits(n), width);
    Padded(Digits(n), width)
  }

  lemma TwoDigits(n: nat)
    requires n < 100
    ensures |Field(n, 2)| == 2
  {
    if n >= 10 {
      assert |Digits(n / 10)| == 1;
    }
  }

  lemma {:induction false} DigitCount(n: nat, bound: nat, count: nat)
    requires count >= 1 && n < bound && IsPower(bound, count)
    ensures |Digits(n)| <= count
    decreases count
  {
    if n >= 10 {
      DigitCount(n / 10, bound / 10, count - 1);
    }
  }

  predicate IsPower(bound: nat, count: nat) {
    if count == 0 then bound == 1 else bound % 10 == 0 && IsPower(bound / 10, count - 1)
  }

  lemma ThreeOrFourDigits(n: nat)
    ensures n < 1000 ==> |Field(n, 3)| == 3
    ensures n < 10_000 ==> |Field(n, 4)| == 4
  {
    assert IsPower(10, 1) && IsPower(100, 2);
    assert IsPower(1000, 3) && IsPower(10_000, 4);
    if n < 1000 {
      DigitCount(n, 1000, 3);
    }
    if n < 10_000 {
      DigitCount(n, 10_000, 4);
    }
  }

  // A field ends where a character that is no digit comes.
  lemma FieldEnds(a: nat, b: nat, width: nat, separator: char, rest: string, rest': string)
    requires !D.IsDigit(separator)
    requires Field(a, width) + [separator] + rest == Field(b, width) + [separator] + rest'
    ensures a == b && rest == rest'
  {
    SameBefore(Field(a, width), Field(b, width), separator, rest, rest');
  }

  lemma SameBefore(a: string, b: string, separator: char, rest: string, rest': string)
    requires separator !in a && separator !in b && a + [separator] + rest == b + [separator] + rest'
    ensures a == b && rest == rest'
  {
    Text.SplitOnceFirst(a, rest, separator);
    Text.SplitOnceFirst(b, rest', separator);
  }

  // ---- the diagnostics timestamp ----

  function TimeText(t: Timestamp, millis: nat): string
    requires t.hour >= 0 && t.minute >= 0 && t.second >= 0
  {
    Field(t.hour, 2) + [':'] + (
      Field(t.minute, 2) + [':'] + (Field(t.second, 2) + ['.'] + (Field(millis, 3) + ['Z'] + "")))
  }

  function DateText(date: Date, rest: string): string
    requires date.year >= 0 && date.month >= 0 && date.day >= 0
  {
    Field(date.year, 4) + ['-'] + (Field(date.month, 2) + ['-'] + (Field(date.day, 2) + ['T'] + rest))
  }

  function TimestampText(seconds: nat, millis: nat): string {
    TimestampMeaning(seconds);
    DateText(TimestampOf(seconds).date, TimeText(TimestampOf(seconds), millis))
  }

  lemma TimeTextTellsTimes(t: Timestamp, u: Timestamp, millis: nat, millis': nat)
    requires t.hour >= 0 && t.minute >= 0 && t.second >= 0 && u.hour >= 0 && u.minute >= 0 && u.second >= 0
    requires TimeText(t, millis) == TimeText(u, millis')
    ensures t.hour == u.hour && t.minute == u.minute && t.second == u.second && millis == millis'
  {
    var end, end' := Field(millis, 3) + ['Z'] + "", Field(millis', 3) + ['Z'] + "";
    var seconds, seconds' := Field(t.second, 2) + ['.'] + end, Field(u.second, 2) + ['.'] + end';
    FieldEnds(t.hour, u.hour, 2, ':', Field(t.minute, 2) + [':'] + seconds, Field(u.minute, 2) + [':'] + seconds');
    FieldEnds(t.minute, u.minute, 2, ':', seconds, seconds');
    FieldEnds(t.second, u.second, 2, '.', end, end');
    FieldEnds(millis, millis', 3, 'Z', "", "");
  }

  lemma DateTextTellsDates(a: Date, b: Date, rest: string, rest': string)
    requires a.year >= 0 && a.month >= 0 && a.day >= 0 && b.year >= 0 && b.month >= 0 && b.day >= 0
    requires DateText(a, rest) == DateText(b, rest')
    ensures a == b && rest == rest'
  {
    var day, day' := Field(a.day, 2) + ['T'] + rest, Field(b.day, 2) + ['T'] + rest';
    FieldEnds(a.year, b.year, 4, '-', Field(a.month, 2) + ['-'] + day, Field(b.month, 2) + ['-'] + day');
    FieldEnds(a.month, b.month, 2, '-', day, day');
    FieldEnds(a.day, b.day, 2, 'T', rest, rest');
  }

  // Where the fields stand in a text like 2024-02-29T23:59:58.007Z.
  lemma TimestampLayout(seconds: nat, millis: nat)
    requires TimestampOf(seconds).date.year <= 9999 && millis < 1000
    ensures var t, text := TimestampOf(seconds), TimestampText(seconds, millis);
            && |text| == 24
            && D.Value(text[..4]) == t.date.year && text[4] == '-' && D.Value(text[5..7]) == t.date.month
            && text[7] == '-' && D.Value(text[8..10]) == t.date.day && text[10] == 'T'
            && D.Value(text[11..13]) == t.hour && text[13] == ':' && D.Value(text[14..16]) == t.minute
            && text[16] == ':' && D.Value(text[17..19]) == t.second && text[19] == '.'
            && D.Value(text[20..23]) == millis && text[23] == 'Z'
  {
    TimestampMeaning(seconds);
    var t := TimestampOf(seconds);
    DayBounds(t.date);
    DateLayout(t.date, TimeText(t, millis));
    TimeLayout(t, millis);
    TimeAt(TimestampText(seconds, millis), TimeText(t, millis));
  }

  lemma TimeAt(text: string, time: string)
    requires |text| == 24 && |time| == 13 && text[11..] == time
    ensures text[11..13] == time[..2] && text[14..16] == time[3..5] && text[17..19] == time[6..8]
    ensures text[20..23] == time[9..12]
    ensures text[13] == time[2] && text[16] == time[5] && text[19] == time[8] && text[23] == time[12]
  {
  }

  lemma DateLayout(date: Date, rest: string)
    requires 0 <= date.year <= 9999 && 0 <= date.month < 100 && 0 <= date.day < 100
    ensures var text := DateText(date, rest);
            && |text| == 11 + |rest| && text[11..] == rest
            && D.Value(text[..4]) == date.year && text[4] == '-' && D.Value(text[5..7]) == date.month
            && text[7] == '-' && D.Value(text[8..10]) == date.day && text[10] == 'T'
  {
    ThreeOrFourDigits(date.year);
    TwoDigits(date.month);
    TwoDigits(date.day);
    FieldsAt(Field(date.year, 4), Field(date.month, 2), Field(date.day, 2), rest);
  }

  lemma FieldsAt(year: string, month: string, day: string, rest: string)
    requires |year| == 4 && |month| == 2 && |day| == 2
    ensures var text := year + ['-'] + (month + ['-'] + (day + ['T'] + rest));
            && |text| == 11 + |rest| && text[11..] == rest
            && text[..4] == year && text[4] == '-' && text[5..7] == month && text[7] == '-' && text[8..10] == day
            && text[10] == 'T'
  {
  }

  lemma TimeLayout(t: Timestamp, millis: nat)
    requires 0 <= t.hour < 100 && 0 <= t.minute < 100 && 0 <= t.second < 100 && millis < 1000
    ensures var text := TimeText(t, millis);
            && |text| == 13
            && D.Value(text[..2]) == t.hour && text[2] == ':' && D.Value(text[3..5]) == t.minute
            && text[5] == ':' && D.Value(text[6..8]) == t.second && text[8] == '.'
            && D.Value(text[9..12]) == millis && text[12] == 'Z'
  {
    TwoDigits(t.hour);
    TwoDigits(t.minute);
    TwoDigits(t.second);
    ThreeOrFourDigits(millis);
    var text := TimeText(t, millis);
    assert text[..2] == Field(t.hour, 2) && text[3..5] == Field(t.minute, 2) && text[6..8] == Field(t.second, 2);
    assert text[9..12] == Field(millis, 3);
  }

  // The text tells every two times apart, to the millisecond.
  lemma TimestampTextTellsTimes(seconds: nat, millis: nat, seconds': nat, millis': nat)
    ensures TimestampText(seconds, millis) == TimestampText(seconds', millis') <==>
            seconds == seconds' && millis == millis'
  {
    if TimestampText(seconds, millis) == TimestampText(seconds', millis') {
      var t, u := TimestampOf(seconds), TimestampOf(seconds');
      TimestampMeaning(seconds);
      TimestampMeaning(seconds');
      DateTextTellsDates(t.date, u.date, TimeText(t, millis), TimeText(u, millis'));
      TimeTextTellsTimes(t, u, millis, millis');
    }
  }

  // ---- the name of an external backup ----

  const PREFIX := "cornell-method-backup-"

  function BackupName(seconds: nat, random: string): string
    requires seconds <= I64_MAX
  {
    BackupTimestampMeaning(seconds, seconds);
    var t := BackupTimestamp(seconds);
    PREFIX + (YearMonthDay(t.date) + ['-'] + (Clock(t) + ['-'] + (random + ".sqlite")))
  }

  function YearMonthDay(date: Date): (text: string)
    requires date.year >= 0 && date.month >= 0 && date.day >= 0
    ensures D.AllDigits(text)
  {
    Field(date.year, 4) + (Field(date.month, 2) + Field(date.day, 2))
  }

  function Clock(t: Timestamp): (text: string)
    requires t.hour >= 0 && t.minute >= 0 && t.second >= 0
    ensures D.AllDigits(text)
  {
    Field(t.hour, 2) + (Field(t.minute, 2) + Field(t.second, 2))
  }

  // Fields of two digits are told apart without separators, from the end.
  lemma TwoDigitsEnd(a: string, b: string, m: nat, n: nat)
    requires m < 100 && n < 100 && a + Field(m, 2) == b + Field(n, 2)
    ensures a == b && m == n
  {
    TwoDigits(m);
    TwoDigits(n);
    assert |a| == |b|;
    assert a == (a + Field(m, 2))[..|a|] && Field(m, 2) == (a + Field(m, 2))[|a|..];
    assert b == (b + Field(n, 2))[..|b|] && Field(n, 2) == (b + Field(n, 2))[|b|..];
  }

  lemma ThreeFields(a: nat, m: nat, k: nat, b: nat, n: nat, l: nat, width: nat)
    requires m < 100 && n < 100 && k < 100 && l < 100
    requires Field(a, width) + (Field(m, 2) + Field(k, 2)) == Field(b, width) + (Field(n, 2) + Field(l, 2))
    ensures a == b && m == n && k == l
  {
    assert Field(a, width) + (Field(m, 2) + Field(k, 2)) == (Field(a, width) + Field(m, 2)) + Field(k, 2);
    assert Field(b, width) + (Field(n, 2) + Field(l, 2)) == (Field(b, width) + Field(n, 2)) + Field(l, 2);
    TwoDigitsEnd(Field(a, width) + Field(m, 2), Field(b, width) + Field(n, 2), k, l);
    TwoDigitsEnd(Field(a, width), Field(b, width), m, n);
  }

  // Names are the same only for the same second and the same random part.
  lemma BackupNameTellsTimes(seconds: nat, random: string, seconds': nat, random': string)
    requires seconds <= I64_MAX && seconds' <= I64_MAX
    ensures BackupName(seconds, random) == BackupName(seconds', random') <==> seconds == seconds' && random == random'
  {
    if BackupName(seconds, random) == BackupName(seconds', random') {
      BackupTimestampMeaning(seconds, seconds');
      BackupTimestampMeaning(seconds', seconds);
      var t, u := BackupTimestamp(seconds), BackupTimestamp(seconds');
      var end, end' := random + ".sqlite", random' + ".sqlite";
      var clock, clock' := Clock(t) + ['-'] + end, Clock(u) + ['-'] + end';
      SameAfter(PREFIX, YearMonthDay(t.date) + ['-'] + clock, YearMonthDay(u.date) + ['-'] + clock');
      SameBefore(YearMonthDay(t.date), YearMonthDay(u.date), '-', clock, clock');
      SameBefore(Clock(t), Clock(u), '-', end, end');
      DayBounds(t.date);
      DayBounds(u.date);
      ThreeFields(t.date.year, t.date.month, t.date.day, u.date.year, u.date.month, u.date.day, 4);
      ThreeFields(t.hour, t.minute, t.second, u.hour, u.minute, u.second, 2);
      SameRandom(random, random');
    }
  }

  // A name like cornell-method-backup-20240229-235958-x.sqlite.
  lemma BackupNameLayout(seconds: nat, random: string)
    requires seconds <= I64_MAX && BackupTimestamp(seconds).date.year <= 9999
    ensures BackupTimestampIsProper(seconds)
    ensures var t := BackupTimestamp(seconds);
            && |YearMonthDay(t.date)| == 8 && |Clock(t)| == 6
            && BackupName(seconds, random) ==
               "cornell-method-backup-" + YearMonthDay(t.date) + "-" + Clock(t) + "-" + random + ".sqlite"
  {
    BackupTimestampMeaning(seconds, seconds);
    var t := BackupTimestamp(seconds);
    DayBounds(t.date);
    DigitsLayout(t);
    FivePieces(PREFIX, YearMonthDay(t.date), Clock(t), random, ".sqlite");
  }

  predicate BackupTimestampIsProper(seconds: nat)
    requires seconds <= I64_MAX
  {
    var t := BackupTimestamp(seconds);
    t.date.year >= 0 && t.date.month >= 0 && t.date.day >= 0 && t.hour >= 0 && t.minute >= 0 && t.second >= 0
  }

  lemma FivePieces(a: string, b: string, c: string, d: string, e: string)
    ensures a + (b + ['-'] + (c + ['-'] + (d + e))) == a + b + "-" + c + "-" + d + e
  {
  }

  // The digits of the day and of the clock.
  lemma DigitsLayout(t: Timestamp)
    requires 0 <= t.date.year <= 9999 && 0 <= t.date.month < 100 && 0 <= t.date.day < 100
    requires 0 <= t.hour < 100 && 0 <= t.minute < 100 && 0 <= t.second < 100
    ensures var day, clock := YearMonthDay(t.date), Clock(t);
            && |day| == 8 && D.Value(day[..4]) == t.date.year && D.Value(day[4..6]) == t.date.month
            && D.Value(day[6..]) == t.date.day
            && |clock| == 6 && D.Value(clock[..2]) == t.hour && D.Value(clock[2..4]) == t.minute
            && D.Value(clock[4..]) == t.second
  {
    ThreeOrFourDigits(t.date.year);
    TwoDigits(t.date.month);
    TwoDigits(t.date.day);
    TwoDigits(t.hour);
    TwoDigits(t.minute);
    TwoDigits(t.second);
    var day, clock := YearMonthDay(t.date), Clock(t);
    assert day[..4] == Field(t.date.year, 4) && day[4..6] == Field(t.date.month, 2);
    assert day[6..] == Field(t.date.day, 2);
    assert clock[..2] == Field(t.hour, 2) && clock[2..4] == Field(t.minute, 2) && clock[4..] == Field(t.second, 2);
  }

  lemma SameAfter(prefix: string, a: string, b: string)
    requires prefix + a == prefix + b
    ensures a == b
  {
    assert a == (prefix + a)[|prefix|..] && b == (prefix + b)[|prefix|..];
  }

  lemma SameRandom(a: string, b: string)
    requires a + ".sqlite" == b + ".sqlite"
    ensures a == b
  {
    assert |a| == |b|;
    assert a == (a + ".sqlite")[..|a|] && b == (b + ".sqlite")[..|b|];
  }

  lemma DayBounds(date: Date)
    requires ValidDate(date) && date.year >= 0
    ensures 1 <= date.month < 100 && 1 <= date.day < 100
  {
  }
}
