/**
 * The text form the calendar store persists timestamps in:
 * `Date.prototype.toISOString()` (the Date Time String Format of section
 * 21.4.1.32 of ECMA-262, always in UTC, with milliseconds) and the reading of
 * that exact form back into a time value, as `new Date(text)` does.
 */
module IsoDate {
  import opened Wrappers
  import opened Time
  import opened Civil
  import opened Decimal

  /** The broken-down UTC fields of a time value. */
  datatype Fields = Fields(date: Date, hour: int, minute: int, second: int, millis: int)

  predicate ValidFields(f: Fields) {
    ValidDate(f.date) && 0 <= f.hour < 24 && 0 <= f.minute < 60 && 0 <= f.second < 60 && 0 <= f.millis < 1000
  }

  /** The time value that the fields denote. */
  function TimeOf(f: Fields): int
    requires ValidFields(f)
  {
    DaysFromCivil(f.date) * DayMs + f.hour * HourMs + f.minute * MinuteMs + f.second * SecondMs + f.millis
  }

  /** The UTC fields of `t`; `TimeOf` undoes it. */
  function FieldsOf(t: int): (f: Fields)
    ensures ValidFields(f) && TimeOf(f) == t
  {
    var ms := t % DayMs;
    SplitDayMillis(ms);
    Fields(CivilFromDays(t / DayMs), ms / HourMs, ms % HourMs / MinuteMs, ms % MinuteMs / SecondMs, ms % SecondMs)
  }

  /** Milliseconds into a day split into hours, minutes, seconds and milliseconds. */
  lemma SplitDayMillis(ms: int)
    requires 0 <= ms < DayMs
    ensures 0 <= ms / HourMs < 24 && 0 <= ms % HourMs / MinuteMs < 60 && 0 <= ms % MinuteMs / SecondMs < 60
    ensures ms == ms / HourMs * HourMs + ms % HourMs / MinuteMs * MinuteMs + ms % MinuteMs / SecondMs * SecondMs + ms % SecondMs
  {
    var h, rh := ms / HourMs, ms % HourMs;
    var m, rm := rh / MinuteMs, rh % MinuteMs;
    DivModUnique(ms, h * 60 + m, rm, MinuteMs);
    var sec, milli := rm / SecondMs, rm % SecondMs;
    DivModUnique(ms, (h * 60 + m) * 60 + sec, milli, SecondMs);
  }

  /** The year as toISOString writes it: four digits for 0..9999, otherwise a sign and six digits. */
  function YearText(y: int): string {
    if 0 <= y <= 9999 then Padded(y, 4)
    else (if y < 0 then "-" else "+") + Padded(if y < 0 then -y else y, 6)
  }

  /** Everything after the year, "-MM-DDTHH:mm:ss.sssZ", each field zero-padded to its width. */
  function RestText(f: Fields): (r: string)
    requires ValidFields(f)
    ensures |r| == 20
  {
    var mo, d := f.date.month, f.date.day;
    ['-', DigitChar(mo / 10), DigitChar(mo % 10), '-', DigitChar(d / 10), DigitChar(d % 10),
     'T', DigitChar(f.hour / 10), DigitChar(f.hour % 10), ':', DigitChar(f.minute / 10), DigitChar(f.minute % 10),
     ':', DigitChar(f.second / 10), DigitChar(f.second % 10),
     '.', DigitChar(f.millis / 100), DigitChar(f.millis / 10 % 10), DigitChar(f.millis % 10), 'Z']
  }

  /** `date.toISOString()` */
  function ToIsoString(t: Instant): (s: string)
    ensures |s| == 24 || |s| == 27
    ensures s[|s| - 1] == 'Z'
  {
    var f := FieldsOf(t);
    YearTextLength(f.date.year, t / DayMs);
    YearText(f.date.year) + RestText(f)
  }

  /** Reads "-MM-DDTHH:mm:ss.sssZ" for a given year; rejects out-of-range fields. */
  function ParseRest(year: int, r: string): Option<Fields>
    requires |r| == 20
  {
    if r[0] == '-' && r[3] == '-' && r[6] == 'T' && r[9] == ':' && r[12] == ':' && r[15] == '.' && r[19] == 'Z'
      && IsDigit(r[1]) && IsDigit(r[2]) && IsDigit(r[4]) && IsDigit(r[5]) && IsDigit(r[7]) && IsDigit(r[8])
      && IsDigit(r[10]) && IsDigit(r[11]) && IsDigit(r[13]) && IsDigit(r[14])
      && IsDigit(r[16]) && IsDigit(r[17]) && IsDigit(r[18])
    then
      var f := Fields(Date(year, TwoDigits(r, 1), TwoDigits(r, 4)), TwoDigits(r, 7), TwoDigits(r, 10), TwoDigits(r, 13),
                      DigitValue(r[16]) * 100 + TwoDigits(r, 17));
      if ValidFields(f) then Some(f) else None
    else None
  }

  /** The fields of a string in either toISOString shape (four-digit or signed six-digit year). */
  function ParseFields(s: string): Option<Fields> {
    if |s| == 24 && AllDigits(s[..4]) then ParseRest(ValueOf(s[..4]), s[4..])
    else if |s| == 27 && (s[0] == '+' || s[0] == '-') && AllDigits(s[1..7]) && !(s[0] == '-' && ValueOf(s[1..7]) == 0) then
      var magnitude: int := ValueOf(s[1..7]);
      ParseRest(if s[0] == '-' then -magnitude else magnitude, s[7..])
    else None
  }

  /** `new Date(s)` restricted to the two shapes toISOString produces; None stands for an Invalid Date. */
  function ParseIsoString(s: string): Option<Instant> {
    match ParseFields(s)
    case None => None
    case Some(f) =>
      var t := TimeOf(f);
      if -MaxTimeValue <= t <= MaxTimeValue then Some(t) else None
  }

  lemma YearTextLength(y: int, n: int)
    requires -100000000 <= n <= 100000000 && y == YearOfDay(n)
    ensures |YearText(y)| == (if 0 <= y <= 9999 then 4 else 7)
  {
    YearOfDayBounds(n);
    if 0 <= y <= 9999 {
      PaddedLength(y, 4);
    } else {
      PaddedLength(if y < 0 then -y else y, 6);
    }
  }

  /** The characters of the date part of the text after the year. */
  lemma RestTextDateAt(f: Fields)
    requires ValidFields(f)
    ensures var r, mo, d := RestText(f), f.date.month, f.date.day;
      && r[0] == '-' && r[1] == DigitChar(mo / 10) && r[2] == DigitChar(mo % 10)
      && r[3] == '-' && r[4] == DigitChar(d / 10) && r[5] == DigitChar(d % 10)
      && r[6] == 'T' && r[7] == DigitChar(f.hour / 10) && r[8] == DigitChar(f.hour % 10) && r[9] == ':'
  {
  }

  /** The characters of the time part of the text after the year. */
  lemma RestTextTimeAt(f: Fields)
    requires ValidFields(f)
    ensures var r := RestText(f);
      && r[10] == DigitChar(f.minute / 10) && r[11] == DigitChar(f.minute % 10)
      && r[12] == ':' && r[13] == DigitChar(f.second / 10) && r[14] == DigitChar(f.second % 10)
      && r[15] == '.' && r[16] == DigitChar(f.millis / 100) && r[17] == DigitChar(f.millis / 10 % 10)
      && r[18] == DigitChar(f.millis % 10) && r[19] == 'Z'
  {
  }

  /** Any 20 characters laid out as `RestText` lays out the fields read back as those fields. */
  lemma ParseRestOf(f: Fields, r: string)
    requires ValidFields(f) && |r| == 20
    requires var mo, d := f.date.month, f.date.day;
      && r[0] == '-' && r[1] == DigitChar(mo / 10) && r[2] == DigitChar(mo % 10)
      && r[3] == '-' && r[4] == DigitChar(d / 10) && r[5] == DigitChar(d % 10)
      && r[6] == 'T' && r[7] == DigitChar(f.hour / 10) && r[8] == DigitChar(f.hour % 10)
      && r[9] == ':' && r[10] == DigitChar(f.minute / 10) && r[11] == DigitChar(f.minute % 10)
      && r[12] == ':' && r[13] == DigitChar(f.second / 10) && r[14] == DigitChar(f.second % 10)
      && r[15] == '.' && r[16] == DigitChar(f.millis / 100) && r[17] == DigitChar(f.millis / 10 % 10)
      && r[18] == DigitChar(f.millis % 10) && r[19] == 'Z'
    ensures ParseRest(f.date.year, r) == Some(f)
  {
    assert TwoDigits(r, 1) == f.date.month && TwoDigits(r, 4) == f.date.day;
    assert TwoDigits(r, 7) == f.hour && TwoDigits(r, 10) == f.minute && TwoDigits(r, 13) == f.second;
    assert DigitValue(r[16]) * 100 + TwoDigits(r, 17) == f.millis;
  }

  /** Reading back the text after the year gives the same fields. */
  lemma ParseRestText(f: Fields)
    requires ValidFields(f)
    ensures ParseRest(f.date.year, RestText(f)) == Some(f)
  {
    RestTextDateAt(f);
    RestTextTimeAt(f);
    ParseRestOf(f, RestText(f));
  }

  /** A four-digit year prefix is read back as written. */
  lemma ParseShortYearText(y: int, r: string)
    requires 0 <= y <= 9999 && |r| == 20
    ensures ParseFields(YearText(y) + r) == ParseRest(y, r)
  {
    var s := YearText(y) + r;
    PaddedLength(y, 4);
    assert s[..4] == Padded(y, 4) && s[4..] == r;
    ValueOfPadded(y, 4);
  }

  /** A signed six-digit year prefix is read back as written. */
  lemma ParseLongYearText(y: int, r: string)
    requires -999999 <= y <= 999999 && !(0 <= y <= 9999) && |r| == 20
    ensures ParseFields(YearText(y) + r) == ParseRest(y, r)
  {
    var s := YearText(y) + r;
    var m := if y < 0 then -y else y;
    PaddedLength(m, 6);
    assert |s| == 27 && s[0] == (if y < 0 then '-' else '+');
    assert s[1..7] == Padded(m, 6) && s[7..] == r;
    ValueOfPadded(m, 6);
  }

  /** The year prefix is read back as written. */
  lemma ParseYearText(y: int, r: string)
    requires -999999 <= y <= 999999 && |r| == 20
    ensures ParseFields(YearText(y) + r) == ParseRest(y, r)
  {
    if 0 <= y <= 9999 {
      ParseShortYearText(y, r);
    } else {
      ParseLongYearText(y, r);
    }
  }

  /** Round trip: parsing what toISOString writes gives back the same time value, to the millisecond. */
  lemma ParseToIsoString(t: Instant)
    ensures ParseIsoString(ToIsoString(t)) == Some(t)
  {
    var f := FieldsOf(t);
    YearOfDayBounds(t / DayMs);
    ParseRestText(f);
    ParseYearText(f.date.year, RestText(f));
  }
}
