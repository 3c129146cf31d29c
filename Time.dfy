/**
 * Time values as the JavaScript `Date` holds them: integer milliseconds since
 * 1970-01-01T00:00:00Z.  Local wall-clock fields are computed with a fixed
 * offset `zone` (milliseconds east of UTC); daylight-saving changes are not
 * modelled, so every local day is exactly 24 hours long.  The functions below
 * are the date-fns helpers the core calls (startOfDay, setHours, setMinutes,
 * addMinutes, addDays, isSameDay) under that assumption.
 */
module Time {

  const SecondMs: int := 1000
  const MinuteMs: int := 60000
  const HourMs: int := 3600000
  const DayMs: int := 86400000

  /** The largest magnitude a `Date` time value may have (section 21.4.1.22 of ECMA-262). */
  const MaxTimeValue: int := 8640000000000000

  /** A valid `Date` time value. */
  type Instant = t: int | -MaxTimeValue <= t <= MaxTimeValue

  /** The local calendar day number of `t` (day 0 is the local 1970-01-01). */
  function LocalDay(t: int, zone: int): int {
    (t + zone) / DayMs
  }

  /** Milliseconds elapsed since local midnight. */
  function TimeOfDay(t: int, zone: int): (ms: int)
    ensures 0 <= ms < DayMs
  {
    (t + zone) % DayMs
  }

  /** `date.getHours()` */
  function HourOf(t: int, zone: int): (h: int)
    ensures 0 <= h < 24
    ensures h * HourMs <= TimeOfDay(t, zone) < (h + 1) * HourMs
  {
    TimeOfDay(t, zone) / HourMs
  }

  /** `date.getMinutes()` */
  function MinuteOf(t: int, zone: int): (m: int)
    ensures 0 <= m < 60
  {
    (TimeOfDay(t, zone) % HourMs) / MinuteMs
  }

  /** Seconds and milliseconds past the minute. */
  function SubMinute(t: int, zone: int): (ms: int)
    ensures 0 <= ms < MinuteMs
  {
    TimeOfDay(t, zone) % MinuteMs
  }

  /** `isSameDay(a, b)` */
  predicate IsSameDay(a: int, b: int, zone: int) {
    LocalDay(a, zone) == LocalDay(b, zone)
  }

  /** `startOfDay(t)`: local midnight at or before `t`. */
  function StartOfDay(t: int, zone: int): (r: int)
    ensures IsSameDay(r, t, zone) && TimeOfDay(r, zone) == 0
    ensures r <= t < r + DayMs
  {
    t - TimeOfDay(t, zone)
  }

  /** `addMinutes(t, n)` */
  function AddMinutes(t: int, n: int): int {
    t + n * MinuteMs
  }

  /** `addDays(t, n)`: the same wall-clock time `n` local days later. */
  function AddDays(t: int, n: int): (r: int)
    ensures forall zone :: LocalDay(r, zone) == LocalDay(t, zone) + n && TimeOfDay(r, zone) == TimeOfDay(t, zone)
  {
    t + n * DayMs
  }

  /** A positive multiple of a positive number is at least that number. */
  lemma {:induction false} MulAtLeast(a: int, m: int)
    requires a >= 1 && m > 0
    ensures a * m >= m
    decreases a
  {
    if a > 1 {
      MulAtLeast(a - 1, m);
      assert a * m == (a - 1) * m + m;
    }
  }

  /** Division by a positive number has a unique quotient and remainder. */
  lemma DivModUnique(v: int, q: int, r: int, m: int)
    requires m > 0 && 0 <= r < m && v == q * m + r
    ensures v / m == q && v % m == r
  {
    var q', r' := v / m, v % m;
    assert v == q' * m + r';
    assert (q - q') * m == r' - r;
    if q > q' {
      MulAtLeast(q - q', m);
    } else if q < q' {
      MulAtLeast(q' - q, m);
    }
  }

  /** The local fields of a time value written as days, hours, minutes and sub-minute milliseconds. */
  lemma LocalFields(t: int, zone: int, d: int, h: int, m: int, s: int)
    requires 0 <= h < 24 && 0 <= m < 60 && 0 <= s < MinuteMs
    requires t + zone == d * DayMs + h * HourMs + m * MinuteMs + s
    ensures LocalDay(t, zone) == d && HourOf(t, zone) == h && MinuteOf(t, zone) == m && SubMinute(t, zone) == s
  {
    var v := t + zone;
    DivModUnique(v, d, h * HourMs + m * MinuteMs + s, DayMs);
    var w := v % DayMs;
    DivModUnique(w, h, m * MinuteMs + s, HourMs);
    DivModUnique(w % HourMs, m, s, MinuteMs);
    DivModUnique(w, h * 60 + m, s, MinuteMs);
  }

  /** Every time value is its local day, hour, minute and sub-minute milliseconds put together. */
  lemma LocalDecompose(t: int, zone: int)
    ensures t + zone == LocalDay(t, zone) * DayMs + HourOf(t, zone) * HourMs + MinuteOf(t, zone) * MinuteMs + SubMinute(t, zone)
  {
    var w := TimeOfDay(t, zone);
    var x := (w % HourMs) % MinuteMs;
    assert w % HourMs == MinuteOf(t, zone) * MinuteMs + x;
    assert w == (HourOf(t, zone) * 60 + MinuteOf(t, zone)) * MinuteMs + x;
    DivModUnique(w, HourOf(t, zone) * 60 + MinuteOf(t, zone), x, MinuteMs);
  }

  /**
   * `setHours(t, h)`: for an hour 0..23, the instant on the same local day with
   * hour `h` and the same minutes, seconds and milliseconds; other values of
   * `h` roll over into neighbouring days, as `Date.prototype.setHours` does.
   */
  function SetHours(t: int, h: int, zone: int): (r: int)
    ensures 0 <= h < 24 ==> IsSameDay(r, t, zone) && HourOf(r, zone) == h
    ensures MinuteOf(r, zone) == MinuteOf(t, zone) && SubMinute(r, zone) == SubMinute(t, zone)
  {
    var r := t + (h - HourOf(t, zone)) * HourMs;
    LocalDecompose(t, zone);
    LocalFields(r, zone, LocalDay(t, zone) + h / 24, h % 24, MinuteOf(t, zone), SubMinute(t, zone));
    r
  }

  /**
   * `setMinutes(t, m)`: for a minute 0..59, the instant in the same local hour
   * with minute `m` and the same seconds and milliseconds; 60 rolls over into
   * the next hour.
   */
  function SetMinutes(t: int, m: int, zone: int): (r: int)
    ensures 0 <= m < 60 ==> IsSameDay(r, t, zone) && HourOf(r, zone) == HourOf(t, zone) && MinuteOf(r, zone) == m
    ensures SubMinute(r, zone) == SubMinute(t, zone)
  {
    var r := t + (m - MinuteOf(t, zone)) * MinuteMs;
    var hours := HourOf(t, zone) + m / 60;
    LocalDecompose(t, zone);
    LocalFields(r, zone, LocalDay(t, zone) + hours / 24, hours % 24, m % 60, SubMinute(t, zone));
    r
  }
}
