/** The part of the JavaScript `Date` the core uses: building an instant from
    local calendar components (`new Date(y, m, d, h, mi, 0, 0)` and the
    `setHours`/`setMinutes`/`setSeconds`/`setMilliseconds` chain). Local time
    is UTC plus a fixed offset in milliseconds. */
module JsDate {
  import opened Records
  import opened JsText

  const MsPerMinute: int := 60 * 1000
  const MsPerHour: int := 60 * MsPerMinute
  const MsPerDay: int := 24 * MsPerHour
  /** The largest magnitude a `Date` can hold. */
  const MaxTime: int := 8640000000000000

  /** Days from 1970-01-01 to the given proleptic Gregorian date. */
  function DaysFromCivil(year: int, month: int, day: int): int
    requires 1 <= month <= 12
  {
    var y := if month <= 2 then year - 1 else year;
    var era := y / 400;
    var yearOfEra := y - era * 400;
    var shifted := if month > 2 then month - 3 else month + 9;
    var dayOfYear := (153 * shifted + 2) / 5 + day - 1;
    var dayOfEra := yearOfEra * 365 + yearOfEra / 4 - yearOfEra / 100 + dayOfYear;
    era * 146097 + dayOfEra - 719468
  }

  /** The day number of a (year, zero-based month, day) triple; months and
      days outside their range roll over into the neighbouring ones. */
  function MakeDay(year: int, month0: int, date: int): int
  {
    DaysFromCivil(year + month0 / 12, month0 % 12 + 1, 1) + date - 1
  }

  /** A `Date` is invalid beyond 8.64e15 ms either side of the epoch. */
  function TimeClip(t: int): Instant
  {
    if -MaxTime <= t <= MaxTime then At(t) else InvalidDate
  }

  /** `new Date(year, month0, day, hours, minutes, 0, 0)` in a zone
      `tzOffset` ms ahead of UTC: any NaN component gives an invalid date,
      and a year from 0 to 99 means 1900 to 1999. */
  function LocalDate(year: Num, month0: Num, day: Num, hours: Num, minutes: Num, tzOffset: int): (r: Instant)
    ensures year.NaN? || month0.NaN? || day.NaN? || hours.NaN? || minutes.NaN? ==> r == InvalidDate
    ensures r.At? ==> -MaxTime <= r.ms <= MaxTime && (r.ms + tzOffset) % MsPerMinute == 0
  {
    if year.NaN? || month0.NaN? || day.NaN? || hours.NaN? || minutes.NaN? then InvalidDate
    else
      var y := if 0 <= year.value <= 99 then 1900 + year.value else year.value;
      var d := MakeDay(y, month0.value, day.value);
      var local := d * MsPerDay + hours.value * MsPerHour + minutes.value * MsPerMinute;
      WholeMinutes(d, hours.value, minutes.value);
      TimeClip(local - tzOffset)
  }

  /** A day number, hours and minutes make a whole number of minutes. */
  lemma WholeMinutes(d: int, h: int, m: int)
    ensures (d * MsPerDay + h * MsPerHour + m * MsPerMinute) % MsPerMinute == 0
  {
    assert d * MsPerDay + h * MsPerHour + m * MsPerMinute == (d * 1440 + h * 60 + m) * MsPerMinute;
  }

  /** The local midnight that starts the day containing instant `now`. */
  function LocalMidnight(now: int, tzOffset: int): int
  {
    var local := now + tzOffset;
    local - local % MsPerDay
  }

  /** A copy of `now` after `setHours(hours)`, `setMinutes(minutes)`,
      `setSeconds(0)` and `setMilliseconds(0)`: the local day of `now` plus
      the given hours and minutes, which may roll over into other days. */
  function AtClockTime(now: int, hours: Num, minutes: Num, tzOffset: int): Instant
  {
    if hours.NaN? || minutes.NaN? then InvalidDate
    else TimeClip(LocalMidnight(now, tzOffset) + hours.value * MsPerHour + minutes.value * MsPerMinute - tzOffset)
  }

  /** The epoch is day 0, and the reference dates used below. */
  lemma CivilAnchors()
    ensures DaysFromCivil(1970, 1, 1) == 0
    ensures DaysFromCivil(2000, 3, 1) == 11017
    ensures DaysFromCivil(2024, 7, 25) == 19929
  {
  }

  /** A month rolls over into the next: day 32 of July 2024 is 1 August. */
  lemma MakeDayRollsOver()
    ensures MakeDay(2024, 6, 32) == MakeDay(2024, 7, 1)
  {
    assert DaysFromCivil(2024, 7, 1) == 19905;
    assert DaysFromCivil(2024, 8, 1) == 19936;
  }

  /** The instant `AtClockTime` sets lies `hours:minutes` after the local
      midnight of `now`, with zero seconds and milliseconds in local time. */
  lemma AtClockTimeWholeMinutes(now: int, h: int, m: int, tzOffset: int)
    requires 0 <= h < 24 && 0 <= m < 60
    requires -MaxTime + MsPerDay <= now <= MaxTime - MsPerDay
    requires -MsPerDay < tzOffset < MsPerDay
    ensures AtClockTime(now, Finite(h), Finite(m), tzOffset).At?
    ensures var t := AtClockTime(now, Finite(h), Finite(m), tzOffset).ms;
      t + tzOffset == LocalMidnight(now, tzOffset) + h * MsPerHour + m * MsPerMinute
      && (t + tzOffset) % MsPerMinute == 0
  {
    var local := now + tzOffset;
    var q := local / 86400000;
    assert local == q * 86400000 + local % 86400000;
    assert LocalMidnight(now, tzOffset) == q * 86400000;
    var x := q * 1440 + h * 60 + m;
    assert q * 86400000 + h * 3600000 + m * 60000 == x * 60000;
  }
}
