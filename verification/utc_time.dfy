/** ECMAScript time values (section 21.4.1 of ECMA-262) and the one date
    operation the post transform applies to them, `Date.prototype.setUTCHours`
    as ECMA-262 defines it. A time value is either NaN or a whole
    number of milliseconds since 1970-01-01T00:00:00Z within 10^8 days of it. */
module UtcTime {

  const MsPerSecond: int := 1000
  const MsPerMinute: int := 60000
  const MsPerHour: int := 3600000
  const MsPerDay: int := 86400000
  /** The largest magnitude TimeClip lets through: exactly 10^8 days. */
  const MaxTime: int := 8640000000000000

  /** The UTC hour `formatDate` sets on every post date. */
  const NoonHour: int := 12

  datatype TimeValue = NaN | Ms(ms: int)

  predicate InRange(t: int) {
    -MaxTime <= t <= MaxTime
  }

  /** The time values a `Date` object can hold: NaN or an in-range integer. */
  type DateValue = tv: TimeValue | tv.NaN? || InRange(tv.ms) witness NaN

  /** TimeClip: out-of-range instants become NaN. The argument is already an
      integer, so ToIntegerOrInfinity is the identity here. */
  function TimeClip(t: int): DateValue {
    if InRange(t) then Ms(t) else NaN
  }

  // The field extractors of section 21.4.1. Dafny's `/` and `%` on a positive
  // divisor are floor division and the non-negative remainder, which is what
  // the standard's floor and `modulo` mean.

  function Day(t: int): int { t / MsPerDay }
  function HourFromTime(t: int): int { (t / MsPerHour) % 24 }
  function MinFromTime(t: int): int { (t / MsPerMinute) % 60 }
  function SecFromTime(t: int): int { (t / MsPerSecond) % 60 }
  function MsFromTime(t: int): int { t % MsPerSecond }

  function MakeTime(hour: int, min: int, sec: int, ms: int): int {
    hour * MsPerHour + min * MsPerMinute + sec * MsPerSecond + ms
  }

  function MakeDate(day: int, time: int): int {
    day * MsPerDay + time
  }

  /** `date.setUTCHours(hour)` with only the hour argument: minutes, seconds
      and milliseconds are read back from the current value, the day is kept,
      and the result is clipped. A NaN date stays NaN. */
  function SetUtcHours(tv: DateValue, hour: int): DateValue {
    match tv
    case NaN => NaN
    case Ms(t) =>
      TimeClip(MakeDate(Day(t), MakeTime(hour, MinFromTime(t), SecFromTime(t), MsFromTime(t))))
  }

  /** `date.setUTCHours(12)` as `formatDate` calls it. */
  function ToNoon(tv: DateValue): DateValue {
    SetUtcHours(tv, NoonHour)
  }

  /** A positive multiple of a positive number is at least that number. */
  lemma MulAtLeast(d: int, x: int)
    requires 0 < d && 1 <= x
    ensures d * x >= d
    decreases x
  {
    if x > 1 {
      MulAtLeast(d, x - 1);
      assert d * x == d * (x - 1) + d;
    }
  }

  /** Euclidean division has exactly one quotient and remainder. */
  lemma DivModUnique(t: int, d: int, q: int, r: int)
    requires 0 < d && 0 <= r < d && t == d * q + r
    ensures t / d == q && t % d == r
  {
    var q0, r0 := t / d, t % d;
    assert d * q0 + r0 == d * q + r;
    if q0 < q {
      MulAtLeast(d, q - q0);
    } else if q0 > q {
      MulAtLeast(d, q0 - q);
    }
  }

  /** Minutes, seconds and milliseconds together are the offset into the hour. */
  lemma SubHourDecomposition(t: int)
    ensures MinFromTime(t) * MsPerMinute + SecFromTime(t) * MsPerSecond + MsFromTime(t) == t % MsPerHour
  {
    var c, m, s, ms := t / MsPerHour, MinFromTime(t), SecFromTime(t), MsFromTime(t);
    var a := t / MsPerSecond;
    DivModUnique(a, 60, a / 60, a % 60);
    DivModUnique(t, MsPerMinute, a / 60, (a % 60) * 1000 + ms);
    var b := t / MsPerMinute;
    assert s == a % 60;
    assert b == a / 60;
    DivModUnique(b, 60, b / 60, b % 60);
    var off := m * MsPerMinute + s * MsPerSecond + ms;
    assert t == MsPerHour * (b / 60) + off;
    DivModUnique(t, MsPerHour, b / 60, off);
  }

  /** The standard's field-by-field definition equals the closed form
      `t - t mod day + 12h + t mod hour`. */
  lemma NoonClosedForm(t: int)
    requires InRange(t)
    ensures ToNoon(Ms(t)) == TimeClip(t - t % MsPerDay + NoonHour * MsPerHour + t % MsPerHour)
  {
    SubHourDecomposition(t);
  }

  /** Minutes, seconds and milliseconds are read off the offset into the hour
      alone, so two instants with the same offset agree on all three. */
  lemma SubHourFields(t: int)
    ensures MinFromTime(t) == (t % MsPerHour) / MsPerMinute
    ensures SecFromTime(t) == (t % MsPerHour) % MsPerMinute / MsPerSecond
    ensures MsFromTime(t) == (t % MsPerHour) % MsPerSecond
  {
    var off := t % MsPerHour;
    var m, s, ms := MinFromTime(t), SecFromTime(t), MsFromTime(t);
    SubHourDecomposition(t);
    DivModUnique(off, MsPerMinute, m, s * MsPerSecond + ms);
    DivModUnique(off % MsPerMinute, MsPerSecond, s, ms);
    DivModUnique(off, MsPerSecond, m * 60 + s, ms);
  }

  /** Pinning the hour to noon keeps the UTC day and everything below the
      hour, and the hour then reads 12. It fails only at the very end of the
      time range (see NoonValidity). */
  lemma NoonFields(t: int)
    requires InRange(t) && t != MaxTime
    ensures ToNoon(Ms(t)).Ms?
    ensures var n := ToNoon(Ms(t)).ms;
      && Day(n) == Day(t)
      && HourFromTime(n) == NoonHour
      && n % MsPerHour == t % MsPerHour
      && MinFromTime(n) == MinFromTime(t)
      && SecFromTime(n) == SecFromTime(t)
      && MsFromTime(n) == MsFromTime(t)
  {
    NoonValidity(t);
    NoonClosedForm(t);
    var d, h := Day(t), t % MsPerHour;
    var n := ToNoon(Ms(t)).ms;
    assert n == MsPerDay * d + (NoonHour * MsPerHour + h);
    DivModUnique(n, MsPerDay, d, NoonHour * MsPerHour + h);
    assert n == MsPerHour * (24 * d + NoonHour) + h;
    DivModUnique(n, MsPerHour, 24 * d + NoonHour, h);
    DivModUnique(24 * d + NoonHour, 24, d, NoonHour);
    SubHourFields(t);
    SubHourFields(n);
  }

  /** Within the time range, pinning the hour to noon yields NaN exactly for
      the last representable instant, midnight of day 10^8: its noon lies
      twelve hours beyond the range. */
  lemma NoonValidity(t: int)
    requires InRange(t)
    ensures ToNoon(Ms(t)).NaN? <==> t == MaxTime
  {
    NoonClosedForm(t);
    var d, w := Day(t), t % MsPerDay;
    var h := t % MsPerHour;
    assert t == MsPerDay * d + w;
    if t == MaxTime {
      DivModUnique(t, MsPerDay, 100000000, 0);
      DivModUnique(t, MsPerHour, 2400000000, 0);
    } else {
      assert d < 100000000;
      assert d >= -100000000;
      assert h <= w by {
        DivModUnique(w, MsPerHour, w / MsPerHour, w % MsPerHour);
        DivModUnique(t, MsPerHour, 24 * d + w / MsPerHour, w % MsPerHour);
      }
    }
  }

  /** Applying `setUTCHours(12)` a second time changes nothing. */
  lemma NoonIdempotent(tv: DateValue)
    ensures ToNoon(ToNoon(tv)) == ToNoon(tv)
  {
    if tv.Ms? && ToNoon(tv).Ms? {
      NoonValidity(tv.ms);
      NoonFields(tv.ms);
    }
  }

  /** An ISO date-only value (`YYYY-MM-DD`) parses to midnight UTC of its
      day; setting its hour to 12 moves it exactly twelve hours later. */
  lemma MidnightToNoon(day: int)
    requires -100000000 <= day < 100000000
    ensures ToNoon(Ms(day * MsPerDay)) == Ms(day * MsPerDay + 43200000)
  {
    var t := day * MsPerDay;
    NoonClosedForm(t);
    DivModUnique(t, MsPerDay, day, 0);
    DivModUnique(t, MsPerHour, 24 * day, 0);
  }

  /** The front-matter date 2024-01-05 parses to midnight UTC of day 19727
      and is indexed at 2024-01-05T12:00:00Z. */
  lemma Jan5Example()
    ensures ToNoon(Ms(1704412800000)) == Ms(1704456000000)
    ensures Day(1704456000000) == 19727 && HourFromTime(1704456000000) == NoonHour
  {
    MidnightToNoon(19727);
  }
}
