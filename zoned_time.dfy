/** A fixed-offset model of the date-fns / date-fns-tz calls the resolver makes.

    An instant is a whole number of milliseconds since 1970-01-01T00:00:00Z. A
    "zoned" date, as date-fns-tz's toZonedTime produces it, is modelled by its
    wall-clock reading: the instant shifted by the zone's UTC offset. Every
    calendar field (day, weekday, hour, ...) of a zoned date is then read off that
    wall-clock number exactly as JavaScript reads the fields of a Date. */
module ZonedTime {

  const MS_PER_SECOND: int := 1000
  const MS_PER_MINUTE: int := 60000
  const MS_PER_HOUR: int := 3600000
  const MS_PER_DAY: int := 86400000

  /** toZonedTime(t, zone): the wall clock of `t` in a zone `off` ms ahead of UTC. */
  function ToZoned(t: int, off: int): int { t + off }

  /** fromZonedTime(w, zone): the instant whose wall clock in the zone is `w`. */
  function FromZoned(w: int, off: int): int { w - off }

  /** Number of the calendar day a wall clock falls on (day 0 is 1970-01-01). */
  function DayOf(w: int): int { w / MS_PER_DAY }

  /** Milliseconds elapsed since the start of that calendar day. */
  function MsOfDay(w: int): int { w % MS_PER_DAY }

  /** Whole seconds elapsed since the start of that calendar day. */
  function SecondOfDay(w: int): (s: int)
    ensures 0 <= s < 86400
  {
    MsOfDay(w) / MS_PER_SECOND
  }

  /** Date.prototype.getDay: 0 is Sunday, ..., 6 is Saturday; day 0 was a Thursday. */
  function WeekdayOf(w: int): (d: int)
    ensures 0 <= d < 7
  {
    (DayOf(w) + 4) % 7
  }

  /** date-fns isWeekend: the day is a Saturday or a Sunday. */
  predicate IsWeekend(w: int) {
    WeekdayOf(w) == 0 || WeekdayOf(w) == 6
  }

  /** date-fns addDays. With a fixed offset every day lasts exactly 24 hours. */
  function AddDays(t: int, n: int): int { t + n * MS_PER_DAY }

  /** date-fns setHours: replace the hour, keep minutes, seconds and milliseconds. */
  function SetHours(w: int, h: int): int {
    DayOf(w) * MS_PER_DAY + h * MS_PER_HOUR + w % MS_PER_HOUR
  }

  /** date-fns setMinutes: replace the minute, keep the hour, seconds and milliseconds. */
  function SetMinutes(w: int, m: int): int {
    (w / MS_PER_HOUR) * MS_PER_HOUR + m * MS_PER_MINUTE + w % MS_PER_MINUTE
  }

  /** date-fns setSeconds: replace the second, keep everything else, milliseconds included. */
  function SetSeconds(w: int, s: int): int {
    (w / MS_PER_MINUTE) * MS_PER_MINUTE + s * MS_PER_SECOND + w % MS_PER_SECOND
  }

  /** The resolver's idiom setSeconds(setMinutes(setHours(w, h), m), 0). */
  function AtTimeOfDay(w: int, h: int, m: int): int {
    SetSeconds(SetMinutes(SetHours(w, h), m), 0)
  }

  lemma DivModOf(x: int, c: int, q: int, r: int)
    requires 0 < c && x == q * c + r && 0 <= r < c
    ensures x / c == q && x % c == r
  {
    var q', r' := x / c, x % c;
    assert (q - q') * c == r' - r;
    if q > q' {
      MulAtLeast(q - q', c);
    } else if q < q' {
      MulAtLeast(q' - q, c);
    }
  }

  lemma MulAtLeast(a: int, c: int)
    requires a >= 1 && c > 0
    ensures a * c >= c
  {
  }

  /** The three setters together keep the calendar day and the milliseconds of the
      second, and put the clock at h:m:00. */
  lemma AtTimeOfDayValue(w: int, h: int, m: int)
    ensures AtTimeOfDay(w, h, m)
         == DayOf(w) * MS_PER_DAY + h * MS_PER_HOUR + m * MS_PER_MINUTE + w % MS_PER_SECOND
  {
    var x := SetHours(w, h);
    SetHoursValue(w, h);
    SetMinutesValue(x, m);
  }

  /** setHours leaves the hour count at day * 24 + h and keeps the millisecond of the second. */
  lemma SetHoursValue(w: int, h: int)
    ensures SetHours(w, h) / MS_PER_HOUR == DayOf(w) * 24 + h
    ensures SetHours(w, h) % MS_PER_SECOND == w % MS_PER_SECOND
  {
    var x, rh := SetHours(w, h), w % MS_PER_HOUR;
    DivModOf(x, MS_PER_HOUR, DayOf(w) * 24 + h, rh);
    DivModOf(rh, MS_PER_SECOND, rh / MS_PER_SECOND, rh % MS_PER_SECOND);
    DivModOf(x, MS_PER_SECOND, (DayOf(w) * 24 + h) * 3600 + rh / MS_PER_SECOND, rh % MS_PER_SECOND);
    RemOfHourRem(w);
  }

  /** setMinutes then setSeconds(_, 0) put the clock at minute m of the hour and keep
      the millisecond of the second. */
  lemma SetMinutesValue(x: int, m: int)
    ensures SetSeconds(SetMinutes(x, m), 0)
         == ((x / MS_PER_HOUR) * 60 + m) * MS_PER_MINUTE + x % MS_PER_SECOND
  {
    var y, rm := SetMinutes(x, m), x % MS_PER_MINUTE;
    DivModOf(y, MS_PER_MINUTE, (x / MS_PER_HOUR) * 60 + m, rm);
    DivModOf(rm, MS_PER_SECOND, rm / MS_PER_SECOND, rm % MS_PER_SECOND);
    DivModOf(y, MS_PER_SECOND, ((x / MS_PER_HOUR) * 60 + m) * 60 + rm / MS_PER_SECOND, rm % MS_PER_SECOND);
    RemOfMinuteRem(x);
  }

  lemma RemOfHourRem(w: int)
    ensures (w % MS_PER_HOUR) % MS_PER_SECOND == w % MS_PER_SECOND
  {
    var rh := w % MS_PER_HOUR;
    DivModOf(rh, MS_PER_SECOND, rh / MS_PER_SECOND, rh % MS_PER_SECOND);
    DivModOf(w, MS_PER_SECOND, (w / MS_PER_HOUR) * 3600 + rh / MS_PER_SECOND, rh % MS_PER_SECOND);
  }

  lemma RemOfMinuteRem(w: int)
    ensures (w % MS_PER_MINUTE) % MS_PER_SECOND == w % MS_PER_SECOND
  {
    var rm := w % MS_PER_MINUTE;
    DivModOf(rm, MS_PER_SECOND, rm / MS_PER_SECOND, rm % MS_PER_SECOND);
    DivModOf(w, MS_PER_SECOND, (w / MS_PER_MINUTE) * 60 + rm / MS_PER_SECOND, rm % MS_PER_SECOND);
  }

  /** A wall clock splits into its day, its second of the day and its millisecond. */
  lemma WallClockParts(w: int)
    ensures w == DayOf(w) * MS_PER_DAY + SecondOfDay(w) * MS_PER_SECOND + w % MS_PER_SECOND
  {
    var r := MsOfDay(w);
    DivModOf(r, MS_PER_SECOND, r / MS_PER_SECOND, r % MS_PER_SECOND);
    DivModOf(w, MS_PER_SECOND, DayOf(w) * 86400 + r / MS_PER_SECOND, r % MS_PER_SECOND);
  }

  /** Reading the fields of a wall clock given as day, second of day and millisecond. */
  lemma FieldsOf(w: int, d: int, s: int, ms: int)
    requires 0 <= s < 86400 && 0 <= ms < MS_PER_SECOND
    requires w == d * MS_PER_DAY + s * MS_PER_SECOND + ms
    ensures DayOf(w) == d && SecondOfDay(w) == s && w % MS_PER_SECOND == ms
  {
    DivModOf(w, MS_PER_DAY, d, s * MS_PER_SECOND + ms);
    DivModOf(s * MS_PER_SECOND + ms, MS_PER_SECOND, s, ms);
    DivModOf(w, MS_PER_SECOND, d * 86400 + s, ms);
  }

  /** Adding n days moves the calendar day by n and the weekday by n (mod 7). */
  lemma AddDaysFields(w: int, n: int)
    ensures DayOf(AddDays(w, n)) == DayOf(w) + n
    ensures MsOfDay(AddDays(w, n)) == MsOfDay(w)
    ensures WeekdayOf(AddDays(w, n)) == (WeekdayOf(w) + n) % 7
    ensures AddDays(w, n) % MS_PER_SECOND == w % MS_PER_SECOND
  {
    DivModOf(AddDays(w, n), MS_PER_DAY, DayOf(w) + n, MsOfDay(w));
    var k := (DayOf(w) + 4) / 7;
    DivModOf(DayOf(w) + 4 + n, 7, k + (WeekdayOf(w) + n) / 7, (WeekdayOf(w) + n) % 7);
    DivModOf(w, MS_PER_SECOND, w / MS_PER_SECOND, w % MS_PER_SECOND);
    DivModOf(AddDays(w, n), MS_PER_SECOND, w / MS_PER_SECOND + n * 86400, w % MS_PER_SECOND);
  }
}
