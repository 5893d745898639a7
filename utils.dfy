/** The helpers of src/utils.ts: the duration formatter, the weekend-skipping
    trading-day search and the hours rounder. src/markets.ts and src/index.ts
    carry private copies of the first two with the same text; they are
    modelled by these. */
module Utils {
  import opened Wrappers
  import opened JsText
  import opened ZonedTime

  // ---------------------------------------------------------------------------
  // formatDuration

  /** The `%` operator of JavaScript on integers: the remainder takes the sign of
      the dividend (truncating division), unlike Dafny's Euclidean `%`. */
  function JsRem(a: int, b: int): (r: int)
    requires b > 0
    ensures a >= 0 ==> r == a % b
    ensures a < 0 ==> -b < r <= 0 && a == -((-a) / b) * b + r
  {
    if a >= 0 then a % b else -((-a) % b)
  }

  /** The template `${hours}:${minutes.padStart(2, "0")}:${seconds.padStart(2, "0")}`. */
  function DurationText(hours: int, minutes: int, seconds: int): string {
    IntToString(hours) + ":" + PadStartZero(IntToString(minutes), 2)
      + ":" + PadStartZero(IntToString(seconds), 2)
  }

  /** formatDuration(ms): `H:MM:SS` built from floor(ms / 1000) whole seconds. The
      floors are Dafny's `/` by a positive constant; the remainders are JavaScript's. */
  function FormatDuration(ms: int): string {
    var totalSeconds := ms / 1000;
    var hours := totalSeconds / 3600;
    var minutes := JsRem(totalSeconds, 3600) / 60;
    var seconds := JsRem(totalSeconds, 60);
    DurationText(hours, minutes, seconds)
  }

  /** Hours, minutes and seconds as a duration string shows them. */
  datatype Hms = Hms(hours: nat, minutes: nat, seconds: nat)

  function TotalSeconds(d: Hms): nat {
    d.hours * 3600 + d.minutes * 60 + d.seconds
  }

  /** Reads a string of the form digits ":" two digits ":" two digits. */
  function ParseDuration(s: string): Option<Hms> {
    var parts := Split(s, ':');
    if |parts| == 3 && |parts[0]| >= 1 && |parts[1]| == 2 && |parts[2]| == 2
       && IsDigits(parts[0]) && IsDigits(parts[1]) && IsDigits(parts[2])
    then Some(Hms(DigitsValue(parts[0]), DigitsValue(parts[1]), DigitsValue(parts[2])))
    else None
  }

  /** For a non-negative duration the string is the unpadded hour count (not capped
      at 24), a colon, the minutes as exactly two digits, a colon and the seconds as
      exactly two digits. */
  lemma FormatDurationLayout(ms: int)
    requires ms >= 0
    ensures var t := ms / 1000;
            var m, s := (t % 3600) / 60, t % 60;
            FormatDuration(ms) == NatToString(t / 3600) + ":" + DigitPair(m) + ":" + DigitPair(s)
  {
    var t := ms / 1000;
    var m, s := (t % 3600) / 60, t % 60;
    assert FormatDuration(ms) == DurationText(t / 3600, m, s);
    assert IntToString(t / 3600) == NatToString(t / 3600);
    assert IntToString(m) == NatToString(m);
    assert IntToString(s) == NatToString(s);
    TwoDigits(m);
    TwoDigits(s);
  }

  lemma DigitsHaveNoColon(s: string)
    requires IsDigits(s)
    ensures ':' !in s
  {
  }

  /** ParseDuration reads each of the three fields of a well-shaped string. */
  lemma ParseDurationFields(h: string, mm: string, ss: string)
    requires |h| >= 1 && |mm| == 2 && |ss| == 2
    requires IsDigits(h) && IsDigits(mm) && IsDigits(ss)
    ensures ParseDuration(h + ":" + mm + ":" + ss)
            == Some(Hms(DigitsValue(h), DigitsValue(mm), DigitsValue(ss)))
  {
    DigitsHaveNoColon(h);
    DigitsHaveNoColon(mm);
    DigitsHaveNoColon(ss);
    SplitNoSeparator(ss, ':');
    SplitFirst(mm, ':', ss);
    assert h + ":" + mm + ":" + ss == h + [':'] + (mm + [':'] + ss);
    SplitFirst(h, ':', mm + [':'] + ss);
    assert Split(h + ":" + mm + ":" + ss, ':') == [h, mm, ss];
  }

  /** Hours, minutes and seconds of a whole number of seconds add back up to it. */
  lemma SecondsSplit(ms: int)
    requires ms >= 0
    ensures var t := ms / 1000;
            && t / 3600 == ms / 3600000
            && (t / 3600) * 3600 + ((t % 3600) / 60) * 60 + t % 60 == t
  {
    var t := ms / 1000;
    DivModOf(t % 3600, 60, (t % 3600) / 60, t % 60);
    DivModOf(ms, 3600000, t / 3600, (t % 3600) * 1000 + ms % 1000);
  }

  /** Round trip: reading the formatted duration back gives minutes and seconds
      below 60, the hour count ms div 3600000, and exactly the whole seconds of the
      input; only the sub-second remainder is lost. */
  lemma FormatDurationReadsBack(ms: int)
    requires ms >= 0
    ensures var p := ParseDuration(FormatDuration(ms));
            && p.Some?
            && p.value.hours == ms / 3600000
            && p.value.minutes < 60 && p.value.seconds < 60
            && TotalSeconds(p.value) == ms / 1000
  {
    FormatDurationLayout(ms);
    var t := ms / 1000;
    var m, s := (t % 3600) / 60, t % 60;
    var h := NatToString(t / 3600);
    ParseDurationFields(h, DigitPair(m), DigitPair(s));
    NatToStringValue(t / 3600);
    DigitPairValue(m);
    DigitPairValue(s);
    SecondsSplit(ms);
  }

  /** formatDuration with its fields evaluated. */
  lemma FormatDurationUnfold(ms: int)
    ensures var t := ms / 1000;
            FormatDuration(ms) == DurationText(t / 3600, JsRem(t, 3600) / 60, JsRem(t, 60))
  {
  }

  lemma FormatDurationOfZero()
    ensures FormatDuration(0) == "0:00:00"
  {
    FormatDurationUnfold(0);
    assert 0 / 1000 == 0 && 0 / 3600 == 0;
    assert JsRem(0, 3600) / 60 == 0 && JsRem(0, 60) == 0;
    assert FormatDuration(0) == DurationText(0, 0, 0);
    ZeroText();
  }

  lemma ZeroText()
    ensures DurationText(0, 0, 0) == "0:00:00"
  {
    assert IntToString(0) == "0";
    assert PadStartZero(IntToString(0), 2) == "00";
    assert DurationText(0, 0, 0) == "0" + ":" + "00" + ":" + "00";
  }

  lemma FormatDurationOfOneHourOneMinuteOneSecond()
    ensures FormatDuration(3661000) == "1:01:01"
  {
    FormatDurationUnfold(3661000);
    assert 3661000 / 1000 == 3661 && 3661 / 3600 == 1;
    assert JsRem(3661, 3600) / 60 == 1 && JsRem(3661, 60) == 1;
    assert FormatDuration(3661000) == DurationText(1, 1, 1);
    OnesText();
  }

  lemma OnesText()
    ensures DurationText(1, 1, 1) == "1:01:01"
  {
    assert IntToString(1) == "1";
    assert PadStartZero(IntToString(1), 2) == "01";
    assert DurationText(1, 1, 1) == "1" + ":" + "01" + ":" + "01";
  }

  /** Hours are not capped at 24. */
  lemma FormatDurationOfTwentyFiveHours()
    ensures FormatDuration(90000000) == "25:00:00"
  {
    FormatDurationUnfold(90000000);
    assert 90000000 / 1000 == 90000 && 90000 / 3600 == 25;
    assert JsRem(90000, 3600) / 60 == 0 && JsRem(90000, 60) == 0;
    assert FormatDuration(90000000) == DurationText(25, 0, 0);
    TwentyFiveHoursText();
  }

  lemma TwentyFiveHoursText()
    ensures DurationText(25, 0, 0) == "25:00:00"
  {
    assert IntToString(25) == "25";
    assert PadStartZero(IntToString(0), 2) == "00";
    assert DurationText(25, 0, 0) == "25" + ":" + "00" + ":" + "00";
  }

  lemma FormatDurationOfSixHours()
    ensures FormatDuration(21600000) == "6:00:00"
  {
    FormatDurationUnfold(21600000);
    assert 21600000 / 1000 == 21600 && 21600 / 3600 == 6;
    assert JsRem(21600, 3600) / 60 == 0 && JsRem(21600, 60) == 0;
    assert FormatDuration(21600000) == DurationText(6, 0, 0);
    SixHoursText();
  }

  lemma SixHoursText()
    ensures DurationText(6, 0, 0) == "6:00:00"
  {
    assert IntToString(6) == "6";
    assert PadStartZero(IntToString(0), 2) == "00";
    assert DurationText(6, 0, 0) == "6" + ":" + "00" + ":" + "00";
  }

  lemma FormatDurationOfFortySevenAndAHalfHours()
    ensures FormatDuration(171000000) == "47:30:00"
  {
    FormatDurationUnfold(171000000);
    assert 171000000 / 1000 == 171000 && 171000 / 3600 == 47;
    assert JsRem(171000, 3600) / 60 == 30 && JsRem(171000, 60) == 0;
    assert FormatDuration(171000000) == DurationText(47, 30, 0);
    FortySevenThirtyText();
  }

  lemma FortySevenThirtyText()
    ensures DurationText(47, 30, 0) == "47:30:00"
  {
    assert IntToString(47) == "47";
    assert IntToString(30) == "30";
    assert PadStartZero(IntToString(30), 2) == "30";
    assert PadStartZero(IntToString(0), 2) == "00";
    assert DurationText(47, 30, 0) == "47" + ":" + "30" + ":" + "00";
  }

  /** A negative input gives negative fields: JavaScript's remainder keeps the sign. */
  lemma FormatDurationOfMinusOneSecond()
    ensures FormatDuration(-1000) == "-1:-1:-1"
  {
    FormatDurationUnfold(-1000);
    assert -1000 / 1000 == -1 && -1 / 3600 == -1;
    assert JsRem(-1, 3600) / 60 == -1 && JsRem(-1, 60) == -1;
    assert FormatDuration(-1000) == DurationText(-1, -1, -1);
    MinusOneText();
  }

  lemma MinusOneText()
    ensures DurationText(-1, -1, -1) == "-1:-1:-1"
  {
    assert IntToString(-1) == "-1";
    assert PadStartZero(IntToString(-1), 2) == "-1";
    assert DurationText(-1, -1, -1) == "-1" + ":" + "-1" + ":" + "-1";
  }

  // ---------------------------------------------------------------------------
  // getNextTradingDay

  /** How many days lie between a weekday and the next Monday-to-Friday day:
      two from a Saturday, one from a Sunday, none from a weekday. */
  function DaysToTradingDay(weekday: int): nat {
    if weekday == 6 then 2 else if weekday == 0 then 1 else 0
  }

  /** The instant getNextTradingDay(date, zone) returns, in closed form. */
  function TradingDayFrom(date: int, off: int): int {
    AddDays(date, DaysToTradingDay(WeekdayOf(ToZoned(date, off))))
  }

  /** The result is `date` moved forward by k <= 2 whole days, every day skipped
      was a local Saturday or Sunday, the day reached is not, and a weekday input
      comes back unchanged. */
  lemma TradingDayFromSkipsWeekend(date: int, off: int)
    ensures var k := DaysToTradingDay(WeekdayOf(ToZoned(date, off)));
            && k <= 2
            && TradingDayFrom(date, off) == AddDays(date, k)
            && DayOf(ToZoned(TradingDayFrom(date, off), off)) == DayOf(ToZoned(date, off)) + k
            && !IsWeekend(ToZoned(TradingDayFrom(date, off), off))
            && (forall j :: 0 <= j < k ==> IsWeekend(ToZoned(AddDays(date, j), off)))
            && (k == 0 <==> !IsWeekend(ToZoned(date, off)))
  {
    var w := ToZoned(date, off);
    var k := DaysToTradingDay(WeekdayOf(w));
    AddDaysFields(w, k);
    assert ToZoned(TradingDayFrom(date, off), off) == AddDays(w, k);
    forall j | 0 <= j < k
      ensures IsWeekend(ToZoned(AddDays(date, j), off))
    {
      AddDaysFields(w, j);
      assert ToZoned(AddDays(date, j), off) == AddDays(w, j);
    }
  }

  /** getNextTradingDay: step one day at a time while the market-local day is a
      Saturday or a Sunday. */
  method GetNextTradingDay(date: int, off: int) returns (nextDay: int)
    ensures nextDay == TradingDayFrom(date, off)
    ensures !IsWeekend(ToZoned(nextDay, off))
  {
    nextDay := date;
    var marketTime := ToZoned(nextDay, off);
    ghost var k := 0;
    while IsWeekend(marketTime)
      invariant marketTime == ToZoned(nextDay, off)
      invariant nextDay == AddDays(date, k)
      invariant k + DaysToTradingDay(WeekdayOf(marketTime))
                == DaysToTradingDay(WeekdayOf(ToZoned(date, off)))
      decreases DaysToTradingDay(WeekdayOf(marketTime))
    {
      AddDaysFields(marketTime, 1);
      nextDay := AddDays(nextDay, 1);
      marketTime := ToZoned(nextDay, off);
      k := k + 1;
    }
  }

  // ---------------------------------------------------------------------------
  // msToHours

  /** msToHours(ms) = Math.round(ms / 3600000 * 10) / 10, as a whole number of
      tenths of an hour: the nearest tenth, halves rounded up. */
  function MsToHours(ms: int): (tenths: int)
    ensures tenths * 360000 - 180000 <= ms < tenths * 360000 + 180000
    ensures ms >= 0 ==> tenths >= 0
  {
    (ms + 180000) / 360000
  }

  /** The rounding above picks exactly one tenth: any tenth within half a tenth
      (below) of the duration is the one msToHours gives. */
  lemma MsToHoursUnique(ms: int, t: int)
    requires t * 360000 - 180000 <= ms < t * 360000 + 180000
    ensures MsToHours(ms) == t
  {
    DivModOf(ms + 180000, 360000, t, ms + 180000 - t * 360000);
  }

  /** Rounding keeps the order of durations. */
  lemma MsToHoursMonotone(a: int, b: int)
    requires a <= b
    ensures MsToHours(a) <= MsToHours(b)
  {
  }

  lemma MsToHoursExamples()
    ensures MsToHours(5400000) == 15
    ensures MsToHours(5430000) == 15
    ensures MsToHours(21600000) == 60
    ensures MsToHours(171000000) == 475
    ensures MsToHours(0) == 0
  {
  }

  /** The text JavaScript gives for the number `tenths / 10` (what `${hoursUntil}`
      prints): no decimal point for whole hours, one decimal otherwise. */
  function TenthsToString(tenths: int): string {
    var a := if tenths < 0 then -tenths else tenths;
    (if tenths < 0 then "-" else "") + NatToString(a / 10)
      + (if a % 10 == 0 then "" else "." + [DigitChar(a % 10)])
  }

  /** Reads a non-negative decimal with at most one digit after the point, in tenths. */
  function ParseTenths(s: string): Option<int> {
    var parts := Split(s, '.');
    if |parts| == 1 && parts[0] != [] && IsDigits(parts[0]) then
      Some(DigitsValue(parts[0]) * 10)
    else if |parts| == 2 && parts[0] != [] && IsDigits(parts[0])
            && |parts[1]| == 1 && IsDigit(parts[1][0]) then
      Some(DigitsValue(parts[0]) * 10 + (parts[1][0] as int - '0' as int))
    else None
  }

  lemma DigitsHaveNoPoint(s: string)
    requires IsDigits(s)
    ensures '.' !in s
  {
  }

  /** Round trip: the printed number of hours reads back as the same tenths. */
  lemma TenthsToStringReadsBack(tenths: int)
    requires tenths >= 0
    ensures ParseTenths(TenthsToString(tenths)) == Some(tenths)
  {
    var h := NatToString(tenths / 10);
    NatToStringValue(tenths / 10);
    DigitsHaveNoPoint(h);
    if tenths % 10 == 0 {
      assert TenthsToString(tenths) == h;
      SplitNoSeparator(h, '.');
    } else {
      var d := [DigitChar(tenths % 10)];
      assert TenthsToString(tenths) == h + ['.'] + d;
      DigitsHaveNoPoint(d);
      SplitFirst(h, '.', d);
      SplitNoSeparator(d, '.');
      assert Split(h + ['.'] + d, '.') == [h, d];
    }
  }

  lemma TenthsToStringExamples()
    ensures TenthsToString(15) == "1.5"
    ensures TenthsToString(60) == "6"
    ensures TenthsToString(475) == "47.5"
    ensures TenthsToString(0) == "0"
  {
    assert NatToString(47) == "47";
  }
}
