/** The resolver of src/markets.ts: for an exchange code, a viewer timezone and
    the current instant it decides whether the exchange is open now and, if not,
    when it next opens; it renders that as text and gathers one status per
    requested exchange into a report.

    `now`, the zone offsets and the date formatter are parameters: `offsetOf`
    gives the fixed UTC offset (in ms) of a zone name, and `stamp` stands for
    date-fns `format`, applied to a viewer wall clock. */
module Markets {
  import opened Wrappers
  import opened JsText
  import opened ZonedTime
  import opened Utils
  import Config

  // ---------------------------------------------------------------------------
  // The table

  /** The table markets.ts keeps for itself; it is the registry of config.ts entry for entry. */
  const MARKETS: map<string, Config.MarketConfig> := map[
    "NYSE" := Config.MarketConfig("New York Stock Exchange", "America/New_York", 9, 30, 16, 0),
    "NASDAQ" := Config.MarketConfig("NASDAQ", "America/New_York", 9, 30, 16, 0),
    "LSE" := Config.MarketConfig("London Stock Exchange", "Europe/London", 8, 0, 16, 30),
    "JPX" := Config.MarketConfig("Tokyo Stock Exchange", "Asia/Tokyo", 9, 0, 15, 0),
    "XETRA" := Config.MarketConfig("Frankfurt Stock Exchange", "Europe/Berlin", 9, 0, 17, 30),
    "HKEX" := Config.MarketConfig("Hong Kong Stock Exchange", "Asia/Hong_Kong", 9, 30, 16, 0),
    "ASX" := Config.MarketConfig("Australian Securities Exchange", "Australia/Sydney", 10, 0, 16, 0),
    "TSX" := Config.MarketConfig("Toronto Stock Exchange", "America/Toronto", 9, 30, 16, 0)
  ]

  /** The two copies of the table agree, so every entry here is well formed. */
  lemma TableMatchesRegistry()
    ensures MARKETS == Config.MARKETS
    ensures forall code :: code in MARKETS ==> Config.WellFormed(MARKETS[code])
  {
    Config.RegistryWellFormed();
  }

  // ---------------------------------------------------------------------------
  // The status record

  /** MarketStatus, by the three shapes getMarketStatus returns. `closesAt` and
      `nextOpen` are wall clocks in the viewer's zone (what `format` is applied to).
      A record keeps the wait in milliseconds it was built from; its text fields
      `timeUntilOpen` / `timeUntilClose` and its `hoursUntil` (in tenths of an
      hour) are formatDuration and the hours rounding of that wait. */
  datatype MarketStatus =
    | Open(exchange: string, name: string, closesAt: int, msUntilClose: int)
    | Closed(exchange: string, name: string, nextOpen: int, msUntilOpen: int)
    | UnknownExchange(exchange: string)
  {
    /** The `status` field. */
    function Status(): string { if Open? then "open" else "closed" }

    /** The `name` field. */
    function DisplayName(): string { if UnknownExchange? then "Unknown" else name }

    /** The optional `nextOpen` field. */
    function NextOpenField(): Option<int> { if Closed? then Some(nextOpen) else None }

    /** The optional `closesAt` field. */
    function ClosesAtField(): Option<int> { if Open? then Some(closesAt) else None }

    /** The optional `timeUntilOpen` field. */
    function TimeUntilOpenField(): Option<string> {
      match this
      case Closed(_, _, _, ms) => Some(FormatDuration(ms))
      case UnknownExchange(_) => Some("Unknown exchange")
      case Open(_, _, _, _) => None
    }

    /** The optional `timeUntilClose` field. */
    function TimeUntilCloseField(): Option<string> {
      if Open? then Some(FormatDuration(msUntilClose)) else None
    }

    /** The optional `hoursUntil` field, in tenths of an hour. */
    function HoursUntilField(): Option<int> {
      match this
      case Open(_, _, _, ms) => Some(MsToHours(ms))
      case Closed(_, _, _, ms) => Some(MsToHours(ms))
      case UnknownExchange(_) => None
    }
  }

  // ---------------------------------------------------------------------------
  // Today's session

  /** Seconds after local midnight at which the session opens and closes. */
  function OpenSecond(m: Config.MarketConfig): int { Config.OpenMinuteOfDay(m) * 60 }

  function CloseSecond(m: Config.MarketConfig): int { Config.CloseMinuteOfDay(m) * 60 }

  /** marketOpenUTC: the opening time on the market-local day of `now`. */
  function OpenInstant(m: Config.MarketConfig, off: int, now: int): int {
    FromZoned(AtTimeOfDay(ToZoned(now, off), m.openHour, m.openMinute), off)
  }

  /** marketCloseUTC: the closing time on the market-local day of `now`. */
  function CloseInstant(m: Config.MarketConfig, off: int, now: int): int {
    FromZoned(AtTimeOfDay(ToZoned(now, off), m.closeHour, m.closeMinute), off)
  }

  /** The condition for the open branch. */
  predicate IsOpenAt(m: Config.MarketConfig, off: int, now: int) {
    !IsWeekend(ToZoned(now, off)) && OpenInstant(m, off, now) <= now < CloseInstant(m, off, now)
  }

  /** Today's opening and closing instants sit at the session's second of the day,
      with the millisecond of `now`; comparing `now` to them compares seconds of the day. */
  lemma SessionBounds(m: Config.MarketConfig, off: int, now: int)
    ensures var w := ToZoned(now, off);
            && ToZoned(OpenInstant(m, off, now), off)
               == DayOf(w) * MS_PER_DAY + OpenSecond(m) * MS_PER_SECOND + w % MS_PER_SECOND
            && ToZoned(CloseInstant(m, off, now), off)
               == DayOf(w) * MS_PER_DAY + CloseSecond(m) * MS_PER_SECOND + w % MS_PER_SECOND
            && (OpenInstant(m, off, now) <= now <==> OpenSecond(m) <= SecondOfDay(w))
            && (now < CloseInstant(m, off, now) <==> SecondOfDay(w) < CloseSecond(m))
  {
    var w := ToZoned(now, off);
    AtTimeOfDayValue(w, m.openHour, m.openMinute);
    AtTimeOfDayValue(w, m.closeHour, m.closeMinute);
    WallClockParts(w);
  }

  /** The market is open exactly on local Monday to Friday, from the opening second
      (included) to the closing second (excluded). */
  lemma OpenIffInSession(m: Config.MarketConfig, off: int, now: int)
    ensures var w := ToZoned(now, off);
            IsOpenAt(m, off, now)
            <==> (1 <= WeekdayOf(w) <= 5 && OpenSecond(m) <= SecondOfDay(w) < CloseSecond(m))
  {
    SessionBounds(m, off, now);
  }

  /** At the opening second of a weekday the market is open; at the closing second it is not. */
  lemma SessionEdges(m: Config.MarketConfig, off: int, now: int)
    requires Config.WellFormed(m)
    requires 1 <= WeekdayOf(ToZoned(now, off)) <= 5
    ensures SecondOfDay(ToZoned(now, off)) == OpenSecond(m) ==> IsOpenAt(m, off, now)
    ensures SecondOfDay(ToZoned(now, off)) == CloseSecond(m) ==> !IsOpenAt(m, off, now)
  {
    OpenIffInSession(m, off, now);
  }

  // ---------------------------------------------------------------------------
  // The next opening

  /** nextOpenDate as src/markets.ts:170-199 computes it once the open branch is not taken. */
  function NextOpenInstant(m: Config.MarketConfig, off: int, now: int): int {
    var w := ToZoned(now, off);
    if IsWeekend(w) then
      var daysToAdd := if WeekdayOf(w) == 0 then 1 else 2;
      FromZoned(AtTimeOfDay(AddDays(w, daysToAdd), m.openHour, m.openMinute), off)
    else if now >= CloseInstant(m, off, now) then
      var nextTradingDay := TradingDayFrom(AddDays(now, 1), off);
      FromZoned(AtTimeOfDay(ToZoned(nextTradingDay, off), m.openHour, m.openMinute), off)
    else
      OpenInstant(m, off, now)
  }

  /** The value src/markets.ts:172-183 gives before the weekend override at 185-196 replaces it. */
  function TradingDayOpen(m: Config.MarketConfig, off: int, now: int): int {
    var w := ToZoned(now, off);
    var tomorrow := AddDays(now, if IsWeekend(w) then 0 else 1);
    FromZoned(AtTimeOfDay(ToZoned(TradingDayFrom(tomorrow, off), off), m.openHour, m.openMinute), off)
  }

  /** Reference definition: how many calendar days after the local day of `w` the
      market next opens, read off the weekday and the time of day. */
  function DaysUntilNextOpen(m: Config.MarketConfig, w: int): nat {
    var wd := WeekdayOf(w);
    if wd == 6 then 2
    else if wd == 0 then 1
    else if SecondOfDay(w) < OpenSecond(m) then 0
    else if wd == 5 then 3
    else 1
  }

  lemma WeekdayShift(d: int, k: int)
    requires 0 <= k
    ensures (d + k + 4) % 7 == ((d + 4) % 7 + k) % 7
  {
    var wd := (d + 4) % 7;
    DivModOf(d + 4, 7, (d + 4) / 7, wd);
    DivModOf(d + k + 4, 7, (d + 4) / 7 + (wd + k) / 7, (wd + k) % 7);
  }

  /** On a closed market the next opening is at the opening second of the day
      DaysUntilNextOpen days on, keeping the millisecond of `now`. */
  lemma NextOpenShape(m: Config.MarketConfig, off: int, now: int)
    requires Config.WellFormed(m) && !IsOpenAt(m, off, now)
    ensures var w := ToZoned(now, off);
            ToZoned(NextOpenInstant(m, off, now), off)
            == (DayOf(w) + DaysUntilNextOpen(m, w)) * MS_PER_DAY
               + OpenSecond(m) * MS_PER_SECOND + w % MS_PER_SECOND
  {
    var w := ToZoned(now, off);
    SessionBounds(m, off, now);
    OpenIffInSession(m, off, now);
    if IsWeekend(w) {
      NextOpenOnWeekend(m, off, now);
    } else if now >= CloseInstant(m, off, now) {
      NextOpenAfterClose(m, off, now);
    }
  }

  lemma NextOpenOnWeekend(m: Config.MarketConfig, off: int, now: int)
    requires IsWeekend(ToZoned(now, off))
    ensures var w := ToZoned(now, off);
            ToZoned(NextOpenInstant(m, off, now), off)
            == (DayOf(w) + DaysUntilNextOpen(m, w)) * MS_PER_DAY
               + OpenSecond(m) * MS_PER_SECOND + w % MS_PER_SECOND
  {
    var w := ToZoned(now, off);
    var k := if WeekdayOf(w) == 0 then 1 else 2;
    AddDaysFields(w, k);
    AtTimeOfDayValue(AddDays(w, k), m.openHour, m.openMinute);
  }

  lemma NextOpenAfterClose(m: Config.MarketConfig, off: int, now: int)
    requires !IsWeekend(ToZoned(now, off)) && now >= CloseInstant(m, off, now)
    requires SecondOfDay(ToZoned(now, off)) >= OpenSecond(m)
    ensures var w := ToZoned(now, off);
            ToZoned(NextOpenInstant(m, off, now), off)
            == (DayOf(w) + DaysUntilNextOpen(m, w)) * MS_PER_DAY
               + OpenSecond(m) * MS_PER_SECOND + w % MS_PER_SECOND
  {
    var w := ToZoned(now, off);
    var tomorrow := AddDays(now, 1);
    AddDaysFields(w, 1);
    assert ToZoned(tomorrow, off) == AddDays(w, 1);
    var j := DaysToTradingDay(WeekdayOf(AddDays(w, 1)));
    assert TradingDayFrom(tomorrow, off) == AddDays(now, 1 + j);
    var n := ToZoned(AddDays(now, 1 + j), off);
    assert n == AddDays(w, 1 + j);
    AddDaysFields(w, 1 + j);
    AtTimeOfDayValue(n, m.openHour, m.openMinute);
    assert WeekdayOf(w) == 5 ==> j == 2;
    assert WeekdayOf(w) != 5 ==> j == 0;
  }

  /** The override at src/markets.ts:185-196 changes nothing: on a weekend the trading-day
      search already lands on the coming Monday. */
  lemma WeekendOverrideAgrees(m: Config.MarketConfig, off: int, now: int)
    requires IsWeekend(ToZoned(now, off))
    ensures TradingDayOpen(m, off, now) == NextOpenInstant(m, off, now)
  {
    var w := ToZoned(now, off);
    assert AddDays(now, 0) == now;
    assert ToZoned(TradingDayFrom(now, off), off) == AddDays(w, DaysToTradingDay(WeekdayOf(w)));
  }

  /** The weekday DaysUntilNextOpen leads to is Monday to Friday; it is a Monday
      when the start is a weekend day or a Friday past the opening second. */
  lemma NextOpenWeekday(m: Config.MarketConfig, w: int)
    ensures var wd := WeekdayOf(w);
            var v := (wd + DaysUntilNextOpen(m, w)) % 7;
            && 1 <= v <= 5
            && (wd == 0 || wd == 6 || (wd == 5 && SecondOfDay(w) >= OpenSecond(m)) ==> v == 1)
            && (1 <= wd <= 5 && SecondOfDay(w) < OpenSecond(m) ==> v == wd)
  {
  }

  /** The local wall clock of the next opening, field by field. */
  lemma NextOpenFields(m: Config.MarketConfig, off: int, now: int)
    requires Config.WellFormed(m) && !IsOpenAt(m, off, now)
    ensures var w := ToZoned(now, off);
            var n := ToZoned(NextOpenInstant(m, off, now), off);
            && DayOf(n) == DayOf(w) + DaysUntilNextOpen(m, w)
            && SecondOfDay(n) == OpenSecond(m)
            && WeekdayOf(n) == (WeekdayOf(w) + DaysUntilNextOpen(m, w)) % 7
  {
    var w := ToZoned(now, off);
    var n := ToZoned(NextOpenInstant(m, off, now), off);
    var k := DaysUntilNextOpen(m, w);
    NextOpenShape(m, off, now);
    assert 0 <= w % MS_PER_SECOND < MS_PER_SECOND;
    FieldsOf(n, DayOf(w) + k, OpenSecond(m), w % MS_PER_SECOND);
    WeekdayShift(DayOf(w), k);
  }

  /** The next opening falls on a Monday-to-Friday day, on a Monday when `now` is
      in a weekend or on a Friday after the close, and the market is open then. */
  lemma NextOpenIsOpen(m: Config.MarketConfig, off: int, now: int)
    requires Config.WellFormed(m) && !IsOpenAt(m, off, now)
    ensures var w := ToZoned(now, off);
            var n := ToZoned(NextOpenInstant(m, off, now), off);
            && DayOf(n) == DayOf(w) + DaysUntilNextOpen(m, w)
            && SecondOfDay(n) == OpenSecond(m)
            && (IsWeekend(w) || (WeekdayOf(w) == 5 && SecondOfDay(w) >= OpenSecond(m))
                ==> WeekdayOf(n) == 1)
            && IsOpenAt(m, off, NextOpenInstant(m, off, now))
  {
    var w, next := ToZoned(now, off), NextOpenInstant(m, off, now);
    var n := ToZoned(next, off);
    NextOpenFields(m, off, now);
    NextOpenWeekday(m, w);
    assert 1 <= WeekdayOf(n) <= 5 && OpenSecond(m) <= SecondOfDay(n) < CloseSecond(m);
    OpenIffInSession(m, off, next);
  }

  /** Nothing opens earlier: from `now` up to the next opening (less the
      millisecond of `now` the setters carry along), the market stays closed. */
  lemma NoOpeningBeforeNextOpen(m: Config.MarketConfig, off: int, now: int, t: int)
    requires Config.WellFormed(m) && !IsOpenAt(m, off, now)
    requires now <= t < NextOpenInstant(m, off, now) - ToZoned(now, off) % MS_PER_SECOND
    ensures !IsOpenAt(m, off, t)
  {
    var w, u := ToZoned(now, off), ToZoned(t, off);
    NextOpenShape(m, off, now);
    OpenIffInSession(m, off, now);
    ClosedUntilNextOpen(m, w, u);
    OpenIffInSession(m, off, t);
  }

  /** The same on wall clocks: closed at `w`, closed at every `u` from `w` up to
      the opening second of the day of the next opening. */
  lemma ClosedUntilNextOpen(m: Config.MarketConfig, w: int, u: int)
    requires Config.WellFormed(m)
    requires !(1 <= WeekdayOf(w) <= 5 && OpenSecond(m) <= SecondOfDay(w) < CloseSecond(m))
    requires w <= u < (DayOf(w) + DaysUntilNextOpen(m, w)) * MS_PER_DAY + OpenSecond(m) * MS_PER_SECOND
    ensures !(1 <= WeekdayOf(u) <= 5 && OpenSecond(m) <= SecondOfDay(u) < CloseSecond(m))
  {
    WallClockBetween(m, w, u);
    SkippedDayClosed(m, w, DayOf(u) - DayOf(w), SecondOfDay(u));
  }

  /** A wall clock `u` from `w` up to the opening second of the day of the next
      opening lies j days on, with the weekday j on. */
  lemma WallClockBetween(m: Config.MarketConfig, w: int, u: int)
    requires Config.WellFormed(m)
    requires w <= u < (DayOf(w) + DaysUntilNextOpen(m, w)) * MS_PER_DAY + OpenSecond(m) * MS_PER_SECOND
    ensures var j := DayOf(u) - DayOf(w);
            && 0 <= j <= DaysUntilNextOpen(m, w)
            && (j == DaysUntilNextOpen(m, w) ==> SecondOfDay(u) < OpenSecond(m))
            && (j == 0 ==> SecondOfDay(u) >= SecondOfDay(w))
            && WeekdayOf(u) == (WeekdayOf(w) + j) % 7
  {
    WallClockParts(w);
    WallClockParts(u);
    assert DayOf(w) <= DayOf(u) <= DayOf(w) + DaysUntilNextOpen(m, w);
    WeekdayShift(DayOf(w), DayOf(u) - DayOf(w));
  }

  /** The days strictly between the start and the day of the next opening are
      weekend days, the day of the next opening is closed before the opening
      second, and the start day stays closed from the start on. */
  lemma SkippedDayClosed(m: Config.MarketConfig, w: int, j: int, s: int)
    requires Config.WellFormed(m) && 0 <= j <= DaysUntilNextOpen(m, w)
    requires !(1 <= WeekdayOf(w) <= 5 && OpenSecond(m) <= SecondOfDay(w) < CloseSecond(m))
    requires j == DaysUntilNextOpen(m, w) ==> s < OpenSecond(m)
    requires j == 0 ==> s >= SecondOfDay(w)
    ensures var v := (WeekdayOf(w) + j) % 7;
            !(1 <= v <= 5 && OpenSecond(m) <= s < CloseSecond(m))
  {
  }

  /** How long until the next opening: positive, under three days, whole seconds. */
  lemma NextOpenWait(m: Config.MarketConfig, off: int, now: int)
    requires Config.WellFormed(m) && !IsOpenAt(m, off, now)
    ensures var ms := NextOpenInstant(m, off, now) - now;
            0 < ms < 3 * MS_PER_DAY && ms % MS_PER_SECOND == 0
  {
    var w := ToZoned(now, off);
    var k := DaysUntilNextOpen(m, w);
    NextOpenShape(m, off, now);
    WallClockParts(w);
    OpenIffInSession(m, off, now);
    var ms := NextOpenInstant(m, off, now) - now;
    assert ms == (k * 86400 + OpenSecond(m) - SecondOfDay(w)) * MS_PER_SECOND;
    DivModOf(ms, MS_PER_SECOND, k * 86400 + OpenSecond(m) - SecondOfDay(w), 0);
  }

  // ---------------------------------------------------------------------------
  // getMarketStatus

  /** The status of a listed exchange, by the branches of getMarketStatus. */
  function StatusFor(code: string, m: Config.MarketConfig, off: int, viewerOff: int, now: int): MarketStatus {
    if IsOpenAt(m, off, now) then
      Open(code, m.name, ToZoned(CloseInstant(m, off, now), viewerOff), CloseInstant(m, off, now) - now)
    else
      Closed(code, m.name, ToZoned(NextOpenInstant(m, off, now), viewerOff), NextOpenInstant(m, off, now) - now)
  }

  /** What getMarketStatus(code, viewerTz) returns when the clock reads `now`. */
  function Resolve(code: string, viewerTz: string, now: int, offsetOf: string -> int): MarketStatus {
    if code in MARKETS then
      StatusFor(code, MARKETS[code], offsetOf(MARKETS[code].timezone), offsetOf(viewerTz), now)
    else
      UnknownExchange(code)
  }

  /** src/markets.ts:170-199 of getMarketStatus: the next opening once the open branch is
      not taken. After the close (or on a weekend) it looks for the next trading
      day from tomorrow (from today on a weekend), then on a weekend replaces that
      by the opening on the coming Monday; before the opening it is today's. */
  method NextOpenDate(market: Config.MarketConfig, marketTz: int, now: int, nowInMarketTz: int,
                      marketOpenUTC: int, marketCloseUTC: int, isMarketWeekend: bool)
    returns (nextOpenDate: int)
    requires nowInMarketTz == ToZoned(now, marketTz) && isMarketWeekend == IsWeekend(nowInMarketTz)
    requires marketOpenUTC == OpenInstant(market, marketTz, now)
    requires marketCloseUTC == CloseInstant(market, marketTz, now)
    ensures nextOpenDate == NextOpenInstant(market, marketTz, now)
  {
    if isMarketWeekend || now >= marketCloseUTC {
      var tomorrow := AddDays(now, if isMarketWeekend then 0 else 1);
      var nextTradingDay := GetNextTradingDay(tomorrow, marketTz);
      var nextDayInMarketTz := ToZoned(nextTradingDay, marketTz);
      var nextOpen := SetSeconds(SetMinutes(SetHours(nextDayInMarketTz, market.openHour), market.openMinute), 0);
      nextOpenDate := FromZoned(nextOpen, marketTz);
      if isMarketWeekend {
        var daysToAdd := if WeekdayOf(nowInMarketTz) == 0 then 1 else 2;
        var mondayInMarketTz := AddDays(nowInMarketTz, daysToAdd);
        var mondayOpen := SetSeconds(SetMinutes(SetHours(mondayInMarketTz, market.openHour), market.openMinute), 0);
        nextOpenDate := FromZoned(mondayOpen, marketTz);
      }
    } else {
      nextOpenDate := marketOpenUTC;
    }
  }

  /** getMarketStatus, step by step: today's session from the setters, the open
      branch, then the trading-day search and the weekend override. */
  method GetMarketStatus(exchangeCode: string, userTimezone: string, now: int, offsetOf: string -> int)
    returns (status: MarketStatus)
    ensures status == Resolve(exchangeCode, userTimezone, now, offsetOf)
  {
    if exchangeCode !in MARKETS {
      return UnknownExchange(exchangeCode);
    }
    var market := MARKETS[exchangeCode];
    var marketTz := offsetOf(market.timezone);
    var userTz := offsetOf(userTimezone);
    ResolveListed(exchangeCode, userTimezone, now, offsetOf);
    var nowInMarketTz := ToZoned(now, marketTz);
    var marketOpenToday := SetSeconds(SetMinutes(SetHours(nowInMarketTz, market.openHour), market.openMinute), 0);
    var marketCloseToday := SetSeconds(SetMinutes(SetHours(nowInMarketTz, market.closeHour), market.closeMinute), 0);
    var marketOpenUTC := FromZoned(marketOpenToday, marketTz);
    var marketCloseUTC := FromZoned(marketCloseToday, marketTz);
    var isMarketWeekend := IsWeekend(nowInMarketTz);
    assert marketOpenUTC == OpenInstant(market, marketTz, now);
    assert marketCloseUTC == CloseInstant(market, marketTz, now);

    if !isMarketWeekend && now >= marketOpenUTC && now < marketCloseUTC {
      var msUntilClose := marketCloseUTC - now;
      var closeInUserTz := ToZoned(marketCloseUTC, userTz);
      return Open(exchangeCode, market.name, closeInUserTz, msUntilClose);
    }

    var nextOpenDate := NextOpenDate(market, marketTz, now, nowInMarketTz, marketOpenUTC, marketCloseUTC, isMarketWeekend);
    var msUntilOpen := nextOpenDate - now;
    var nextOpenInUserTz := ToZoned(nextOpenDate, userTz);
    return Closed(exchangeCode, market.name, nextOpenInUserTz, msUntilOpen);
  }

  /** An unlisted code gives the placeholder: closed, named "Unknown", with the
      text "Unknown exchange" and none of the other optional fields. */
  lemma ResolveUnknown(code: string, viewerTz: string, now: int, offsetOf: string -> int)
    requires code !in MARKETS
    ensures var r := Resolve(code, viewerTz, now, offsetOf);
            && r == UnknownExchange(code)
            && r.Status() == "closed" && r.DisplayName() == "Unknown"
            && r.TimeUntilOpenField() == Some("Unknown exchange")
            && r.NextOpenField() == None && r.ClosesAtField() == None
            && r.TimeUntilCloseField() == None && r.HoursUntilField() == None
  {
  }

  /** A listed exchange is reported open exactly when its session is on. */
  lemma ResolveOpenIff(code: string, viewerTz: string, now: int, offsetOf: string -> int)
    requires code in MARKETS
    ensures var m := MARKETS[code];
            var w := ToZoned(now, offsetOf(m.timezone));
            Resolve(code, viewerTz, now, offsetOf).Status() == "open"
            <==> (1 <= WeekdayOf(w) <= 5 && OpenSecond(m) <= SecondOfDay(w) < CloseSecond(m))
  {
    OpenIffInSession(MARKETS[code], offsetOf(MARKETS[code].timezone), now);
  }

  /** The open branch: the wait for the close is positive, whole seconds and no
      longer than the session; the fields hold it in both forms. */
  lemma StatusForOpen(code: string, m: Config.MarketConfig, off: int, viewerOff: int, now: int)
    requires IsOpenAt(m, off, now)
    ensures var r := StatusFor(code, m, off, viewerOff, now);
            var ms := CloseInstant(m, off, now) - now;
            && r.Status() == "open" && r.exchange == code && r.DisplayName() == m.name
            && 0 < ms <= CloseInstant(m, off, now) - OpenInstant(m, off, now)
            && ms % MS_PER_SECOND == 0
            && r.ClosesAtField() == Some(ToZoned(CloseInstant(m, off, now), viewerOff))
            && r.msUntilClose == ms
            && r.TimeUntilCloseField() == Some(FormatDuration(ms))
            && r.HoursUntilField() == Some(MsToHours(ms))
            && r.NextOpenField() == None && r.TimeUntilOpenField() == None
  {
    CloseWait(m, off, now);
  }

  /** How long until the close of an open session: positive, whole seconds, no
      longer than the session. */
  lemma CloseWait(m: Config.MarketConfig, off: int, now: int)
    requires IsOpenAt(m, off, now)
    ensures var ms := CloseInstant(m, off, now) - now;
            && 0 < ms <= CloseInstant(m, off, now) - OpenInstant(m, off, now)
            && ms % MS_PER_SECOND == 0
  {
    var w := ToZoned(now, off);
    SessionBounds(m, off, now);
    WallClockParts(w);
    var ms := CloseInstant(m, off, now) - now;
    assert ms == (CloseSecond(m) - SecondOfDay(w)) * MS_PER_SECOND;
    DivModOf(ms, MS_PER_SECOND, CloseSecond(m) - SecondOfDay(w), 0);
  }

  /** The closed branch: the next opening is an open moment under three days away,
      in whole seconds; the fields hold it in both forms. */
  lemma StatusForClosed(code: string, m: Config.MarketConfig, off: int, viewerOff: int, now: int)
    requires Config.WellFormed(m) && !IsOpenAt(m, off, now)
    ensures var r := StatusFor(code, m, off, viewerOff, now);
            var next := NextOpenInstant(m, off, now);
            && r.Status() == "closed" && r.exchange == code && r.DisplayName() == m.name
            && 0 < next - now < 3 * MS_PER_DAY && (next - now) % MS_PER_SECOND == 0
            && IsOpenAt(m, off, next)
            && r.NextOpenField() == Some(ToZoned(next, viewerOff))
            && r.msUntilOpen == next - now
            && r.TimeUntilOpenField() == Some(FormatDuration(next - now))
            && r.HoursUntilField() == Some(MsToHours(next - now))
            && r.ClosesAtField() == None && r.TimeUntilCloseField() == None
  {
    NextOpenWait(m, off, now);
    NextOpenIsOpen(m, off, now);
  }

  /** A listed code resolves through its own table entry, which is well formed. */
  lemma ResolveListed(code: string, viewerTz: string, now: int, offsetOf: string -> int)
    requires code in MARKETS
    ensures Config.WellFormed(MARKETS[code])
    ensures Resolve(code, viewerTz, now, offsetOf)
            == StatusFor(code, MARKETS[code], offsetOf(MARKETS[code].timezone), offsetOf(viewerTz), now)
  {
    TableMatchesRegistry();
  }

  /** Resolve goes through the registry lookup: a code with an entry gets its
      status, any other code the placeholder. */
  lemma ResolveByLookup(code: string, viewerTz: string, now: int, offsetOf: string -> int)
    ensures var e := Config.Lookup(code);
            Resolve(code, viewerTz, now, offsetOf)
            == if e.Some? then StatusFor(code, e.value, offsetOf(e.value.timezone), offsetOf(viewerTz), now)
               else UnknownExchange(code)
  {
    TableMatchesRegistry();
  }

  // ---------------------------------------------------------------------------
  // The guard as written: `MARKETS[exchangeCode]` reads a property of an object
  // literal, so a name inherited from Object.prototype passes `!market`.

  /** How getMarketStatus, as written, leaves its guard: with a status, or past the
      guard holding an inherited member in place of an entry, whose hours are
      all undefined. */
  datatype Outcome = Returns(status: MarketStatus) | PastGuardWithoutEntry(exchange: string)

  /** getMarketStatus with the property read of src/markets.ts:127-129. */
  function ResolveAsWritten(code: string, viewerTz: string, now: int, offsetOf: string -> int): (o: Outcome)
    ensures o.PastGuardWithoutEntry? <==> code in Config.OBJECT_PROTOTYPE_NAMES
  {
    TableMatchesRegistry();
    Config.InheritedNamesUnlisted();
    match Config.PropertyOf(MARKETS, code)
    case None => Returns(UnknownExchange(code))
    case Some(OwnEntry(m)) => Returns(StatusFor(code, m, offsetOf(m.timezone), offsetOf(viewerTz), now))
    case Some(Inherited(_)) => PastGuardWithoutEntry(code)
  }

  /** The code "constructor" (EXCHANGES=constructor) does not get the placeholder
      as written; with the intended lookup it does. */
  lemma ConstructorSkipsPlaceholder(viewerTz: string, now: int, offsetOf: string -> int)
    ensures ResolveAsWritten("constructor", viewerTz, now, offsetOf) != Returns(UnknownExchange("constructor"))
    ensures Resolve("constructor", viewerTz, now, offsetOf) == UnknownExchange("constructor")
  {
    Config.InheritedNamesFound("constructor");
  }

  /** Every other code is resolved alike by the guard as written and the intended one. */
  lemma ResolveAsWrittenAgrees(code: string, viewerTz: string, now: int, offsetOf: string -> int)
    requires code !in Config.OBJECT_PROTOTYPE_NAMES
    ensures ResolveAsWritten(code, viewerTz, now, offsetOf) == Returns(Resolve(code, viewerTz, now, offsetOf))
  {
    TableMatchesRegistry();
  }

  /** The intended behaviour: an inherited name is an unknown exchange like any
      other unlisted code. */
  lemma ResolveInheritedName(code: string, viewerTz: string, now: int, offsetOf: string -> int)
    requires code in Config.OBJECT_PROTOTYPE_NAMES
    ensures Resolve(code, viewerTz, now, offsetOf) == UnknownExchange(code)
  {
    Config.InheritedNamesFound(code);
    TableMatchesRegistry();
  }

  // ---------------------------------------------------------------------------
  // Worked examples: the New York Stock Exchange in June 2024, with New York at
  // UTC-4 and the viewer in UTC

  /** Monday 2024-06-10 14:00 UTC (10:00 in New York): open, six hours before the
      16:00 close, which is 20:00 UTC. */
  lemma NyseOpenOnMondayMorning(offsetOf: string -> int)
    requires offsetOf("America/New_York") == -4 * MS_PER_HOUR && offsetOf("UTC") == 0
    ensures Resolve("NYSE", "UTC", 1718028000000, offsetOf)
            == Open("NYSE", "New York Stock Exchange", 1718049600000, 21600000)
  {
    var now := 1718028000000;
    var m := MARKETS["NYSE"];
    var off := offsetOf(m.timezone);
    assert off == -14400000;
    var w := ToZoned(now, off);
    assert w == 1718013600000;
    FieldsOf(w, 19884, 36000, 0);
    SessionBounds(m, off, now);
    OpenIffInSession(m, off, now);
    ResolveListed("NYSE", "UTC", now, offsetOf);
  }

  /** What that status shows: six hours to the close, 6 hours rounded. */
  lemma NyseOpenFields()
    ensures var r := Open("NYSE", "New York Stock Exchange", 1718049600000, 21600000);
            r.TimeUntilCloseField() == Some("6:00:00") && r.HoursUntilField() == Some(60)
  {
    FormatDurationOfSixHours();
    MsToHoursExamples();
  }

  /** Saturday 2024-06-08 14:00 UTC (10:00 in New York): closed until Monday's
      09:30 open, at 13:30 UTC. */
  lemma NyseClosedOnSaturday(offsetOf: string -> int)
    requires offsetOf("America/New_York") == -4 * MS_PER_HOUR && offsetOf("UTC") == 0
    ensures Resolve("NYSE", "UTC", 1717855200000, offsetOf)
            == Closed("NYSE", "New York Stock Exchange", 1718026200000, 171000000)
  {
    var now := 1717855200000;
    var m := MARKETS["NYSE"];
    var off := offsetOf(m.timezone);
    assert off == -14400000;
    var w := ToZoned(now, off);
    assert w == 1717840800000;
    FieldsOf(w, 19882, 36000, 0);
    OpenIffInSession(m, off, now);
    ResolveListed("NYSE", "UTC", now, offsetOf);
    NextOpenShape(m, off, now);
  }

  /** What that status shows: 47 and a half hours to wait. */
  lemma NyseSaturdayFields()
    ensures var r := Closed("NYSE", "New York Stock Exchange", 1718026200000, 171000000);
            r.TimeUntilOpenField() == Some("47:30:00") && r.HoursUntilField() == Some(475)
  {
    FormatDurationOfFortySevenAndAHalfHours();
    MsToHoursExamples();
  }

  /** Monday 2024-06-10 at 13:30:00 UTC sharp (the 09:30 open) the exchange is open. */
  lemma NyseOpenAtTheBell(offsetOf: string -> int)
    requires offsetOf("America/New_York") == -4 * MS_PER_HOUR
    ensures Resolve("NYSE", "UTC", 1718026200000, offsetOf).Open?
  {
    var m := MARKETS["NYSE"];
    var off := offsetOf(m.timezone);
    assert off == -14400000;
    FieldsOf(ToZoned(1718026200000, off), 19884, 34200, 0);
    OpenIffInSession(m, off, 1718026200000);
    ResolveListed("NYSE", "UTC", 1718026200000, offsetOf);
  }

  /** At 20:00:00 UTC sharp (the 16:00 close) it is closed again, and opens next
      on Tuesday at 13:30 UTC, 17.5 hours later. */
  lemma NyseClosedAtTheClose(offsetOf: string -> int)
    requires offsetOf("America/New_York") == -4 * MS_PER_HOUR
    ensures var r := Resolve("NYSE", "UTC", 1718049600000, offsetOf);
            r.Closed? && r.msUntilOpen == 63000000
  {
    var m := MARKETS["NYSE"];
    var off := offsetOf(m.timezone);
    assert off == -14400000;
    FieldsOf(ToZoned(1718049600000, off), 19884, 57600, 0);
    OpenIffInSession(m, off, 1718049600000);
    ResolveListed("NYSE", "UTC", 1718049600000, offsetOf);
    NextOpenShape(m, off, 1718049600000);
  }

  // ---------------------------------------------------------------------------
  // The status as the MarketStatus interface of src/markets.ts:89-98 holds it

  /** The record getMarketStatus returns, field by field as the interface has
      them: the timestamps already formatted, `hoursUntil` in tenths. */
  datatype StatusFields = StatusFields(
    exchange: string,
    name: string,
    status: string,
    nextOpen: Option<string>,
    closesAt: Option<string>,
    timeUntilOpen: Option<string>,
    timeUntilClose: Option<string>,
    hoursUntil: Option<int>)

  /** An optional viewer wall clock formatted by `stamp` (date-fns `format`). */
  function StampField(field: Option<int>, stamp: int -> string): Option<string> {
    if field.Some? then Some(stamp(field.value)) else None
  }

  /** The interface record of a status, its timestamps formatted by `stamp`. */
  function View(s: MarketStatus, stamp: int -> string): (f: StatusFields)
    ensures f.exchange == s.exchange && f.name == s.DisplayName() && f.status == s.Status()
    ensures f.nextOpen.Some? <==> s.Closed?
    ensures f.closesAt.Some? <==> s.Open?
    ensures f.timeUntilOpen.Some? <==> !s.Open?
    ensures f.timeUntilClose.Some? <==> s.Open?
    ensures f.hoursUntil.Some? <==> !s.UnknownExchange?
  {
    StatusFields(s.exchange, s.DisplayName(), s.Status(),
                 StampField(s.NextOpenField(), stamp), StampField(s.ClosesAtField(), stamp),
                 s.TimeUntilOpenField(), s.TimeUntilCloseField(), s.HoursUntilField())
  }

  // ---------------------------------------------------------------------------
  // formatOutput

  /** The markers formatOutput puts in front of an open and a closed exchange. */
  const OPEN_MARK: string := "\U{1F7E2}"
  const CLOSED_MARK: string := "\U{1F534}"

  /** A template literal `${field}` of an optional string field. */
  function FieldText(field: Option<string>): string {
    if field.Some? then field.value else "undefined"
  }

  /** `${hoursUntil}`: the number of hours, or "undefined" when the field is missing. */
  function HoursText(field: Option<int>): string {
    if field.Some? then TenthsToString(field.value) else "undefined"
  }

  /** What formatOutput writes after the marker of an open record ... */
  function OpenText(f: StatusFields): string {
    " " + f.exchange + " (" + f.name + "): OPEN NOW\n"
    + "   Closes at: " + FieldText(f.closesAt) + "\n"
    + "   Time until close: " + FieldText(f.timeUntilClose)
  }

  /** ... and of any other record. */
  function ClosedText(f: StatusFields): string {
    " " + f.exchange + " (" + f.name + "): CLOSED\n"
    + "   Next open: " + FieldText(f.nextOpen) + "\n"
    + "   Time until open: " + FieldText(f.timeUntilOpen) + " (" + HoursText(f.hoursUntil) + "h)"
  }

  /** formatOutput with the two markers as parameters (the copy in src/index.ts
      differs from this one only in them). */
  function RenderStatus(openMark: string, closedMark: string, f: StatusFields): string {
    if f.status == "open" then openMark + OpenText(f) else closedMark + ClosedText(f)
  }

  /** formatOutput(status). */
  function FormatOutput(f: StatusFields): string {
    RenderStatus(OPEN_MARK, CLOSED_MARK, f)
  }

  /** The first line names the exchange and says OPEN NOW behind the open marker
      when the record is open, and CLOSED behind the closed marker otherwise. */
  lemma RenderHeadline(openMark: string, closedMark: string, f: StatusFields)
    ensures var r := RenderStatus(openMark, closedMark, f);
            && (f.status == "open" ==> openMark + (" " + f.exchange + " (" + f.name + "): OPEN NOW\n") <= r)
            && (f.status != "open" ==> closedMark + (" " + f.exchange + " (" + f.name + "): CLOSED\n") <= r)
  {
    if f.status == "open" {
      var p := " " + f.exchange + " (" + f.name + "): OPEN NOW\n";
      var s1 := p + "   Closes at: " + FieldText(f.closesAt) + "\n";
      PrefixExtend(p, p, "   Closes at: ");
      PrefixExtend(p, p + "   Closes at: ", FieldText(f.closesAt));
      PrefixExtend(p, p + "   Closes at: " + FieldText(f.closesAt), "\n");
      PrefixExtend(p, s1, "   Time until close: ");
      PrefixExtend(p, s1 + "   Time until close: ", FieldText(f.timeUntilClose));
      PrefixPrepend(openMark, p, OpenText(f));
    } else {
      var p := " " + f.exchange + " (" + f.name + "): CLOSED\n";
      var s1 := p + "   Next open: " + FieldText(f.nextOpen) + "\n";
      PrefixExtend(p, p, "   Next open: ");
      PrefixExtend(p, p + "   Next open: ", FieldText(f.nextOpen));
      PrefixExtend(p, p + "   Next open: " + FieldText(f.nextOpen), "\n");
      PrefixExtend(p, s1, "   Time until open: ");
      PrefixExtend(p, s1 + "   Time until open: ", FieldText(f.timeUntilOpen));
      PrefixExtend(p, s1 + "   Time until open: " + FieldText(f.timeUntilOpen), " (");
      PrefixExtend(p, s1 + "   Time until open: " + FieldText(f.timeUntilOpen) + " (", HoursText(f.hoursUntil));
      PrefixExtend(p, s1 + "   Time until open: " + FieldText(f.timeUntilOpen) + " (" + HoursText(f.hoursUntil), "h)");
      PrefixPrepend(closedMark, p, ClosedText(f));
    }
  }

  /** An open record's text shows its closing time and the time left until it. */
  lemma RenderShowsClose(openMark: string, closedMark: string, f: StatusFields)
    requires f.status == "open"
    ensures var r := RenderStatus(openMark, closedMark, f);
            && IsInfix("   Closes at: " + FieldText(f.closesAt) + "\n", r)
            && IsInfix("   Time until close: " + FieldText(f.timeUntilClose), r)
  {
    var p := " " + f.exchange + " (" + f.name + "): OPEN NOW\n";
    var x := "   Closes at: " + FieldText(f.closesAt) + "\n";
    var s1 := p + "   Closes at: " + FieldText(f.closesAt) + "\n";
    InfixOfLastThree(p, "   Closes at: ", FieldText(f.closesAt), "\n");
    InfixExtend(x, s1, "   Time until close: ");
    InfixExtend(x, s1 + "   Time until close: ", FieldText(f.timeUntilClose));
    InfixPrepend(x, openMark, OpenText(f));
    InfixOfLastTwo(s1, "   Time until close: ", FieldText(f.timeUntilClose));
    InfixPrepend("   Time until close: " + FieldText(f.timeUntilClose), openMark, OpenText(f));
  }

  /** Any other record's text shows its next opening, the time left until it and
      that wait in hours. */
  lemma RenderShowsOpen(openMark: string, closedMark: string, f: StatusFields)
    requires f.status != "open"
    ensures var r := RenderStatus(openMark, closedMark, f);
            && IsInfix("   Next open: " + FieldText(f.nextOpen) + "\n", r)
            && IsInfix("   Time until open: " + FieldText(f.timeUntilOpen)
                       + " (" + HoursText(f.hoursUntil) + "h)", r)
  {
    var p := " " + f.exchange + " (" + f.name + "): CLOSED\n";
    var x := "   Next open: " + FieldText(f.nextOpen) + "\n";
    var s1 := p + "   Next open: " + FieldText(f.nextOpen) + "\n";
    InfixOfLastThree(p, "   Next open: ", FieldText(f.nextOpen), "\n");
    InfixExtend(x, s1, "   Time until open: ");
    InfixExtend(x, s1 + "   Time until open: ", FieldText(f.timeUntilOpen));
    InfixExtend(x, s1 + "   Time until open: " + FieldText(f.timeUntilOpen), " (");
    InfixExtend(x, s1 + "   Time until open: " + FieldText(f.timeUntilOpen) + " (", HoursText(f.hoursUntil));
    InfixExtend(x, s1 + "   Time until open: " + FieldText(f.timeUntilOpen) + " (" + HoursText(f.hoursUntil), "h)");
    InfixPrepend(x, closedMark, ClosedText(f));
    var y := "   Time until open: " + FieldText(f.timeUntilOpen) + " (" + HoursText(f.hoursUntil) + "h)";
    InfixOfLastFive(s1, "   Time until open: ", FieldText(f.timeUntilOpen), " (", HoursText(f.hoursUntil), "h)");
    InfixPrepend(y, closedMark, ClosedText(f));
  }

  /** formatOutput starts with the green marker exactly when the record is open,
      and with the red one otherwise. */
  lemma FormatOutputMarker(f: StatusFields)
    ensures FormatOutput(f)[0] == '\U{1F7E2}' <==> f.status == "open"
    ensures FormatOutput(f)[0] == '\U{1F534}' <==> f.status != "open"
  {
  }

  /** The placeholder of an unknown code prints the missing fields as "undefined". */
  lemma FormatOutputOfUnknown(code: string, stamp: int -> string)
    ensures FormatOutput(View(UnknownExchange(code), stamp))
            == CLOSED_MARK + " " + code + " (" + "Unknown" + "): CLOSED\n"
               + "   Next open: " + "undefined" + "\n"
               + "   Time until open: " + "Unknown exchange" + " (" + "undefined" + "h)"
  {
    var f := View(UnknownExchange(code), stamp);
    assert f == StatusFields(code, "Unknown", "closed", None, None, Some("Unknown exchange"), None, None);
  }

  /** What formatOutput shows for an open status: its closing time, formatted,
      and the time left until it. */
  lemma FormatOutputOfOpen(s: MarketStatus, stamp: int -> string)
    requires s.Open?
    ensures var r := FormatOutput(View(s, stamp));
            && IsInfix("   Closes at: " + stamp(s.closesAt) + "\n", r)
            && IsInfix("   Time until close: " + FormatDuration(s.msUntilClose), r)
  {
    var f := View(s, stamp);
    assert f.status == "open";
    assert FieldText(f.closesAt) == stamp(s.closesAt);
    assert FieldText(f.timeUntilClose) == FormatDuration(s.msUntilClose);
    RenderShowsClose(OPEN_MARK, CLOSED_MARK, f);
  }

  /** What formatOutput shows for a closed status: its next opening, formatted,
      the time left until it and that wait in hours. */
  lemma FormatOutputOfClosed(s: MarketStatus, stamp: int -> string)
    requires s.Closed?
    ensures var r := FormatOutput(View(s, stamp));
            && IsInfix("   Next open: " + stamp(s.nextOpen) + "\n", r)
            && IsInfix("   Time until open: " + FormatDuration(s.msUntilOpen)
                       + " (" + TenthsToString(MsToHours(s.msUntilOpen)) + "h)", r)
  {
    var f := View(s, stamp);
    assert f.status == "closed";
    assert FieldText(f.nextOpen) == stamp(s.nextOpen);
    assert FieldText(f.timeUntilOpen) == FormatDuration(s.msUntilOpen);
    assert HoursText(f.hoursUntil) == TenthsToString(MsToHours(s.msUntilOpen));
    RenderShowsOpen(OPEN_MARK, CLOSED_MARK, f);
  }

  // ---------------------------------------------------------------------------
  // generateReport (the status list and the text version)

  /** What generateReport returns, without the HTML version. */
  datatype Report = Report(text: string, statuses: seq<StatusFields>)

  /** The first three lines of the text version and the blank line after them. */
  function ReportHeader(userTimezone: string, currentTime: string): string {
    "\U{1F550} Market Hours Check\n" + "\U{1F4CD} Timezone: " + userTimezone + "\n"
    + "\U{23F0} Current time: " + currentTime + "\n\n"
  }

  /** The text version after its header: each record rendered by `render` (which
      is formatOutput there), in order, each followed by a blank line. */
  function StatusBlocks(statuses: seq<StatusFields>, render: StatusFields -> string): string
    decreases |statuses|
  {
    if statuses == [] then ""
    else StatusBlocks(statuses[..|statuses| - 1], render) + render(statuses[|statuses| - 1]) + "\n\n"
  }

  /** The blocks of a list are the blocks of its two halves, one after the other. */
  lemma {:induction false} StatusBlocksAppend(a: seq<StatusFields>, b: seq<StatusFields>,
                                              render: StatusFields -> string)
    ensures StatusBlocks(a + b, render) == StatusBlocks(a, render) + StatusBlocks(b, render)
    decreases |b|
  {
    if b == [] {
      assert a + b == a;
    } else {
      var b' := b[..|b| - 1];
      assert (a + b)[..|a + b| - 1] == a + b';
      StatusBlocksAppend(a, b', render);
    }
  }

  /** Each record appears in the text in its place: after the blocks of the ones
      before it and before the blocks of the ones after it. */
  lemma StatusBlocksAt(statuses: seq<StatusFields>, i: int, render: StatusFields -> string)
    requires 0 <= i < |statuses|
    ensures StatusBlocks(statuses, render)
            == StatusBlocks(statuses[..i], render) + (render(statuses[i]) + "\n\n")
               + StatusBlocks(statuses[i + 1..], render)
  {
    var pre, x, post := statuses[..i], statuses[i], statuses[i + 1..];
    SplitAround(statuses, i);
    StatusBlocksAppend(pre + [x], post, render);
    StatusBlocksAppend(pre, [x], render);
    StatusBlocksOne(x, render);
  }

  lemma SplitAround(statuses: seq<StatusFields>, i: int)
    requires 0 <= i < |statuses|
    ensures statuses == statuses[..i] + [statuses[i]] + statuses[i + 1..]
  {
  }

  lemma StatusBlocksOne(x: StatusFields, render: StatusFields -> string)
    ensures StatusBlocks([x], render) == render(x) + "\n\n"
  {
    assert [x][..0] == [];
  }

  /** One more record adds its block at the end. */
  lemma StatusBlocksStep(header: string, statuses: seq<StatusFields>, k: int, render: StatusFields -> string)
    requires 0 <= k < |statuses|
    ensures header + StatusBlocks(statuses[..k + 1], render)
            == header + StatusBlocks(statuses[..k], render) + render(statuses[k]) + "\n\n"
  {
    assert statuses[..k + 1][..k] == statuses[..k];
    var b := StatusBlocks(statuses[..k], render);
    assert header + (b + render(statuses[k]) + "\n\n") == header + b + render(statuses[k]) + "\n\n";
  }

  /** In a report text every block appears, whole. */
  lemma ReportShowsEveryStatus(header: string, statuses: seq<StatusFields>, i: int,
                               render: StatusFields -> string)
    requires 0 <= i < |statuses|
    ensures IsInfix(render(statuses[i]) + "\n\n", header + StatusBlocks(statuses, render))
  {
    StatusBlocksAt(statuses, i, render);
    InfixInside(header, StatusBlocks(statuses[..i], render), render(statuses[i]) + "\n\n",
                StatusBlocks(statuses[i + 1..], render));
  }

  /** generateReport(exchanges, userTimezone) with the clock reading `now`: one
      status per code, resolved in order, then the header and every status
      rendered in the same order. `stamp` stands for the minutes-precision date
      format of the fields, `clock` for the seconds-precision one of the header. */
  method GenerateReport(exchanges: seq<string>, userTimezone: string, now: int, offsetOf: string -> int,
                        stamp: int -> string, clock: int -> string)
    returns (report: Report)
    ensures |report.statuses| == |exchanges|
    ensures forall i :: 0 <= i < |exchanges| ==>
              report.statuses[i] == View(Resolve(exchanges[i], userTimezone, now, offsetOf), stamp)
    ensures report.text
            == ReportHeader(userTimezone, clock(ToZoned(now, offsetOf(userTimezone))))
               + StatusBlocks(report.statuses, FormatOutput)
  {
    var nowInUserTz := ToZoned(now, offsetOf(userTimezone));
    var currentTime := clock(nowInUserTz);

    var statuses: seq<StatusFields> := [];
    var i := 0;
    while i < |exchanges|
      invariant 0 <= i <= |exchanges| && |statuses| == i
      invariant forall j :: 0 <= j < i ==>
                  statuses[j] == View(Resolve(exchanges[j], userTimezone, now, offsetOf), stamp)
    {
      var status := GetMarketStatus(exchanges[i], userTimezone, now, offsetOf);
      statuses := statuses + [View(status, stamp)];
      i := i + 1;
    }

    var text := "\U{1F550} Market Hours Check\n";
    text := text + "\U{1F4CD} Timezone: " + userTimezone + "\n";
    text := text + "\U{23F0} Current time: " + currentTime + "\n\n";
    var k := 0;
    while k < |statuses|
      invariant 0 <= k <= |statuses|
      invariant text == ReportHeader(userTimezone, currentTime) + StatusBlocks(statuses[..k], FormatOutput)
    {
      StatusBlocksStep(ReportHeader(userTimezone, currentTime), statuses, k, FormatOutput);
      text := text + FormatOutput(statuses[k]) + "\n\n";
      k := k + 1;
    }
    assert statuses[..|statuses|] == statuses;
    report := Report(text, statuses);
  }
}
