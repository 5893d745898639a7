# Market hours resolver, modelled in Dafny

The trading-hours tool answers one question per stock exchange: is the market
open right now, and if not, when does it open next? It keeps a registry of
eight exchanges (`src/config.ts`, with identical copies in `src/markets.ts` and
`src/index.ts`). Each entry
gives a display name, an IANA timezone and the local open and close times.
For each exchange code the resolver (`getMarketStatus`) returns:

- that the code is unknown; or
- that the market is open, with the closing time in the viewer's timezone and
  the time left; or
- that it is closed, with the next opening and the time to wait.

The wait is given both as `H:MM:SS` (`formatDuration`) and as hours rounded to
one decimal (`msToHours`). `formatOutput` renders one status as text;
`generateReport` renders a list of them below a header. The snapshot
`src/index.ts` is an older command-line copy of the same resolver and
formatter. Its `main` reads the viewer timezone and a comma-separated exchange
list from the environment.

The model, module by module:

- `ZonedTime` (`zoned_time.dfy`) models the date-fns calls.
  - An instant is an integer number of milliseconds.
  - A zoned date is its wall-clock reading: the instant plus the zone's UTC
    offset.
  - Day, second of the day and weekday are read off that number.
  - `setHours`/`setMinutes`/`setSeconds` replace one field and keep the rest,
    milliseconds included. `addDays` adds whole days.
- `JsText` (`js_text.dfy`) holds the JavaScript string operations used:
  - number to text and `padStart`;
  - `String.prototype.split` on one character and `trim` (with JavaScript's
    whitespace set);
  - substring facts used for the rendered text.
- `Config` (`config.dfy`) is the registry of `src/config.ts`.
- `Utils` (`utils.dfy`) holds:
  - `formatDuration`, with JavaScript's truncating `%`;
  - `getNextTradingDay`, a method with its loop;
  - `msToHours`, in exact tenths of an hour.

  `src/markets.ts` and `src/index.ts` carry private copies of the first two
  with the same text, so these members model all three copies.
- `Markets` (`markets.dfy`) holds the resolver, the status record, `formatOutput`
  and the text part of `generateReport`.
  - `MarketStatus` keeps the wait in milliseconds, and either the closing
    moment (open) or the next-opening moment (closed) as a viewer wall clock.
  - `View` turns it into the record of the `MarketStatus` interface, with the
    text and hour fields derived as the source derives them.
  - `GetMarketStatus` is the source's statement sequence, proved equal to the
    reference function `Resolve`. The next-opening computation of
    `src/markets.ts:170-199` is its own method, `NextOpenDate`.
  - Around `Resolve` and its helpers, lemmas prove what a user relies on:
    - the market is reported open exactly on local Monday to Friday between
      the opening second and the closing second;
    - the next opening is a moment when the market is open, and the market
      stays closed until then;
    - the wait is positive, a whole number of seconds and under three days.
- `Index` (`index.dfy`) holds what the snapshot adds:
  - its `formatOutput`, whose markers are the live copy's emoji saved as
    UTF-8 and read back as Mac OS Roman;
  - the way `main` reads its two environment variables.

Inputs the source takes from its surroundings are parameters:

- The clock (`new Date()`) is the parameter `now`.
- The timezone database is a function `offsetOf` from zone name to a fixed
  UTC offset.
- The date-fns `format` calls are opaque functions: `stamp` for the
  `yyyy-MM-dd HH:mm zzz` fields and `clock` for the report header.

Worked examples fix New York at UTC-4 (June 2024):

- On Monday at 10:00 local time the NYSE is open, with `6:00:00` and 6 hours
  to go.
- On Saturday at 10:00 it is closed until Monday 09:30: `47:30:00`, shown as
  47.5 hours.

## Model

| member | source | states |
|---|---|---|
| `Config.Lookup` | src/config.ts:3-68 | the intended lookup: a code has an entry exactly when it is one of the eight listed codes, the entry is the table's and well formed, and no Object.prototype name has one |
| `Config.PropertyOfAgrees` | src/markets.ts:127-129 | for every code that is not an Object.prototype name, the JavaScript property read finds exactly the registry's entry, or nothing |
| `Config.InheritedNamesFound` | src/markets.ts:127-129 | an Object.prototype name ("constructor", "toString", "__proto__", ...) is found by the property read as an inherited member, though the registry has no entry for it |
| `Config.InheritedNamesUnlisted` | src/config.ts:3-68 | no Object.prototype name is a registry code |
| `Config.RegistryCodes` | src/config.ts:3-68 | the registry holds exactly the eight codes NYSE, NASDAQ, LSE, JPX, XETRA, HKEX, ASX, TSX |
| `Config.RegistryWellFormed` | src/config.ts:4-67 | every entry has hours 0-23 and minutes 0-59, and opens strictly before it closes on the same local day |
| `Config.DefaultsKnown` | src/config.ts:70 | the default exchange list has four codes, all of them in the registry |
| `Config.LookupIsCaseSensitive` | src/markets.ts:127 | the table lookup is exact: "NYSE" is found, "nyse" and an unlisted code are not |
| `ZonedTime.SecondOfDay` | src/markets.ts:141-151 | the second of the local day is in 0..86399 |
| `ZonedTime.WeekdayOf` | src/markets.ts:186 | getDay gives 0 (Sunday) to 6 (Saturday) |
| `ZonedTime.AtTimeOfDayValue` | src/markets.ts:141-148 | setSeconds(setMinutes(setHours(w, h), m), 0) keeps the calendar day and the millisecond of the second, and puts the clock at h:m:00 |
| `ZonedTime.AddDaysFields` | src/utils.ts:26 | adding n days moves the calendar day by n and the weekday by n mod 7, and keeps the time of day |
| `JsText.NatToString` | src/utils.ts:13 | the decimal text of a number is a non-empty digit string with no leading zero |
| `JsText.NatToStringValue` | src/utils.ts:13 | the decimal text reads back as the number |
| `JsText.PadStartZeroLayout` | src/utils.ts:13-15 | padStart(len, "0") pads to the longer of len and the length of s: the string at the end, zeros in front |
| `JsText.TwoDigits` | src/utils.ts:13-15 | a number below 100, padded to two places, is its two-digit form |
| `JsText.Split` | src/index.ts:244 | splitting on a character gives one piece more than there are separators, and no piece holds the separator |
| `JsText.SplitJoin` | src/index.ts:244 | joining the pieces with the separator gives back the string |
| `JsText.TrimIsPiece` | src/index.ts:244 | trim returns a contiguous piece of its input, with only whitespace cut off before and after it |
| `JsText.TrimEnds` | src/index.ts:244 | the trimmed string is empty, or starts and ends with a non-whitespace character |
| `JsText.TrimUnchanged` | src/index.ts:244 | a string with no whitespace at either end is left as it is |
| `Utils.JsRem` | src/utils.ts:10-11 | JavaScript `%`: the Euclidean remainder for a non-negative dividend, and for a negative one the remainder of the quotient truncated toward zero, in (-b, 0] |
| `Utils.FormatDurationLayout` | src/utils.ts:7-16 | for ms >= 0: the unpadded hour count (not capped at 24), the minutes as two digits, the seconds as two digits |
| `Utils.ParseDurationFields` | src/utils.ts:13-15 | a digits:two-digits:two-digits string is read field by field |
| `Utils.SecondsSplit` | src/utils.ts:8-11 | hours, minutes and seconds of floor(ms/1000) add back to it, and the hour count is floor(ms/3600000) |
| `Utils.FormatDurationReadsBack` | src/utils.ts:7-16 | round trip: the text reads back with minutes and seconds below 60, hours ms div 3600000, and exactly the whole seconds of ms |
| `Utils.FormatDurationOfZero` | src/utils.ts:7-16 | 0 ms gives "0:00:00" |
| `Utils.FormatDurationOfOneHourOneMinuteOneSecond` | src/utils.ts:7-16 | 3661000 ms gives "1:01:01" |
| `Utils.FormatDurationOfTwentyFiveHours` | src/utils.ts:7-16 | 90000000 ms gives "25:00:00" (hours are not wrapped at a day) |
| `Utils.FormatDurationOfSixHours` | src/utils.ts:7-16 | 21600000 ms gives "6:00:00" |
| `Utils.FormatDurationOfFortySevenAndAHalfHours` | src/utils.ts:7-16 | 171000000 ms gives "47:30:00" |
| `Utils.FormatDurationOfMinusOneSecond` | src/utils.ts:7-16 | -1000 ms gives "-1:-1:-1", following floor and JavaScript's signed remainder |
| `Utils.TradingDayFromSkipsWeekend` | src/utils.ts:21-31 | the trading day moves the date forward by k <= 2 whole days, every day skipped is a local Saturday or Sunday, the day reached is neither, and a weekday comes back unchanged |
| `Utils.GetNextTradingDay` | src/utils.ts:21-31 | the loop returns the closed form TradingDayFrom, a day that is not a local weekend day |
| `Utils.MsToHours` | src/utils.ts:36-38 | the result in tenths is the nearest tenth of an hour: within half a tenth, halves rounded up, and non-negative for a non-negative input |
| `Utils.MsToHoursUnique` | src/utils.ts:36-38 | any tenth whose half-open band holds ms is the result |
| `Utils.MsToHoursMonotone` | src/utils.ts:36-38 | rounding preserves order |
| `Utils.MsToHoursExamples` | src/utils.ts:36-38 | 1.5 h, 1.508 h (to 1.5), 6 h, 47.5 h and 0 h |
| `Utils.TenthsToStringReadsBack` | src/markets.ts:225 | the printed `${hoursUntil}` reads back as the same number of tenths |
| `Utils.TenthsToStringExamples` | src/markets.ts:225 | 15, 60, 475 and 0 tenths print as "1.5", "6", "47.5" and "0" |
| `Markets.TableMatchesRegistry` | src/markets.ts:12-87 | the resolver's table is the registry of config.ts, so every entry is well formed |
| `Markets.SessionBounds` | src/markets.ts:141-151 | today's opening and closing instants sit at the session's second of the local day with now's millisecond; comparing now to them compares seconds of the day |
| `Markets.OpenIffInSession` | src/markets.ts:152-154 | the open test holds exactly on local Monday-Friday, from the opening second (included) to the closing second (excluded) |
| `Markets.SessionEdges` | src/markets.ts:154 | on a weekday the market is open at its opening second and closed at its closing second |
| `Markets.NextOpenShape` | src/markets.ts:170-199 | on a closed market the next opening is at the opening second of the local day DaysUntilNextOpen days on (0 before today's open, 1 after a Monday-Thursday close or on Sunday, 2 on Saturday, 3 after a Friday close) |
| `Markets.WeekendOverrideAgrees` | src/markets.ts:172-196 | on a weekend the trading-day search already lands on the opening the Monday override then writes, so the override changes nothing |
| `Markets.NextOpenWeekday` | src/markets.ts:185-196 | the day reached is Monday-Friday, a Monday from a weekend or from Friday past the opening, and today from a weekday before the opening |
| `Markets.NextOpenOnWeekend` | src/markets.ts:185-196 | on a weekend the next opening is the opening second of the coming Monday, 1 or 2 days on |
| `Markets.NextOpenAfterClose` | src/markets.ts:172-183 | after a weekday's close the next opening is the opening second of the next Monday-Friday day, 3 days on from a Friday and 1 otherwise |
| `Markets.NextOpenFields` | src/markets.ts:170-199 | the next opening's local day, second of day and weekday |
| `Markets.NextOpenIsOpen` | src/markets.ts:170-199 | the next opening is a moment when the market is open, on a Monday when now is in a weekend or past Friday's opening |
| `Markets.NoOpeningBeforeNextOpen` | src/markets.ts:170-199 | from now until the next opening (less now's millisecond, carried by the setters) the market is closed at every instant |
| `Markets.ClosedUntilNextOpen` | src/markets.ts:170-199 | the same on wall clocks: closed from the start up to the opening second of the day of the next opening |
| `Markets.WallClockBetween` | src/markets.ts:170-199 | a wall clock in that window lies j days on, 0 <= j <= DaysUntilNextOpen, with the weekday j on |
| `Markets.SkippedDayClosed` | src/markets.ts:172-196 | the days passed over are weekend days, and the day of the next opening is closed before its opening second |
| `Markets.NextOpenWait` | src/markets.ts:201 | msUntilOpen is positive, under three days and a whole number of seconds |
| `Markets.NextOpenDate` | src/markets.ts:170-199 | the statement sequence computes the reference nextOpenDate, NextOpenInstant |
| `Markets.GetMarketStatus` | src/markets.ts:123-214 | the statement sequence of getMarketStatus returns the reference status Resolve |
| `Markets.ResolveUnknown` | src/markets.ts:127-136 | an unlisted code gives only exchange, name "Unknown", status "closed" and timeUntilOpen "Unknown exchange" |
| `Markets.ResolveOpenIff` | src/markets.ts:152-168 | a listed exchange is reported "open" exactly while its local session is on |
| `Markets.StatusForOpen` | src/markets.ts:154-168 | the open record: closesAt is the close in the viewer's zone, and the wait is positive, whole seconds, no longer than the session, with formatDuration and msToHours of it as its text fields; no next-open fields |
| `Markets.CloseWait` | src/markets.ts:155 | msUntilClose is positive, whole seconds and no longer than the session |
| `Markets.StatusForClosed` | src/markets.ts:201-213 | the closed record: the next opening is an open moment under three days away, its viewer wall clock and its wait in both forms are the fields; no close fields |
| `Markets.ResolveListed` | src/markets.ts:127-154 | a listed code resolves through its own well-formed table entry |
| `Markets.ResolveByLookup` | src/markets.ts:127-136 | the resolver goes through the registry lookup: a code with an entry gets that entry's status, any other code the placeholder |
| `Markets.ResolveAsWritten` | src/markets.ts:127-136 | the guard as written lets a code past without a table entry exactly when it is an Object.prototype name |
| `Markets.ConstructorSkipsPlaceholder` | src/markets.ts:127-136 | "constructor" does not get the placeholder as written, and does get it from the intended resolver |
| `Markets.ResolveAsWrittenAgrees` | src/markets.ts:127-214 | for every code that is not an Object.prototype name, the guard as written and the intended one give the same status |
| `Markets.ResolveInheritedName` | src/markets.ts:129-136 | intended: an Object.prototype name is an unknown exchange like any other unlisted code |
| `Markets.NyseOpenOnMondayMorning` | src/markets.ts:154-168 | Monday 2024-06-10 10:00 in New York: open, closing at 20:00 UTC, 6 h away |
| `Markets.NyseOpenFields` | src/markets.ts:165-166 | that status shows "6:00:00" and 6 hours |
| `Markets.NyseClosedOnSaturday` | src/markets.ts:170-213 | Saturday 2024-06-08 10:00 in New York: closed until Monday 13:30 UTC, 47.5 h away |
| `Markets.NyseSaturdayFields` | src/markets.ts:211-212 | that status shows "47:30:00" and 47.5 hours |
| `Markets.NyseOpenAtTheBell` | src/markets.ts:154 | at 09:30:00 sharp in New York the NYSE is open |
| `Markets.NyseClosedAtTheClose` | src/markets.ts:154-201 | at 16:00:00 sharp it is closed, and opens again 17.5 h later |
| `Markets.View` | src/markets.ts:89-98 | the interface record has nextOpen only when closed, closesAt and timeUntilClose only when open, timeUntilOpen unless open, hoursUntil unless the code is unknown |
| `Markets.RenderHeadline` | src/markets.ts:216-226 | the text starts with the open marker and "EX (Name): OPEN NOW" for an open record, and with the closed marker and "EX (Name): CLOSED" for any other |
| `Markets.RenderShowsClose` | src/markets.ts:217-220 | an open record's text shows the closing time and the time until close |
| `Markets.RenderShowsOpen` | src/markets.ts:223-225 | a closed record's text shows the next opening, the time until open and the hours |
| `Markets.FormatOutputMarker` | src/markets.ts:216-226 | the first character is the green circle exactly for an open record, and the red circle otherwise |
| `Markets.FormatOutputOfUnknown` | src/markets.ts:223-225 | an unknown code prints "undefined" for the next opening and the hours, and "Unknown exchange" as the time until open |
| `Markets.FormatOutputOfOpen` | src/markets.ts:216-220 | an open status prints its stamped closing time and formatDuration of its wait |
| `Markets.FormatOutputOfClosed` | src/markets.ts:223-225 | a closed status prints its stamped next opening, formatDuration of its wait and the rounded hours |
| `Markets.StatusBlocksAppend` | src/markets.ts:245-247 | the status blocks of a concatenated list are the blocks of each part, in order |
| `Markets.StatusBlocksAt` | src/markets.ts:245-247 | the report's blocks are those before status i, then status i's text and a blank line, then those after |
| `Markets.ReportShowsEveryStatus` | src/markets.ts:240-247 | every status's text, followed by a blank line, appears in the report text |
| `Markets.GenerateReport` | src/markets.ts:228-247 | one status per requested code, in order, each the resolved status; the text is the header followed by every status's formatOutput and a blank line |
| `Index.FormatOutputButMarker` | src/index.ts:229-239 | the snapshot prints what the live formatOutput prints, but for the first character, which becomes its own marker |
| `Index.MarkersDiffer` | src/index.ts:231-236 | the snapshot's two markers differ and are four characters each |
| `Index.TrimAll` | src/index.ts:244 | trimming every piece keeps their number and trims each one |
| `Index.ExchangeList` | src/index.ts:244 | one code more than there are commas, each the trimmed piece between two commas |
| `Index.ExchangeListCodes` | src/index.ts:244 | no code holds a comma or has whitespace at an end, and the pieces joined by commas give back the list |
| `Index.MainInputs` | src/index.ts:242-244 | main always works with at least one exchange code |
| `Index.DefaultExchangeList` | src/index.ts:243-244 | the fallback text "NYSE,NASDAQ,LSE,JPX" gives the four default codes of config.ts |
| `Index.SpacedExchangeList` | src/index.ts:244 | a space after the comma is dropped: "A, B" gives the codes A and B, for any codes without commas or whitespace at their ends |
| `Index.MainInputsDefaults` | src/index.ts:242-244 | an unset or empty variable gives UTC and the default codes; a set one is used as it is |

## Left out

- Daylight saving time and the IANA database are not modelled. A zone is
  a fixed UTC offset (`offsetOf`) and every day lasts 24 hours. `fromZonedTime`
  uses the same offset as `toZonedTime`.
- An unknown timezone name is not modelled. date-fns-tz would produce an
  invalid date; here any name maps to some offset.
- The date-fns `format` strings (`yyyy-MM-dd HH:mm zzz`, `yyyy-MM-dd HH:mm:ss
  zzz`) are not modelled. They are the opaque parameters `stamp` and `clock`.
- `new Date()` is the parameter `now`. `Markets.GenerateReport` uses one `now`
  for the header and every status. The source reads the clock anew in each
  call, so its statuses may be milliseconds apart.
- Floating point is not modelled. `msToHours` is exact integer rounding to
  tenths, and `${hoursUntil}` is printed from those tenths. For the waits the
  resolver produces (whole seconds, under three days) this is
  `Math.round(ms / 3600000 * 10) / 10` printed by JavaScript.
- The HTML part of `generateReport` (src/markets.ts:249-286) is not modelled.
  It is markup around the same fields.
- `main`'s console output (src/index.ts:246-268) is not modelled: the banner
  lines, the "Current time" line (the viewer wall clock `nowInUserTz` run
  through `format`), the printing loop and the list of supported codes. Its
  inputs are modelled by `Index.MainInputs`, and its per-exchange text by
  `Index.FormatOutput`.
- The table of src/index.ts:12-87 is the same as the one in src/markets.ts:12-87,
  and is modelled by `Markets.MARKETS`. The snapshot's `formatDuration`
  (src/index.ts:100-109) and `getNextTradingDay` (src/index.ts:111-124) are
  the live ones. Its `getMarketStatus` (src/index.ts:126-227) matches the live
  one statement for statement, apart from comments and one extra
  `nowInUserTz` that it computes and never reads (src/index.ts:143). They are
  modelled by `Utils.FormatDuration`, `Utils.GetNextTradingDay` and
  `Markets.GetMarketStatus`.
- Dafny strings are sequences of Unicode code points; JavaScript strings are
  sequences of UTF-16 code units. The two emoji markers are one character here
  and two code units in JavaScript, so "the first character" in
  `Markets.FormatOutputMarker` and the `[1..]` of `Index.FormatOutputButMarker`
  count code points. The text itself is the same.
- src/email-template.ts and src/send-emails.ts (mail delivery) are not part of
  this model. From src/types.ts only the two interfaces are mirrored:
  `Config.MarketConfig` and `Markets.StatusFields`.
- `Index.MainInputs`: its own contract states only that the list is
  non-empty. The field values are stated by `Index.MainInputsDefaults`,
  `Index.ExchangeList` and `Index.ExchangeListCodes`.
- Markets.GetMarketStatus: models the intended guard. As written, the property
  read `MARKETS[exchangeCode]` (src/markets.ts:127, src/index.ts:130) also finds
  the Object.prototype names ("constructor", "toString", "valueOf",
  "hasOwnProperty", "__proto__", ...), so `!market` is false and the
  placeholder is skipped. The code then reads the undefined hours of an
  inherited member. What date-fns does with those is not modelled: it gives an
  invalid date, and `format` would then throw. `Markets.ResolveAsWritten` stops
  at the guard for these codes (see Findings).
- Markets.ResolveUnknown: states the placeholder for every code without an
  entry, the Object.prototype names included. The source returns it only for
  codes that are not Object.prototype names.
- Config.Lookup: states the intended registry lookup. The JavaScript property
  read of the source is `Config.PropertyOf`, which also finds the
  Object.prototype names.

## Findings

| source | as written | input that shows it | evidently intended | confidence | as-written member | corrected member |
|---|---|---|---|---|---|---|
| src/markets.ts:127-136 | `MARKETS[exchangeCode]` on an object literal, then `if (!market)`, so inherited Object.prototype members pass the unknown-exchange guard | EXCHANGES=constructor, or any code such as "toString" or "__proto__" | every code that is not one of the eight listed exchanges gets the "Unknown exchange" placeholder | high for the skipped placeholder, not executed | `Markets.ConstructorSkipsPlaceholder` | `Markets.ResolveInheritedName` |
