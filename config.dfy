/** The exchange registry of src/config.ts: a constant table from exchange code to
    trading hours, the default list of exchanges and the default viewer timezone. */
module Config {
  import opened Wrappers

  /** One entry of the table (MarketConfig in src/types.ts): times are local to `timezone`. */
  datatype MarketConfig = MarketConfig(
    name: string,
    timezone: string,
    openHour: int,
    openMinute: int,
    closeHour: int,
    closeMinute: int)

  const MARKETS: map<string, MarketConfig> := map[
    "NYSE" := MarketConfig("New York Stock Exchange", "America/New_York", 9, 30, 16, 0),
    "NASDAQ" := MarketConfig("NASDAQ", "America/New_York", 9, 30, 16, 0),
    "LSE" := MarketConfig("London Stock Exchange", "Europe/London", 8, 0, 16, 30),
    "JPX" := MarketConfig("Tokyo Stock Exchange", "Asia/Tokyo", 9, 0, 15, 0),
    "XETRA" := MarketConfig("Frankfurt Stock Exchange", "Europe/Berlin", 9, 0, 17, 30),
    "HKEX" := MarketConfig("Hong Kong Stock Exchange", "Asia/Hong_Kong", 9, 30, 16, 0),
    "ASX" := MarketConfig("Australian Securities Exchange", "Australia/Sydney", 10, 0, 16, 0),
    "TSX" := MarketConfig("Toronto Stock Exchange", "America/Toronto", 9, 30, 16, 0)
  ]

  const DEFAULT_EXCHANGES: seq<string> := ["NYSE", "NASDAQ", "LSE", "JPX"]

  const DEFAULT_TIMEZONE: string := "UTC"

  /** Minutes after local midnight. */
  function OpenMinuteOfDay(m: MarketConfig): int { m.openHour * 60 + m.openMinute }

  function CloseMinuteOfDay(m: MarketConfig): int { m.closeHour * 60 + m.closeMinute }

  /** What the resolver relies on: clock fields in range and a session that opens
      and closes on the same local day. */
  predicate WellFormed(m: MarketConfig) {
    && 0 <= m.openHour <= 23 && 0 <= m.openMinute <= 59
    && 0 <= m.closeHour <= 23 && 0 <= m.closeMinute <= 59
    && OpenMinuteOfDay(m) < CloseMinuteOfDay(m)
  }

  /** The registry lookup the resolver is meant to make: exact and case-sensitive,
      finding one of the eight listed codes and nothing else, and always a
      well-formed entry. */
  function Lookup(code: string): (r: Option<MarketConfig>)
    ensures r.Some? <==> code in {"NYSE", "NASDAQ", "LSE", "JPX", "XETRA", "HKEX", "ASX", "TSX"}
    ensures r.Some? ==> r.value == MARKETS[code] && WellFormed(r.value)
    ensures code in OBJECT_PROTOTYPE_NAMES ==> r == None
  {
    InheritedNamesUnlisted();
    RegistryCodes();
    RegistryWellFormed();
    if code in MARKETS then Some(MARKETS[code]) else None
  }

  /** The names every JavaScript object inherits from Object.prototype: its
      properties in section 20.1.3 of ECMA-262 and the legacy accessors of its
      Annex B.2.2. */
  const OBJECT_PROTOTYPE_NAMES: set<string> := {
    "constructor", "hasOwnProperty", "isPrototypeOf", "propertyIsEnumerable",
    "toLocaleString", "toString", "valueOf", "__proto__",
    "__defineGetter__", "__defineSetter__", "__lookupGetter__", "__lookupSetter__"}

  /** What `table[code]` reads on an object literal: an own entry, or a member
      inherited from Object.prototype (a function or an object, so truthy, but
      with no trading hours). */
  datatype Property = OwnEntry(entry: MarketConfig) | Inherited(name: string)

  /** `table[code]` as JavaScript evaluates it; None is `undefined`. */
  function PropertyOf(table: map<string, MarketConfig>, code: string): Option<Property> {
    if code in table then Some(OwnEntry(table[code]))
    else if code in OBJECT_PROTOTYPE_NAMES then Some(Inherited(code))
    else None
  }

  /** Apart from the inherited names, reading the property is the registry lookup. */
  lemma PropertyOfAgrees(code: string)
    requires code !in OBJECT_PROTOTYPE_NAMES
    ensures PropertyOf(MARKETS, code) == (if Lookup(code).Some? then Some(OwnEntry(Lookup(code).value)) else None)
  {
  }

  /** Every inherited name is found by the property read although it has no entry:
      `!market` is false for it. */
  lemma InheritedNamesFound(code: string)
    requires code in OBJECT_PROTOTYPE_NAMES
    ensures PropertyOf(MARKETS, code) == Some(Inherited(code))
    ensures Lookup(code) == None
  {
    InheritedNamesUnlisted();
  }

  /** No inherited name is a code of the registry. */
  lemma InheritedNamesUnlisted()
    ensures forall code :: code in OBJECT_PROTOTYPE_NAMES ==> code !in MARKETS
  {
    CodesAreShort();
    InheritedNamesAreLong();
  }

  lemma CodesAreShort()
    ensures forall code :: code in MARKETS ==> |code| <= 6
  {
  }

  lemma InheritedNamesAreLong()
    ensures forall code :: code in OBJECT_PROTOTYPE_NAMES ==> |code| >= 7
  {
  }

  /** The table holds exactly these eight codes. */
  lemma RegistryCodes()
    ensures MARKETS.Keys == {"NYSE", "NASDAQ", "LSE", "JPX", "XETRA", "HKEX", "ASX", "TSX"}
  {
  }

  /** Every entry has clock fields in range and opens strictly before it closes. */
  lemma RegistryWellFormed()
    ensures forall code :: code in MARKETS ==> WellFormed(MARKETS[code])
  {
  }

  /** The default exchanges are all in the table, and there are four of them. */
  lemma DefaultsKnown()
    ensures |DEFAULT_EXCHANGES| == 4
    ensures forall i :: 0 <= i < |DEFAULT_EXCHANGES| ==> DEFAULT_EXCHANGES[i] in MARKETS
  {
  }

  /** Lookup does not fold case: "nyse" is not "NYSE". */
  lemma LookupIsCaseSensitive()
    ensures Lookup("NYSE").Some? && Lookup("nyse") == None && Lookup("ZZZZ") == None
  {
  }
}
