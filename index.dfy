/** The snapshot src/index.ts: a second copy of the resolver, the formatter and
    the trading-day search (modelled once, by Markets and Utils), a formatOutput
    whose two markers were saved in a different encoding, and the reading of the
    exchange list and the viewer timezone that `main` does before it prints. */
module Index {
  import opened Wrappers
  import opened JsText
  import Config
  import Markets

  /** The snapshot's markers: the UTF-8 bytes of the live copy's two emoji read
      back as Mac OS Roman. */
  const OPEN_MARK: string := "\U{F8FF}\U{FC}\U{FC}\U{A2}"
  const CLOSED_MARK: string := "\U{F8FF}\U{FC}\U{EE}\U{A5}"

  /** formatOutput of the snapshot. */
  function FormatOutput(f: Markets.StatusFields): string {
    Markets.RenderStatus(OPEN_MARK, CLOSED_MARK, f)
  }

  /** The snapshot prints what the live copy prints, but for the marker. */
  lemma FormatOutputButMarker(f: Markets.StatusFields)
    ensures FormatOutput(f)
            == (if f.status == "open" then OPEN_MARK else CLOSED_MARK) + Markets.FormatOutput(f)[1..]
  {
    var rest := if f.status == "open" then Markets.OpenText(f) else Markets.ClosedText(f);
    var live := Markets.FormatOutput(f);
    assert live == (if f.status == "open" then Markets.OPEN_MARK else Markets.CLOSED_MARK) + rest;
    assert live[1..] == rest;
  }

  /** The snapshot's two markers differ, so its text still tells open from closed. */
  lemma MarkersDiffer()
    ensures OPEN_MARK != CLOSED_MARK && |OPEN_MARK| == |CLOSED_MARK| == 4
  {
    assert OPEN_MARK[2] != CLOSED_MARK[2];
  }

  /** `exchangesStr.split(',').map((e) => e.trim())`, one step per part. */
  function TrimAll(parts: seq<string>): (codes: seq<string>)
    ensures |codes| == |parts|
    ensures forall i :: 0 <= i < |parts| ==> codes[i] == Trim(parts[i])
  {
    if parts == [] then [] else [Trim(parts[0])] + TrimAll(parts[1..])
  }

  /** The exchange codes `main` reads from the comma-separated list: one more
      than there are commas, each the trimmed piece between two commas. */
  function ExchangeList(exchangesStr: string): (codes: seq<string>)
    ensures |codes| == Count(exchangesStr, ',') + 1
    ensures forall i :: 0 <= i < |codes| ==> codes[i] == Trim(Split(exchangesStr, ',')[i])
  {
    TrimAll(Split(exchangesStr, ','))
  }

  /** No code holds a comma, none has whitespace at either end, and the pieces
      with the commas between them give back the list. */
  lemma ExchangeListCodes(exchangesStr: string, i: int)
    requires 0 <= i < |ExchangeList(exchangesStr)|
    ensures var code := ExchangeList(exchangesStr)[i];
            && ',' !in code
            && (code == [] || (!IsJsWhitespace(code[0]) && !IsJsWhitespace(code[|code| - 1])))
    ensures Join(Split(exchangesStr, ','), ',') == exchangesStr
  {
    var part := Split(exchangesStr, ',')[i];
    assert ',' !in part;
    TrimIsPiece(part);
    var r, k := Trim(part), |part| - |TrimStart(part)|;
    assert forall j :: 0 <= j < |r| ==> r[j] == part[k + j];
    TrimEnds(part);
    SplitJoin(exchangesStr, ',');
  }

  /** `process.env.NAME || fallback`: a missing or empty variable gives the fallback. */
  function EnvOr(value: Option<string>, fallback: string): string {
    if value.Some? && value.value != "" then value.value else fallback
  }

  /** The list `main` falls back to when EXCHANGES is unset or empty. */
  const DEFAULT_EXCHANGES_VAR: string := "NYSE,NASDAQ,LSE,JPX"

  /** The viewer timezone and the exchange codes `main` works with, from the
      TIMEZONE and EXCHANGES variables. */
  function MainInputs(timezoneVar: Option<string>, exchangesVar: Option<string>): (inputs: (string, seq<string>))
    ensures |inputs.1| >= 1
  {
    (EnvOr(timezoneVar, "UTC"), ExchangeList(EnvOr(exchangesVar, DEFAULT_EXCHANGES_VAR)))
  }

  /** The default list reads as the four default exchanges, in order. */
  lemma DefaultExchangeList()
    ensures ExchangeList(DEFAULT_EXCHANGES_VAR) == Config.DEFAULT_EXCHANGES
  {
    DefaultListPieces();
    SplitFour("NYSE", "NASDAQ", "LSE", "JPX");
    DefaultCodesTrimmed();
  }

  lemma DefaultListPieces()
    ensures DEFAULT_EXCHANGES_VAR == "NYSE" + [','] + ("NASDAQ" + [','] + ("LSE" + [','] + "JPX"))
  {
  }

  lemma DefaultCodesTrimmed()
    ensures TrimAll(["NYSE", "NASDAQ", "LSE", "JPX"]) == ["NYSE", "NASDAQ", "LSE", "JPX"]
  {
    TrimAllUnchanged(["NYSE", "NASDAQ", "LSE", "JPX"]);
  }

  /** Four pieces without commas, joined by commas, split back into themselves. */
  lemma SplitFour(a: string, b: string, c: string, d: string)
    requires ',' !in a && ',' !in b && ',' !in c && ',' !in d
    ensures Split(a + [','] + (b + [','] + (c + [','] + d)), ',') == [a, b, c, d]
  {
    var cd := c + [','] + d;
    var bcd := b + [','] + cd;
    SplitNoSeparator(d, ',');
    SplitFirst(c, ',', d);
    SplitFirst(b, ',', cd);
    SplitFirst(a, ',', bcd);
    assert [a] + ([b] + ([c] + [d])) == [a, b, c, d];
  }

  /** Codes without whitespace at their ends come through the trimming unchanged. */
  lemma {:induction false} TrimAllUnchanged(parts: seq<string>)
    requires forall i :: 0 <= i < |parts| ==>
               parts[i] == [] || (!IsJsWhitespace(parts[i][0]) && !IsJsWhitespace(parts[i][|parts[i]| - 1]))
    ensures TrimAll(parts) == parts
    decreases |parts|
  {
    if parts != [] {
      TrimUnchanged(parts[0]);
      TrimAllUnchanged(parts[1..]);
      assert parts == [parts[0]] + parts[1..];
    }
  }

  /** Whitespace after a comma is dropped: "NYSE, LSE" gives NYSE and LSE. */
  lemma SpacedExchangeList(a: string, b: string)
    requires ',' !in a && ',' !in b
    requires a == [] || (!IsJsWhitespace(a[0]) && !IsJsWhitespace(a[|a| - 1]))
    requires b == [] || (!IsJsWhitespace(b[0]) && !IsJsWhitespace(b[|b| - 1]))
    ensures ExchangeList(a + [','] + [' '] + b) == [a, b]
  {
    assert a + [','] + [' '] + b == a + [','] + ([' '] + b);
    SplitTwo(a, [' '] + b);
    TrimUnchanged(a);
    TrimUnchanged(b);
    assert ([' '] + b)[1..] == b;
    assert TrimStart([' '] + b) == TrimStart(b);
  }

  /** Two pieces without commas, joined by a comma, split back into themselves. */
  lemma SplitTwo(a: string, b: string)
    requires ',' !in a && ',' !in b
    ensures Split(a + [','] + b, ',') == [a, b]
  {
    SplitNoSeparator(b, ',');
    SplitFirst(a, ',', b);
  }

  /** Left unset or empty, the variables give the registry's defaults; set, they
      are used as they are. */
  lemma MainInputsDefaults(timezoneVar: Option<string>, exchangesVar: Option<string>)
    ensures timezoneVar == None || timezoneVar == Some("") ==>
              MainInputs(timezoneVar, exchangesVar).0 == Config.DEFAULT_TIMEZONE
    ensures exchangesVar == None || exchangesVar == Some("") ==>
              MainInputs(timezoneVar, exchangesVar).1 == Config.DEFAULT_EXCHANGES
    ensures timezoneVar.Some? && timezoneVar.value != "" ==>
              MainInputs(timezoneVar, exchangesVar).0 == timezoneVar.value
    ensures exchangesVar.Some? && exchangesVar.value != "" ==>
              MainInputs(timezoneVar, exchangesVar).1 == ExchangeList(exchangesVar.value)
  {
    if exchangesVar == None || exchangesVar == Some("") {
      assert EnvOr(exchangesVar, DEFAULT_EXCHANGES_VAR) == DEFAULT_EXCHANGES_VAR;
      DefaultExchangeList();
    }
  }
}
