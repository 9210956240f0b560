/** The terminal market-data source: one indexed history call, sorted and proved
    closed at its newest bar. */
module Terminal {
  import opened Options
  import opened Prices
  import opened Calendar
  import opened Stamps
  import opened Timeframes
  import opened Candles

  /** How far the terminal's clock may run ahead, in microseconds. */
  const CLOSED_CANDLE_TOLERANCE: int := 5 * MICROS

  datatype Quote = Quote(open: Number, high: Number, low: Number, close: Number)

  /** One provider row. */
  datatype Rate = Rate(time: int, quote: Quote, tickVolume: Option<int>, realVolume: Option<int>)

  datatype TerminalFailure =
    | InitializeFailed | SymbolNotFound | SymbolNotSelected | ProviderFailed | TooFewRates
    | FormingCandle | StaleRates | TimeOutOfRange | PriceOverflow | RatesRejected

  datatype SymbolInfo = SymbolInfo(visible: bool, digits: Option<int>)

  /** A terminal that answers as scripted and counts what it was asked. `rates` is
      newest first; nothing when the history call raises. */
  class TerminalModule {
    const initializes: bool
    const symbol: Option<SymbolInfo>
    const selects: bool
    const rates: Option<seq<Rate>>
    var initialized: nat
    var shutdowns: nat

    constructor (initializes: bool, symbol: Option<SymbolInfo>, selects: bool, rates: Option<seq<Rate>>)
      ensures this.initializes == initializes && this.symbol == symbol && this.selects == selects && this.rates == rates
      ensures initialized == 0 && shutdowns == 0
    {
      this.initializes, this.symbol, this.selects, this.rates := initializes, symbol, selects, rates;
      initialized, shutdowns := 0, 0;
    }

    method Initialize() returns (ok: bool)
      modifies this`initialized
      ensures ok == initializes && initialized == old(initialized) + if ok then 1 else 0
    {
      ok := initializes;
      if ok {
        initialized := initialized + 1;
      }
    }

    method Shutdown()
      modifies this`shutdowns
      ensures shutdowns == old(shutdowns) + 1
    {
      shutdowns := shutdowns + 1;
    }
  }

  /** A slice as the history call takes it: short at the end, never an error. */
  function CopyRatesFromPos(rates: seq<Rate>, start: nat, count: nat): seq<Rate> {
    var from := if start < |rates| then start else |rates|;
    var to := if start + count < |rates| then start + count else |rates|;
    rates[from..to]
  }

  datatype TerminalSettings = TerminalSettings(duration: nat, barCount: nat, maxAge: nat, selectIfHidden: bool)

  /** Precision of the symbol, or why it cannot be used. */
  function RequireSymbol(symbol: Option<SymbolInfo>, selects: bool, selectIfHidden: bool): Result<Option<int>, TerminalFailure> {
    match symbol
    case None => Err(SymbolNotFound)
    case Some(info) =>
      if !info.visible && !(selectIfHidden && selects) then Err(SymbolNotSelected) else Ok(info.digits)
  }

  function CopyRates(rates: Option<seq<Rate>>, count: nat): Result<seq<Rate>, TerminalFailure> {
    match rates
    case None => Err(ProviderFailed)
    case Some(all) =>
      var rows := CopyRatesFromPos(all, 1, count);
      if |rows| < count then Err(TooFewRates) else Ok(rows)
  }

  /** Real volume where it is reported and not zero, tick volume otherwise. */
  function VolumeOfRate(rate: Rate): Option<Number> {
    if rate.realVolume.Some? && rate.realVolume.value != 0 then Some(Number(rate.realVolume.value, 0))
    else if rate.tickVolume.Some? then Some(Number(rate.tickVolume.value, 0)) else None
  }

  function RateToBar(rate: Rate, digits: Option<int>): (r: Result<Bar, TerminalFailure>) {
    if !InRange(rate.time) then Err(TimeOutOfRange)
    else
      match (TerminalPrice(rate.quote.open, digits), TerminalPrice(rate.quote.high, digits),
             TerminalPrice(rate.quote.low, digits), TerminalPrice(rate.quote.close, digits))
      case (Some(open), Some(high), Some(low), Some(close)) =>
        Ok(Bar(Iso(rate.time), open, high, low, close, VolumeOfRate(rate)))
      case _ => Err(PriceOverflow)
  }

  function RatesToBars(rates: seq<Rate>, digits: Option<int>): (r: Result<seq<Bar>, TerminalFailure>)
    ensures r.Ok? ==> |r.value| == |rates|
  {
    if rates == [] then Ok([])
    else
      match RateToBar(rates[0], digits)
      case Err(f) => Err(f)
      case Ok(bar) =>
        match RatesToBars(rates[1..], digits)
        case Err(f) => Err(f)
        case Ok(bars) => Ok([bar] + bars)
  }

  /** The newest bar has closed, give or take the tolerance, and is fresh. */
  function RequireClosed(latest: Bar, duration: nat, maxAge: nat, now: int): Option<TerminalFailure> {
    var closesAt := (Opens(latest) + duration) * MICROS;
    if closesAt > now + CLOSED_CANDLE_TOLERANCE then Some(FormingCandle)
    else if now - closesAt > maxAge * 60 * MICROS then Some(StaleRates)
    else None
  }

  predicate SchemaAccepts(bars: seq<Bar>) {
    PositivePrices(bars)
    && forall i | 0 <= i < |bars| :: OrderedPrices(bars[i].open, bars[i].high, bars[i].low, bars[i].close)
  }

  /** Rows to bars: converted, sorted by timestamp text, the last one proved closed. */
  function FromRates(settings: TerminalSettings, rates: seq<Rate>, digits: Option<int>, now: int): Result<seq<Bar>, TerminalFailure>
    requires rates != []
  {
    match RatesToBars(rates, digits)
    case Err(f) => Err(f)
    case Ok(raw) =>
      SortLength(raw);
      var bars := SortByStamp(raw);
      match RequireClosed(bars[|bars| - 1], settings.duration, settings.maxAge, now)
      case Some(f) => Err(f)
      case None => if SchemaAccepts(bars) then Ok(bars) else Err(RatesRejected)
  }

  lemma {:induction false} InsertLength(sorted: seq<Bar>, bar: Bar)
    ensures |Insert(sorted, bar)| == |sorted| + 1
  {
    if sorted != [] {
      InsertLength(sorted[1..], bar);
    }
  }

  lemma {:induction false} SortLength(bars: seq<Bar>)
    ensures |SortByStamp(bars)| == |bars|
  {
    if bars != [] {
      SortLength(bars[..|bars| - 1]);
      InsertLength(SortByStamp(bars[..|bars| - 1]), bars[|bars| - 1]);
    }
  }

  lemma {:induction false} RatesMeaning(rates: seq<Rate>, digits: Option<int>)
    requires RatesToBars(rates, digits).Ok?
    ensures var raw := RatesToBars(rates, digits).value;
            AllStamped(raw) && forall i | 0 <= i < |rates| :: Opens(raw[i]) == rates[i].time
  {
    hide Opens, Stamped, RateToBar;
    if rates != [] {
      RateIsStamped(rates[0], digits);
      RatesMeaning(rates[1..], digits);
    }
  }

  lemma RateIsStamped(rate: Rate, digits: Option<int>)
    requires RateToBar(rate, digits).Ok?
    ensures Stamped(RateToBar(rate, digits).value) && Opens(RateToBar(rate, digits).value) == rate.time
  {
    IsoRoundTrip(rate.time);
  }

  /** One check on the newest bar covers the series: whatever is returned is the
      rows asked for, permuted into chronological order, and every bar in it has
      closed by now, give or take the tolerance. */
  lemma ReturnedRatesAreClosed(settings: TerminalSettings, rates: seq<Rate>, digits: Option<int>, now: int)
    requires rates != [] && FromRates(settings, rates, digits, now).Ok?
    ensures var bars := FromRates(settings, rates, digits, now).value;
            multiset(bars) == multiset(RatesToBars(rates, digits).value)
            && Ascending(bars)
            && (forall i | 0 <= i < |bars| :: ClosedBy(bars[i], settings.duration, now + CLOSED_CANDLE_TOLERANCE))
            && (forall i | 0 <= i < |rates| :: rates[i].time <= Opens(bars[|bars| - 1]))
  {
    hide Opens, Stamped, RatesToBars, SortByStamp, SchemaAccepts, RequireClosed, ClosedBy;
    var raw := RatesToBars(rates, digits).value;
    var bars := SortByStamp(raw);
    RatesMeaning(rates, digits);
    SortIsChronological(raw);
    SortLength(raw);
    NewestDecides(bars, settings.duration, settings.maxAge, now);
    forall i | 0 <= i < |rates|
      ensures rates[i].time <= Opens(bars[|bars| - 1])
    {
      assert raw[i] in multiset(raw);
      assert raw[i] in multiset(bars);
      var j :| 0 <= j < |bars| && bars[j] == raw[i];
    }
  }

  lemma NewestDecides(bars: seq<Bar>, duration: nat, maxAge: nat, now: int)
    requires bars != [] && Ascending(bars) && RequireClosed(bars[|bars| - 1], duration, maxAge, now) == None
    ensures forall i | 0 <= i < |bars| :: ClosedBy(bars[i], duration, now + CLOSED_CANDLE_TOLERANCE)
  {
    hide Opens;
  }

  /** On a live market the newest closed bar is followed by the forming one. Such rows
      are never refused as stale, at any instant of that bar, exactly when the age
      limit is at least one bar: there is no allowance for its duration here. */
  lemma NeverStaleExactly(settings: TerminalSettings, rates: seq<Rate>, digits: Option<int>)
    requires rates != [] && RatesToBars(rates, digits).Ok?
    ensures (forall now | FormingAt(NewestCloses(settings, rates, digits), settings.duration, now) ::
               FromRates(settings, rates, digits, now) != Err(StaleRates))
       <==> settings.duration <= settings.maxAge * 60
  {
    hide Opens, RatesToBars, SortByStamp, SchemaAccepts;
    var closes := NewestCloses(settings, rates, digits);
    SortLength(RatesToBars(rates, digits).value);
    if settings.duration > settings.maxAge * 60 {
      var now := (closes + settings.duration) * MICROS - 1;
      assert FormingAt(closes, settings.duration, now);
      assert FromRates(settings, rates, digits, now) == Err(StaleRates);
    }
  }

  /** The second at which the newest of these rates closes. */
  function NewestCloses(settings: TerminalSettings, rates: seq<Rate>, digits: Option<int>): int
    requires rates != [] && RatesToBars(rates, digits).Ok?
  {
    SortLength(RatesToBars(rates, digits).value);
    var bars := SortByStamp(RatesToBars(rates, digits).value);
    Opens(bars[|bars| - 1]) + settings.duration
  }

  /** The bar that opened at this second is forming. */
  predicate FormingAt(second: int, duration: nat, now: int) {
    second * MICROS <= now < (second + duration) * MICROS
  }

  // ----- what a bar says of its row, and a fetch of its terminal ----------------------

  /** The price is the value rounded half-even to the stated precision, or the number's
      own where none is stated, held between none and eight places. */
  predicate TerminalFrom(price: Number, n: Number, digits: Option<int>) {
    var places := if digits.Some? then digits.value else n.Places();
    var held := if places < 0 then 0 else if places > 8 then 8 else places;
    price.Places() == held && InUnits(price, held) == Nearest(InUnits(n, held)) as real
  }

  /** Time and prices are the row's, each in its place; the volume is the real volume
      where it is reported and not zero, else the tick volume, if any. */
  predicate BarFrom(bar: Bar, rate: Rate, digits: Option<int>) {
    && Opens(bar) == rate.time && Stamped(bar)
    && TerminalFrom(bar.open, rate.quote.open, digits) && TerminalFrom(bar.high, rate.quote.high, digits)
    && TerminalFrom(bar.low, rate.quote.low, digits) && TerminalFrom(bar.close, rate.quote.close, digits)
    && bar.volume == match (rate.realVolume, rate.tickVolume)
                     case (Some(traded), tick) =>
                       if traded != 0 then Some(Number(traded, 0))
                       else if tick.Some? then Some(Number(tick.value, 0)) else None
                     case (None, Some(ticks)) => Some(Number(ticks, 0))
                     case (None, None) => None
  }

  lemma BarOfRate(rate: Rate, digits: Option<int>)
    requires RateToBar(rate, digits).Ok?
    ensures BarFrom(RateToBar(rate, digits).value, rate, digits)
  {
    hide TerminalPrice, TerminalFrom, Opens, Stamped;
    RateIsStamped(rate, digits);
    PriceFromTerminal(rate.quote.open, digits);
    PriceFromTerminal(rate.quote.high, digits);
    PriceFromTerminal(rate.quote.low, digits);
    PriceFromTerminal(rate.quote.close, digits);
  }

  lemma PriceFromTerminal(n: Number, digits: Option<int>)
    requires TerminalPrice(n, digits).Some?
    ensures TerminalFrom(TerminalPrice(n, digits).value, n, digits)
  {
    hide InUnits, Nearest, TerminalPrice;
    TerminalPriceRounds(n, digits);
  }

  /** The row has a date a datetime holds, and prices the decimal context does. */
  predicate RateConverts(rate: Rate, digits: Option<int>) {
    InRange(rate.time)
    && TerminalPrice(rate.quote.open, digits).Some? && TerminalPrice(rate.quote.high, digits).Some?
    && TerminalPrice(rate.quote.low, digits).Some? && TerminalPrice(rate.quote.close, digits).Some?
  }

  lemma {:induction false} BarsOfRates(rates: seq<Rate>, digits: Option<int>)
    ensures RatesToBars(rates, digits).Ok? <==> forall i | 0 <= i < |rates| :: RateConverts(rates[i], digits)
    ensures RatesToBars(rates, digits).Ok?
        ==> forall i | 0 <= i < |rates| :: BarFrom(RatesToBars(rates, digits).value[i], rates[i], digits)
    ensures RatesToBars(rates, digits).Err? ==> RatesToBars(rates, digits).error in {TimeOutOfRange, PriceOverflow}
  {
    hide RateToBar, RateConverts, BarFrom;
    if rates != [] {
      ConvertsExactly(rates[0], digits);
      BarsOfRates(rates[1..], digits);
      if RateToBar(rates[0], digits).Ok? {
        BarOfRate(rates[0], digits);
      }
      assert forall i | 0 < i < |rates| :: rates[i] == rates[1..][i - 1];
    }
  }

  lemma ConvertsExactly(rate: Rate, digits: Option<int>)
    ensures RateToBar(rate, digits).Ok? <==> RateConverts(rate, digits)
    ensures RateToBar(rate, digits).Err? ==> RateToBar(rate, digits).error in {TimeOutOfRange, PriceOverflow}
  {
    hide TerminalPrice;
  }

  /** The rate that opens last. */
  predicate IsNewest(rates: seq<Rate>, newest: Rate) {
    newest in rates && forall i | 0 <= i < |rates| :: rates[i].time <= newest.time
  }

  /** The bars are those of the rates, in chronological order. */
  predicate BarsFrom(bars: seq<Bar>, rates: seq<Rate>, digits: Option<int>) {
    && |bars| == |rates| && Ascending(bars)
    && (forall bar | bar in bars :: exists i | 0 <= i < |rates| :: BarFrom(bar, rates[i], digits))
    && (forall i | 0 <= i < |rates| :: exists bar | bar in bars :: BarFrom(bar, rates[i], digits))
  }

  /** What is decided of rows that convert: forming when the newest closes more than
      five seconds ahead of the clock, stale when it closed more than the limit of
      minutes before, refused by the schema or else returned, every row with its bar. */
  lemma RatesVerdict(settings: TerminalSettings, rates: seq<Rate>, digits: Option<int>, now: int, newest: Rate)
    requires rates != [] && (forall i | 0 <= i < |rates| :: RateConverts(rates[i], digits)) && IsNewest(rates, newest)
    ensures var r, closes := FromRates(settings, rates, digits, now), (newest.time + settings.duration) * 1_000_000;
            && (r == Err(FormingCandle) <==> closes > now + 5_000_000)
            && (r == Err(StaleRates) <==> closes <= now + 5_000_000 && now - closes > settings.maxAge * 60_000_000)
            && (r.Err? ==> r.error in {FormingCandle, StaleRates, RatesRejected})
            && (r.Ok? ==> BarsFrom(r.value, rates, digits) && forall bar | bar in r.value :: FitsSchema(bar))
            && (r == Err(RatesRejected) ==> exists bars :: BarsFrom(bars, rates, digits) && exists bar | bar in bars :: !FitsSchema(bar))
  {
    hide Opens, RateConverts, RatesToBars, SortByStamp, SchemaAccepts, BarsFrom, FitsSchema, FromRates, IsNewest;
    BarsOfRates(rates, digits);
    var bars := SortByStamp(RatesToBars(rates, digits).value);
    SortedFrom(rates, digits);
    NewestIsLast(rates, digits, newest);
    SchemaExactly(bars);
    SortedVerdict(settings, rates, digits, now);
  }

  /** What becomes of the sorted bars. */
  lemma SortedVerdict(settings: TerminalSettings, rates: seq<Rate>, digits: Option<int>, now: int)
    requires rates != [] && RatesToBars(rates, digits).Ok? && SortByStamp(RatesToBars(rates, digits).value) != []
    ensures var r, bars := FromRates(settings, rates, digits, now), SortByStamp(RatesToBars(rates, digits).value);
            var closes := (Opens(bars[|bars| - 1]) + settings.duration) * 1_000_000;
            r == if closes > now + 5_000_000 then Err(FormingCandle)
                 else if now - closes > settings.maxAge * 60_000_000 then Err(StaleRates)
                 else if SchemaAccepts(bars) then Ok(bars) else Err(RatesRejected)
  {
    hide Opens, RatesToBars, SortByStamp, SchemaAccepts;
  }

  /** Its prices are positive, and in order. */
  predicate FitsSchema(bar: Bar) {
    PositiveBar(bar) && OrderedPrices(bar.open, bar.high, bar.low, bar.close)
  }

  lemma SchemaExactly(bars: seq<Bar>)
    ensures SchemaAccepts(bars) <==> forall bar | bar in bars :: FitsSchema(bar)
  {
    hide PositiveBar, OrderedPrices;
    assert forall i | 0 <= i < |bars| :: bars[i] in bars;
  }

  lemma SortedFrom(rates: seq<Rate>, digits: Option<int>)
    requires RatesToBars(rates, digits).Ok?
    ensures BarsFrom(SortByStamp(RatesToBars(rates, digits).value), rates, digits)
  {
    hide Opens, Stamped, RatesToBars, SortByStamp, BarFrom, RateConverts;
    var raw := RatesToBars(rates, digits).value;
    var bars := SortByStamp(raw);
    BarsOfRates(rates, digits);
    RatesMeaning(rates, digits);
    SortIsChronological(raw);
    SortLength(raw);
    forall bar
      ensures bar in bars <==> bar in raw
    {
      assert bar in multiset(bars) <==> bar in multiset(raw);
    }
    forall bar | bar in bars
      ensures exists i | 0 <= i < |rates| :: BarFrom(bar, rates[i], digits)
    {
      var i :| 0 <= i < |raw| && raw[i] == bar;
      assert BarFrom(bar, rates[i], digits);
    }
    forall i | 0 <= i < |rates|
      ensures exists bar | bar in bars :: BarFrom(bar, rates[i], digits)
    {
      assert raw[i] in bars && BarFrom(raw[i], rates[i], digits);
    }
  }

  lemma NewestIsLast(rates: seq<Rate>, digits: Option<int>, newest: Rate)
    requires rates != [] && RatesToBars(rates, digits).Ok? && IsNewest(rates, newest)
    ensures var bars := SortByStamp(RatesToBars(rates, digits).value);
            bars != [] && Opens(bars[|bars| - 1]) == newest.time
  {
    hide Opens, Stamped, RatesToBars, SortByStamp;
    var raw := RatesToBars(rates, digits).value;
    var bars := SortByStamp(raw);
    RatesMeaning(rates, digits);
    SortIsChronological(raw);
    SortLength(raw);
    var last := bars[|bars| - 1];
    assert last in multiset(bars);
    assert last in raw;
    var i :| 0 <= i < |raw| && raw[i] == last;
    assert Opens(last) == rates[i].time <= newest.time;
    var j :| 0 <= j < |rates| && rates[j] == newest;
    assert raw[j] in multiset(raw);
    assert raw[j] in multiset(bars);
    var k :| 0 <= k < |bars| && bars[k] == raw[j];
  }

  // ----- the source ------------------------------------------------------------------

  class TerminalSource {
    const settings: TerminalSettings
    const terminal: TerminalModule
    var cached: Option<seq<Bar>>

    constructor (settings: TerminalSettings, terminal: TerminalModule)
      requires settings.barCount >= 1
      ensures this.settings == settings && this.terminal == terminal && cached == None
    {
      this.settings, this.terminal := settings, terminal;
      cached := None;
    }

    /** What one fetch answers: symbol, then rates, then what the rates hold. */
    function FetchResult(now: int): Result<seq<Bar>, TerminalFailure>
      requires settings.barCount >= 1
    {
      if !terminal.initializes then Err(InitializeFailed)
      else
        match RequireSymbol(terminal.symbol, terminal.selects, settings.selectIfHidden)
        case Err(f) => Err(f)
        case Ok(digits) =>
          match CopyRates(terminal.rates, settings.barCount)
          case Err(f) => Err(f)
          case Ok(rates) => FromRates(settings, rates, digits, now)
    }

    /** One fetch. Every successful initialize is matched by one shutdown. */
    method Fetch(now: int) returns (r: Result<seq<Bar>, TerminalFailure>)
      requires settings.barCount >= 1
      modifies terminal
      ensures terminal.initialized - old(terminal.initialized) == terminal.shutdowns - old(terminal.shutdowns)
      ensures r == FetchResult(now)
    {
      hide FromRates;
      var ok := terminal.Initialize();
      if !ok {
        return Err(InitializeFailed);
      }
      var digits := RequireSymbol(terminal.symbol, terminal.selects, settings.selectIfHidden);
      if digits.Err? {
        terminal.Shutdown();
        return Err(digits.error);
      }
      var rates := CopyRates(terminal.rates, settings.barCount);
      terminal.Shutdown();
      if rates.Err? {
        return Err(rates.error);
      }
      r := FromRates(settings, rates.value, digits.value, now);
    }

    /** Fetched once; a success is kept and the terminal is not asked again. */
    method Load(now: int) returns (r: Result<seq<Bar>, TerminalFailure>)
      requires settings.barCount >= 1
      modifies this, terminal
      ensures terminal.initialized - old(terminal.initialized) == terminal.shutdowns - old(terminal.shutdowns)
      ensures old(cached).Some? ==> r == Ok(old(cached).value) && terminal.initialized == old(terminal.initialized)
      ensures old(cached).None? ==> r == FetchResult(now)
      ensures cached == if r.Ok? then Some(r.value) else None
    {
      hide FetchResult;
      if cached.None? {
        r := Fetch(now);
        if r.Ok? {
          cached := Some(r.value);
        }
      } else {
        r := Ok(cached.value);
      }
    }
  }

  /** The rows asked for: those from position one on, as many as wanted. */
  function RowsWanted(rates: seq<Rate>, count: nat): seq<Rate>
    requires |rates| > count
  {
    seq(count, i requires 0 <= i < count => rates[1 + i])
  }

  /** What a fetch answers, told from the terminal: in this order, that it cannot be
      reached, the symbol is not there, or hidden and not to be selected, the history
      call raises, or has too few rows behind the first; otherwise the verdict on the
      rows from position one on. */
  lemma FetchExactly(source: TerminalSource, now: int)
    requires source.settings.barCount >= 1
    ensures var r, terminal, settings := source.FetchResult(now), source.terminal, source.settings;
            if !terminal.initializes then r == Err(InitializeFailed)
            else if terminal.symbol == None then r == Err(SymbolNotFound)
            else if !terminal.symbol.value.visible && !(settings.selectIfHidden && terminal.selects) then r == Err(SymbolNotSelected)
            else if terminal.rates == None then r == Err(ProviderFailed)
            else if |terminal.rates.value| <= settings.barCount then r == Err(TooFewRates)
            else r == FromRates(settings, RowsWanted(terminal.rates.value, settings.barCount), terminal.symbol.value.digits, now)
  {
    hide FromRates;
    var terminal, settings := source.terminal, source.settings;
    if terminal.rates.Some? && |terminal.rates.value| > settings.barCount {
      assert CopyRatesFromPos(terminal.rates.value, 1, settings.barCount) == RowsWanted(terminal.rates.value, settings.barCount);
    }
  }
}
