/** The offline stand-ins: generated series, and what the real code makes of them. */
module OfflineFeeds {
  import opened Numerals
  import opened Options
  import opened Failures
  import opened Prices
  import opened Messages
  import opened WireCodec
  import opened Session
  import opened Packets
  import opened Calendar
  import opened Timeframes
  import opened Candles
  import opened MarketSource
  import opened Terminal
  import Observation

  type Period = n: nat | n > 0 witness 1

  /** A clock reading in whole seconds, cut off toward zero. */
  function WholeSeconds(now: int): int {
    if now >= 0 then now / MICROS else 0 - (0 - now) / MICROS
  }

  /** The period boundary at or before the whole second of a clock reading. */
  function CurrentOpen(now: int, period: Period): int
  {
    WholeSeconds(now) - WholeSeconds(now) % period
  }

  lemma CurrentOpenBrackets(now: int, period: Period)
    ensures now < (CurrentOpen(now, period) + period) * MICROS
    ensures CurrentOpen(now, period) * MICROS < now + MICROS
    ensures now >= 0 ==> 0 <= CurrentOpen(now, period)
    ensures CurrentOpen(now, period) >= 0 ==> CurrentOpen(now, period) * MICROS <= now || now < 0
  {
    FloorOfPeriod(WholeSeconds(now), period);
  }

  lemma FloorOfPeriod(second: int, period: Period)
    ensures var open := second - second % period;
            open <= second < open + period && (second >= 0 ==> open >= 0)
  {
    assert second == (second / period) * period + second % period;
    if second >= 0 {
      assert (second / period) * period >= 0;
    }
  }

  /** The boundary is not behind the reading itself, except for a reading before 1970
      with a sub-second part, less than a second before a boundary: there the cut
      goes up. */
  lemma BoundaryInTime(now: int, period: Period)
    ensures CurrentOpen(now, period) * MICROS <= now
       <==> now >= 0 || now % MICROS == 0 || WholeSeconds(now) % period != 0
  {
    FloorOfPeriod(WholeSeconds(now), period);
    if now < 0 {
      var up := WholeSeconds(now);
      assert up * MICROS >= now > (up - 1) * MICROS;
      assert now % MICROS == 0 <==> up * MICROS == now;
    }
  }

  // ----- the terminal's indexed feed ---------------------------------------------------

  /** A value in units of its so-many-th decimal. */
  function Scaled(value: real, digits: nat): real {
    value * Pow10(digits) as real
  }

  /** A price to so many decimals. */
  function Rounded(price: real, digits: nat): Number {
    Number(Nearest(Scaled(price, digits)), 0 - digits)
  }

  /** The candle around a closing price. */
  function QuoteAround(base: real, step: real, digits: nat): Quote {
    Quote(Rounded(base - step / 2.0, digits), Rounded(base + step, digits), Rounded(base - step, digits), Rounded(base, digits))
  }

  const RATE_DIGITS: nat := 2

  /** The closing price so many bars back. */
  function BaseBack(close: real, step: real, back: int): real {
    close - step * back as real
  }

  function RateQuotes(close: real, step: real): nat -> Quote {
    (i: nat) => QuoteAround(BaseBack(close, step, i), step, RATE_DIGITS)
  }

  /** Newest first: index 0 opened at the current boundary and has not closed. */
  method MakeRates(count: nat, period: Period, now: int, close: real, step: real) returns (rates: seq<Rate>)
    ensures GeneratedRates(rates, count, period, now)
    ensures forall i | 0 <= i < count :: rates[i] == Rate(rates[i].time, RateQuotes(close, step)(i), Some(1400 + i), Some(0))
  {
    hide CurrentOpen, QuoteAround, BaseBack;
    rates := [];
    var currentOpen := CurrentOpen(now, period);
    var index := 0;
    while index < count
      invariant 0 <= index <= count
      invariant GeneratedRates(rates, index, period, now)
      invariant forall i | 0 <= i < index ::
                  rates[i] == Rate(rates[i].time, RateQuotes(close, step)(i), Some(1400 + i), Some(0))
    {
      var openedAt := currentOpen - index * period;
      var base := BaseBack(close, step, index);
      rates := rates + [Rate(openedAt, QuoteAround(base, step, RATE_DIGITS), Some(1400 + index), Some(0))];
      index := index + 1;
    }
  }

  predicate GeneratedRates(rates: seq<Rate>, count: nat, period: Period, now: int)
  {
    |rates| == count && forall i | 0 <= i < count :: rates[i].time == CurrentOpen(now, period) - i * period
  }

  /** All have opened, and all but index 0 have closed. */
  predicate OnlyFirstForms(rates: seq<Rate>, period: Period, now: int) {
    forall i | 0 <= i < |rates| ::
      rates[i].time * MICROS <= now && ((rates[i].time + period) * MICROS <= now <==> i >= 1)
  }

  /** At the generating instant, sub-second part or not, exactly index 0 is forming,
      if and only if its boundary is not behind that instant: for every instant from
      1970 on. */
  lemma OnlyIndexZeroForms(rates: seq<Rate>, count: nat, period: Period, now: int)
    requires GeneratedRates(rates, count, period, now) && count >= 1
    ensures OnlyFirstForms(rates, period, now) <==> CurrentOpen(now, period) * MICROS <= now
    ensures now >= 0 ==> OnlyFirstForms(rates, period, now)
  {
    hide CurrentOpen;
    CurrentOpenBrackets(now, period);
    BoundaryInTime(now, period);
    assert rates[0].time == CurrentOpen(now, period) - 0 * period;
    if CurrentOpen(now, period) * MICROS <= now {
      forall i | 0 <= i < |rates|
        ensures rates[i].time * MICROS <= now && ((rates[i].time + period) * MICROS <= now <==> i >= 1)
      {
        Steps(0, i, period);
      }
    }
  }

  /** So what the source asks for from index 1 is never refused as forming, and is
      refused as stale exactly when the current period began longer ago than the
      age limit allows. */
  lemma SliceFromOneIsClosed(settings: TerminalSettings, rates: seq<Rate>, count: nat, digits: Option<int>, now: int)
    requires settings.duration > 0 && settings.barCount >= 1
    requires GeneratedRates(rates, count, settings.duration, now)
    requires count > settings.barCount
    ensures var slice := CopyRates(Some(rates), settings.barCount);
            && slice == Ok(rates[1..1 + settings.barCount])
            && (RatesToBars(slice.value, digits).Ok? ==>
                  var r := FromRates(settings, slice.value, digits, now);
                  r != Err(FormingCandle)
                  && (r == Err(StaleRates)
                      <==> now - CurrentOpen(now, settings.duration) * MICROS > settings.maxAge * 60 * MICROS))
  {
    hide FromRates, RatesToBars, Opens, SortByStamp, CurrentOpen;
    var slice := rates[1..1 + settings.barCount];
    assert CopyRates(Some(rates), settings.barCount) == Ok(slice);
    if RatesToBars(slice, digits).Ok? {
      NewestOfSlice(rates, count, settings.barCount, settings.duration, digits, now);
      CurrentOpenBrackets(now, settings.duration);
      VerdictOfNewest(settings, slice, digits, now, CurrentOpen(now, settings.duration));
    }
  }

  /** When the newest bar closes at `boundary`, give or take the tolerance. */
  lemma VerdictOfNewest(settings: TerminalSettings, slice: seq<Rate>, digits: Option<int>, now: int, boundary: int)
    requires slice != [] && RatesToBars(slice, digits).Ok? && boundary * MICROS <= now + CLOSED_CANDLE_TOLERANCE
    requires var bars := SortByStamp(RatesToBars(slice, digits).value);
             bars != [] && Opens(bars[|bars| - 1]) + settings.duration == boundary
    ensures var r := FromRates(settings, slice, digits, now);
            r != Err(FormingCandle) && (r == Err(StaleRates) <==> now - boundary * MICROS > settings.maxAge * 60 * MICROS)
  {
    hide Opens, RatesToBars, SortByStamp, SchemaAccepts;
  }

  lemma NewestOfSlice(rates: seq<Rate>, count: nat, n: nat, period: Period, digits: Option<int>, now: int)
    requires n >= 1 && count > n && GeneratedRates(rates, count, period, now)
    requires RatesToBars(rates[1..1 + n], digits).Ok?
    ensures var bars := SortByStamp(RatesToBars(rates[1..1 + n], digits).value);
            bars != [] && Opens(bars[|bars| - 1]) == CurrentOpen(now, period) - period
  {
    hide Opens, RatesToBars, SortByStamp, CurrentOpen;
    var slice := rates[1..1 + n];
    NewestOfRates(slice, digits);
    forall i | 0 <= i < |slice|
      ensures slice[i].time <= slice[0].time == CurrentOpen(now, period) - period
    {
      assert slice[i] == rates[1 + i];
      NonNegative(i, period);
      Distribute(1, i, period);
    }
  }

  /** The last bar after sorting opens with the latest of the rows. */
  lemma NewestOfRates(rates: seq<Rate>, digits: Option<int>)
    requires rates != [] && RatesToBars(rates, digits).Ok?
    ensures var bars := SortByStamp(RatesToBars(rates, digits).value);
            bars != []
            && (forall i | 0 <= i < |rates| :: rates[i].time <= Opens(bars[|bars| - 1]))
            && exists i :: 0 <= i < |rates| && rates[i].time == Opens(bars[|bars| - 1])
  {
    hide Opens, Stamped, RatesToBars, SortByStamp;
    var raw := RatesToBars(rates, digits).value;
    var bars := SortByStamp(raw);
    RatesMeaning(rates, digits);
    SortIsChronological(raw);
    SortLength(raw);
    forall i | 0 <= i < |rates|
      ensures rates[i].time <= Opens(bars[|bars| - 1])
    {
      assert raw[i] in multiset(raw);
      assert raw[i] in multiset(bars);
      var j :| 0 <= j < |bars| && bars[j] == raw[i];
    }
    var last := bars[|bars| - 1];
    assert last in multiset(bars);
    assert last in raw;
    var i :| 0 <= i < |raw| && raw[i] == last;
    assert rates[i].time == Opens(last);
  }

  // ----- the streaming feed --------------------------------------------------------------

  function SeriesRow(time: int, quote: Quote, volume: Option<Number>): BarRow {
    [JNumber(Number(time, 0)), JNumber(quote.open), JNumber(quote.high), JNumber(quote.low), JNumber(quote.close)]
    + match volume case Some(n) => [JNumber(n)] case None => []
  }

  const SERIES_DIGITS: nat := 5

  /** The most closed candles a source may be asked for. */
  const MAX_CANDLE_LIMIT: nat := 5000

  function SeriesQuotes(count: nat, close: real, step: real): nat -> Quote {
    (i: nat) => QuoteAround(BaseBack(close, step, count - 1 - i), step, SERIES_DIGITS)
  }

  /** Oldest first: the last bar is the one the instant falls inside. */
  method MakeSeries(count: nat, period: Period, now: int, close: real, step: real, withVolume: bool)
    returns (rows: seq<BarRow>)
    ensures GeneratedSeries(rows, count, period, now, SeriesQuotes(count, close, step))
    ensures forall i | 0 <= i < count ::
              rows[i][5..] == if withVolume then [JNumber(Number(100 + i, 0))] else []
  {
    hide CurrentOpen, QuoteAround, BaseBack;
    rows := [];
    var newestOpen := CurrentOpen(now, period);
    var index := 0;
    while index < count
      invariant 0 <= index <= count && |rows| == index
      invariant forall i | 0 <= i < index ::
                  IsSeriesRow(rows[i], newestOpen - (count - 1 - i) * period, SeriesQuotes(count, close, step)(i))
      invariant forall i | 0 <= i < index :: rows[i][5..] == if withVolume then [JNumber(Number(100 + i, 0))] else []
    {
      var base := BaseBack(close, step, count - 1 - index);
      var volume := if withVolume then Some(Number(100 + index, 0)) else None;
      var quote := QuoteAround(base, step, SERIES_DIGITS);
      assert SeriesQuotes(count, close, step)(index) == quote;
      rows := rows + [SeriesRow(newestOpen - (count - 1 - index) * period, quote, volume)];
      index := index + 1;
    }
  }

  predicate IsSeriesRow(row: BarRow, time: int, quote: Quote) {
    row[0] == JNumber(Number(time, 0)) && row[1] == JNumber(quote.open) && row[2] == JNumber(quote.high)
    && row[3] == JNumber(quote.low) && row[4] == JNumber(quote.close)
  }

  predicate GeneratedSeries(rows: seq<BarRow>, count: nat, period: Period, now: int, quotes: nat -> Quote)
  {
    |rows| == count
    && forall i | 0 <= i < count :: IsSeriesRow(rows[i], CurrentOpen(now, period) - (count - 1 - i) * period, quotes(i))
  }

  /** Prices a candle can be made of: in order, within the decimal context, and
      above half a unit of the eighth decimal. */
  predicate SoundPrice(n: Number) {
    n.Value() > 0.000000005 && FeedPrice(n).Some?
  }

  predicate SoundQuote(q: Quote) {
    SoundPrice(q.open) && SoundPrice(q.high) && SoundPrice(q.low) && SoundPrice(q.close)
    && OrderedPrices(q.open, q.high, q.low, q.close)
  }

  /** Within half a unit of the last decimal. */
  predicate Near(price: Number, value: real, digits: nat) {
    -0.5 <= Scaled(price.Value(), digits) - Scaled(value, digits) <= 0.5
  }

  predicate IsAround(quote: Quote, base: real, step: real, digits: nat) {
    Near(quote.open, base - step / 2.0, digits) && Near(quote.high, base + step, digits)
    && Near(quote.low, base - step, digits) && Near(quote.close, base, digits)
  }

  /** The candle around a closing price: it opens half a step below, and reaches a step
      to either side. */
  lemma QuoteIsAround(base: real, step: real, digits: nat)
    ensures IsAround(QuoteAround(base, step, digits), base, step, digits)
  {
    hide Near, Rounded;
    RoundedIsNear(base - step / 2.0, digits);
    RoundedIsNear(base + step, digits);
    RoundedIsNear(base - step, digits);
    RoundedIsNear(base, digits);
  }

  /** The prices of the i-th rate, to two decimals, and of the i-th row of a series, to
      five: the closing price falls a step with every bar into the past. */
  lemma GeneratedPrices(close: real, step: real, count: nat, i: nat)
    ensures IsAround(RateQuotes(close, step)(i), BaseBack(close, step, i), step, 2)
    ensures IsAround(SeriesQuotes(count, close, step)(i), BaseBack(close, step, count - 1 - i), step, 5)
    ensures BaseBack(close, step, 0) == close && BaseBack(close, step, i + 1) == BaseBack(close, step, i) - step
  {
    QuoteIsAround(BaseBack(close, step, i), step, RATE_DIGITS);
    QuoteIsAround(BaseBack(close, step, count - 1 - i), step, SERIES_DIGITS);
    OneBack(close, step, i);
  }

  lemma RoundedIsNear(price: real, digits: nat)
    ensures Near(Rounded(price, digits), price, digits)
  {
    hide Nearest, Scaled, InUnits;
    NearestBound(Scaled(price, digits));
    WholeUnits(Rounded(price, digits));
    UnitsAreScaled(Rounded(price, digits), digits);
  }

  lemma UnitsAreScaled(n: Number, digits: nat)
    ensures InUnits(n, digits) == Scaled(n.Value(), digits)
  {
  }

  lemma RoundedInUnits(price: real)
    ensures Rounded(price, SERIES_DIGITS).Value() == Nearest(price * 100_000.0) as real / 100_000.0
  {
    hide Nearest, Pow10;
    FiveDecimals();
    assert Scaled(price, SERIES_DIGITS) == price * 100_000.0;
    var rounded := Rounded(price, SERIES_DIGITS);
    assert rounded.exponent == -5 && rounded.coefficient == Nearest(price * 100_000.0);
  }

  lemma FiveDecimals()
    ensures Pow10(5) == 100_000
  {
    assert Pow10(2) == 100 && Pow10(3) == 1000;
    Pow10Sum(2, 3);
  }

  /** At five decimals and within the decimal context, a price is its own feed form. */
  lemma FeedFormOfSeries(units: nat)
    requires units <= 100_000_000_000_000
    ensures FeedPrice(Number(units, -5)) == Some(Number(units, -5))
  {
    assert Pow10(0) == 1;
    assert Pow10(15) == 1_000_000_000_000_000;
    Pow10Sum(15, 13);
  }

  lemma RoundedIsSound(price: real)
    requires 0.000005 < price < 1_000_000_000.0
    ensures SoundPrice(Rounded(price, SERIES_DIGITS))
  {
    hide Nearest, Number.Value, FeedPrice;
    var units := Nearest(price * 100_000.0);
    RoundedInUnits(price);
    UnitBounds(price * 100_000.0);
    FeedFormOfSeries(units);
    assert units as real / 100_000.0 >= 0.00001;
  }

  lemma UnitBounds(x: real)
    requires 0.5 < x < 100_000_000_000_000.0
    ensures 1 <= Nearest(x) <= 100_000_000_000_000
  {
  }

  lemma RoundedKeepsOrder(a: real, b: real)
    requires a <= b
    ensures Rounded(a, SERIES_DIGITS).Value() <= Rounded(b, SERIES_DIGITS).Value()
  {
    hide Nearest, Number.Value;
    RoundedInUnits(a);
    RoundedInUnits(b);
    NearestMonotone(a * 100_000.0, b * 100_000.0);
  }

  /** The candles of a series fall by `step` into the past and are sound as long as
      the lowest of them stays above half a unit of their last decimal. */
  lemma SeriesIsSound(count: nat, close: real, step: real)
    requires step >= 0.0 && close + step < 1_000_000_000.0 && BaseBack(close, step, count) > 0.000005
    ensures AllSound(count, SeriesQuotes(count, close, step))
  {
    hide SoundQuote, QuoteAround, BaseBack;
    forall i | 0 <= i < count
      ensures SoundQuote(SeriesQuotes(count, close, step)(i))
    {
      BaseBounds(close, step, count - 1 - i, count);
      QuoteIsSound(BaseBack(close, step, count - 1 - i), step);
    }
  }

  /** The prices the offline feed generates unless told otherwise are sound for every
      number of candles a source may be asked for. */
  lemma DefaultSeriesIsSound(count: nat)
    requires count <= MAX_CANDLE_LIMIT + SAFETY_MARGIN_BARS
    ensures AllSound(count, SeriesQuotes(count, 4323.5, 0.4))
  {
    SeriesIsSound(count, 4323.5, 0.4);
  }

  lemma QuoteIsSound(base: real, step: real)
    requires step >= 0.0 && base - step > 0.000005 && base + step < 1_000_000_000.0
    ensures SoundQuote(QuoteAround(base, step, SERIES_DIGITS))
  {
    hide Rounded, SoundPrice, Number.Value;
    RoundedIsSound(base - step / 2.0);
    RoundedIsSound(base + step);
    RoundedIsSound(base - step);
    RoundedIsSound(base);
    RoundedKeepsOrder(base - step, base - step / 2.0);
    RoundedKeepsOrder(base - step / 2.0, base);
    RoundedKeepsOrder(base - step / 2.0, base + step);
    RoundedKeepsOrder(base - step, base);
    RoundedKeepsOrder(base, base + step);
    RoundedKeepsOrder(base - step, base + step);
  }

  lemma OneBack(close: real, step: real, back: nat)
    ensures BaseBack(close, step, back + 1) == BaseBack(close, step, back) - step
  {
  }

  /** Prices fall into the past. */
  lemma {:induction false} FurtherBack(close: real, step: real, back: nat, count: nat)
    requires step >= 0.0 && back <= count
    ensures BaseBack(close, step, count) <= BaseBack(close, step, back)
    decreases count - back
  {
    hide BaseBack;
    if back < count {
      OneBack(close, step, count - 1);
      FurtherBack(close, step, back, count - 1);
    }
  }

  lemma BaseBounds(close: real, step: real, back: nat, count: nat)
    requires step >= 0.0 && back < count
    ensures BaseBack(close, step, count) <= BaseBack(close, step, back) - step
    ensures BaseBack(close, step, back) <= close
  {
    OneBack(close, step, back);
    FurtherBack(close, step, back + 1, count);
    FurtherBack(close, step, 0, back);
  }

  lemma SeriesSecond(row: BarRow, time: int, quote: Quote)
    requires IsSeriesRow(row, time, quote) && MIN_TIMESTAMP <= time < PAST_LAST_SECOND
    ensures UsableSecond(row[0]) == Ok(time)
  {
    assert Number(time, 0).Value() == (time * 1) as real == time as real;
  }

  /** A generated row is a candle whenever the clock has not run behind its instant. */
  lemma SeriesRowIsCandle(row: BarRow, time: int, quote: Quote, moment: int)
    requires IsSeriesRow(row, time, quote) && SoundQuote(quote)
    requires MIN_TIMESTAMP <= time < PAST_LAST_SECOND && time * MICROS <= moment
    ensures ToBar(row, moment).Ok?
    ensures var bar := ToBar(row, moment).value; Opens(bar) == time && Stamped(bar) && PositiveBar(bar)
  {
    hide Opens, Stamped, UsableSecond, Number.Value, FeedPrice;
    SeriesSecond(row, time, quote);
    ConversionKeepsCandleOrder(quote.open, quote.high, quote.low, quote.close);
    FeedPricePositive(quote.open);
    FeedPricePositive(quote.high);
    FeedPricePositive(quote.low);
    FeedPricePositive(quote.close);
    ToBarIsStamped(row, moment);
  }

  function SeriesTime(count: nat, period: Period, now: int, i: int): int
  {
    CurrentOpen(now, period) - (count - 1 - i) * period
  }

  /** The generated bars are dates the adapter accepts, and no clock reading from
      `first` on is behind the generating instant. */
  ghost predicate FairGeneration(count: nat, period: Period, now: int, readings: nat -> int, first: nat) {
    count >= 1
    && SeriesTime(count, period, now, 0) >= MIN_TIMESTAMP
    && CurrentOpen(now, period) < PAST_LAST_SECOND
    && forall j | first <= j :: readings(j) >= now
  }

  lemma SeriesTimes(count: nat, period: Period, now: int, i: nat)
    requires i < count
    ensures SeriesTime(count, period, now, 0) <= SeriesTime(count, period, now, i) <= CurrentOpen(now, period)
    ensures if i == count - 1 then SeriesTime(count, period, now, i) == CurrentOpen(now, period)
            else SeriesTime(count, period, now, i) + period <= CurrentOpen(now, period)
  {
    hide CurrentOpen;
    Steps(0, count - 1 - i, period);
    Steps(count - 1 - i, count - 1, period);
  }

  lemma Steps(m: int, n: int, period: nat)
    requires m <= n
    ensures m * period <= n * period && (m < n ==> m * period + period <= n * period)
  {
    Distribute(m, n - m, period);
    NonNegative(n - m, period);
    if m < n {
      Distribute(n - m - 1, 1, period);
      NonNegative(n - m - 1, period);
    }
  }

  lemma Distribute(a: int, b: int, p: int)
    ensures (a + b) * p == a * p + b * p
  {
  }

  lemma NonNegative(a: nat, p: nat)
    ensures a * p >= 0
  {
  }

  lemma SeriesTimesDistinct(count: nat, period: Period, now: int, i: nat, j: nat)
    requires i < j < count
    ensures SeriesTime(count, period, now, i) < SeriesTime(count, period, now, j)
  {
    hide CurrentOpen;
    Steps(count - 1 - j, count - 1 - i, period);
  }

  lemma GeneratedRow(rows: seq<BarRow>, count: nat, period: Period, now: int, quotes: nat -> Quote, readings: nat -> int, first: nat, i: nat)
    requires FairGeneration(count, period, now, readings, first)
    requires GeneratedSeries(rows, count, period, now, quotes) && i < count && SoundQuote(quotes(i))
    ensures ToBar(rows[i], readings(first + i)).Ok?
    ensures var bar := ToBar(rows[i], readings(first + i)).value;
            Opens(bar) == SeriesTime(count, period, now, i) && Stamped(bar) && PositiveBar(bar)
    ensures UsableSecond(rows[i][0]) == Ok(SeriesTime(count, period, now, i))
  {
    hide Opens, Stamped, ToBar, UsableSecond, SoundQuote, PositiveBar, CurrentOpen;
    SeriesTimes(count, period, now, i);
    CurrentOpenBrackets(now, period);
    SeriesRowIsCandle(rows[i], SeriesTime(count, period, now, i), quotes(i), readings(first + i));
    SeriesSecond(rows[i], SeriesTime(count, period, now, i), quotes(i));
  }

  /** Each row is read at its own reading of the clock. */
  predicate EachConverts(rows: seq<BarRow>, readings: nat -> int, first: nat) {
    forall j | first <= j < first + |rows| :: ToBar(rows[j - first], readings(j)).Ok?
  }

  lemma {:induction false} AllRowsConvert(rows: seq<BarRow>, readings: nat -> int, first: nat)
    requires EachConverts(rows, readings, first)
    ensures ToBars(rows, readings, first).Ok?
    decreases |rows|
  {
    hide ToBar, EachConverts;
    if rows != [] {
      FirstConverts(rows, readings, first);
      AllRowsConvert(rows[1..], readings, first + 1);
    }
  }

  lemma FirstConverts(rows: seq<BarRow>, readings: nat -> int, first: nat)
    requires rows != [] && EachConverts(rows, readings, first)
    ensures ToBar(rows[0], readings(first)).Ok? && EachConverts(rows[1..], readings, first + 1)
  {
    hide ToBar;
    assert ToBar(rows[first - first], readings(first)).Ok?;
    forall j | first + 1 <= j < first + |rows|
      ensures ToBar(rows[1..][j - (first + 1)], readings(j)).Ok?
    {
      assert rows[1..][j - (first + 1)] == rows[j - first];
      assert ToBar(rows[j - first], readings(j)).Ok?;
    }
  }

  predicate AllSound(count: nat, quotes: nat -> Quote) {
    forall i | 0 <= i < count :: SoundQuote(quotes(i))
  }

  /** A generated series normalises: one candle a row, all positive. */
  lemma GeneratedNormalises(rows: seq<BarRow>, count: nat, period: Period, now: int, quotes: nat -> Quote, readings: nat -> int, first: nat)
    requires FairGeneration(count, period, now, readings, first)
    requires GeneratedSeries(rows, count, period, now, quotes) && AllSound(count, quotes)
    ensures Normalise(rows, readings, first).Ok?
  {
    hide Opens, Stamped, ToBar, ToBars, UsableSecond, SoundQuote, PositiveBar, Normalise, CurrentOpen, SeriesTime, IsSeriesRow;
    forall j | first <= j < first + |rows|
      ensures ToBar(rows[j - first], readings(j)).Ok?
    {
      GeneratedRow(rows, count, period, now, quotes, readings, first, j - first);
    }
    AllRowsConvert(rows, readings, first);
    forall i, j | 0 <= i < j < |rows|
      ensures UsableSecond(rows[i][0]) != UsableSecond(rows[j][0])
    {
      GeneratedRow(rows, count, period, now, quotes, readings, first, i);
      GeneratedRow(rows, count, period, now, quotes, readings, first, j);
      SeriesTimesDistinct(count, period, now, i, j);
    }
    RefusedExactlyForSharedSecond(rows, readings, first);
  }

  /** The bar opens at the boundary, or a period before it or earlier. */
  predicate AtOrBefore(bar: Bar, boundary: int, period: Period) {
    Opens(bar) == boundary || Opens(bar) + period <= boundary
  }

  /** A bar of the normalised series is positive, and has closed by any reading not
      behind the instant unless it is the one opening last. */
  lemma GeneratedBar(rows: seq<BarRow>, count: nat, period: Period, now: int, quotes: nat -> Quote, readings: nat -> int, first: nat, bar: Bar)
    requires FairGeneration(count, period, now, readings, first)
    requires GeneratedSeries(rows, count, period, now, quotes) && AllSound(count, quotes)
    requires FromRow(rows, readings, first, bar)
    ensures PositiveBar(bar) && AtOrBefore(bar, CurrentOpen(now, period), period)
  {
    hide Opens, Stamped, ToBar, UsableSecond, SoundQuote, PositiveBar, CurrentOpen, IsSeriesRow, SeriesTime, FairGeneration;
    var i :| 0 <= i < |rows| && ToBar(rows[i], readings(first + i)) == Ok(bar);
    GeneratedRow(rows, count, period, now, quotes, readings, first, i);
    SeriesTimes(count, period, now, i);
  }

  lemma GeneratedBars(rows: seq<BarRow>, count: nat, period: Period, now: int, quotes: nat -> Quote, readings: nat -> int, first: nat)
    requires FairGeneration(count, period, now, readings, first)
    requires GeneratedSeries(rows, count, period, now, quotes) && AllSound(count, quotes)
    ensures Normalise(rows, readings, first).Ok? && |rows| == count
    ensures var bars := Normalise(rows, readings, first).value;
            |bars| == count && AllStamped(bars) && StrictlyAscending(bars)
            && (forall i | 0 <= i < |bars| :: PositiveBar(bars[i]))
            && (forall i | 0 <= i < |bars| :: AtOrBefore(bars[i], CurrentOpen(now, period), period))
  {
    hide Opens, AllStamped, ToBar, PositiveBar, CurrentOpen, Normalise, GeneratedSeries, AllSound, FromRow, FairGeneration,
         RowKept, AtOrBefore, StrictlyAscending;
    GeneratedLength(rows, count, period, now, quotes);
    GeneratedNormalises(rows, count, period, now, quotes, readings, first);
    NormaliseMeaning(rows, readings, first);
    var bars := Normalise(rows, readings, first).value;
    forall i | 0 <= i < |bars|
      ensures PositiveBar(bars[i]) && AtOrBefore(bars[i], CurrentOpen(now, period), period)
    {
      assert FromRow(rows, readings, first, bars[i]);
      GeneratedBar(rows, count, period, now, quotes, readings, first, bars[i]);
    }
  }

  /** All but the last bar of the generated series have closed. */
  lemma AllButLastClosed(rows: seq<BarRow>, count: nat, period: Period, now: int, quotes: nat -> Quote, readings: nat -> int, first: nat, moment: int)
    requires FairGeneration(count, period, now, readings, first) && moment >= now
    requires GeneratedSeries(rows, count, period, now, quotes) && AllSound(count, quotes)
    ensures Normalise(rows, readings, first).Ok?
    ensures var bars := Normalise(rows, readings, first).value;
            |bars| == count && |ClosedOnly(bars, period, moment)| >= count - 1
            && AllStamped(bars) && StrictlyAscending(bars) && forall i | 0 <= i < |bars| :: PositiveBar(bars[i])
  {
    FairBoundary(count, period, now, readings, first, first);
    hide Opens, Stamped, PositiveBar, CurrentOpen, Normalise, GeneratedSeries, AllSound, FairGeneration, ClosedOnly;
    GeneratedBars(rows, count, period, now, quotes, readings, first);
    ClosedAtBoundary(Normalise(rows, readings, first).value, period, CurrentOpen(now, period), moment);
  }

  lemma ClosedAtBoundary(bars: seq<Bar>, period: Period, boundary: int, moment: int)
    requires StrictlyAscending(bars) && boundary * MICROS <= moment
    requires forall i | 0 <= i < |bars| :: AtOrBefore(bars[i], boundary, period)
    ensures |ClosedOnly(bars, period, moment)| >= |bars| - 1
  {
    hide Opens;
    forall i | 0 <= i < |bars| - 1
      ensures ClosedBy(bars[i], period, moment)
    {
      assert Opens(bars[i]) < Opens(bars[i + 1]) && AtOrBefore(bars[i + 1], boundary, period);
    }
    ClosedIsPrefix(bars, period, moment);
  }

  /** The bars of the series that open last: at the boundary and a period before. */
  lemma LastTwoBars(rows: seq<BarRow>, count: nat, period: Period, now: int, quotes: nat -> Quote, readings: nat -> int, first: nat)
    requires FairGeneration(count, period, now, readings, first) && count >= 2
    requires GeneratedSeries(rows, count, period, now, quotes) && AllSound(count, quotes)
    ensures Normalise(rows, readings, first).Ok?
    ensures var bars := Normalise(rows, readings, first).value;
            |bars| == count && StrictlyAscending(bars)
            && Opens(bars[count - 1]) == CurrentOpen(now, period) && Opens(bars[count - 2]) == CurrentOpen(now, period) - period
  {
    hide Opens, Stamped, AllStamped, StrictlyAscending, CurrentOpen, Normalise, GeneratedSeries, AllSound, FairGeneration,
         SeriesTime, PositiveBar, AtOrBefore;
    GeneratedBars(rows, count, period, now, quotes, readings, first);
    var bars := Normalise(rows, readings, first).value;
    SeriesEnds(count, period, now);
    var x := KeptBar(rows, count, period, now, quotes, readings, first, count - 1);
    var y := KeptBar(rows, count, period, now, quotes, readings, first, count - 2);
    LastTwo(bars, x, y, CurrentOpen(now, period), period);
  }

  /** The bar of row `i` in the normalised series. */
  lemma KeptBar(rows: seq<BarRow>, count: nat, period: Period, now: int, quotes: nat -> Quote, readings: nat -> int, first: nat, i: nat)
    returns (bar: Bar)
    requires FairGeneration(count, period, now, readings, first) && i < count
    requires GeneratedSeries(rows, count, period, now, quotes) && AllSound(count, quotes)
    requires Normalise(rows, readings, first).Ok?
    ensures bar in Normalise(rows, readings, first).value && Opens(bar) == SeriesTime(count, period, now, i)
  {
    assert SoundQuote(quotes(i));
    GeneratedLength(rows, count, period, now, quotes);
    hide Opens, Stamped, ToBar, PositiveBar, CurrentOpen, Normalise, GeneratedSeries, AllSound, FairGeneration, SoundQuote, FromRow, SeriesTime;
    NormaliseMeaning(rows, readings, first);
    GeneratedRow(rows, count, period, now, quotes, readings, first, i);
    assert RowKept(rows, readings, first, i, Normalise(rows, readings, first).value);
    bar := ToBar(rows[i], readings(first + i)).value;
  }

  lemma SeriesEnds(count: nat, period: Period, now: int)
    requires count >= 2
    ensures SeriesTime(count, period, now, count - 1) == CurrentOpen(now, period)
    ensures SeriesTime(count, period, now, count - 2) == CurrentOpen(now, period) - period
  {
    hide CurrentOpen;
  }

  lemma LastTwo(bars: seq<Bar>, x: Bar, y: Bar, boundary: int, period: Period)
    requires StrictlyAscending(bars) && |bars| >= 2 && x in bars && y in bars
    requires Opens(x) == boundary && Opens(y) == boundary - period
    requires forall i | 0 <= i < |bars| :: AtOrBefore(bars[i], boundary, period)
    ensures Opens(bars[|bars| - 1]) == boundary && Opens(bars[|bars| - 2]) == boundary - period
  {
    hide Opens;
    var n := |bars|;
    var i :| 0 <= i < n && bars[i] == x;
    var j :| 0 <= j < n && bars[j] == y;
    NoneLater(bars, i);
    assert Opens(bars[n - 1]) == boundary;
    NoneLater(bars[..n - 1], j);
  }

  lemma NoneLater(bars: seq<Bar>, i: nat)
    requires StrictlyAscending(bars) && i < |bars|
    ensures Opens(bars[i]) <= Opens(bars[|bars| - 1])
  {
    hide Opens;
  }

  /** When the newest closed bar of a generated series closes, at a closing reading. */
  function NewestClose(period: Period, now: int, moment: int): int {
    var boundary := CurrentOpen(now, period);
    if (boundary + period) * MICROS <= moment then boundary + period else boundary
  }

  /** That is longer ago than the age limit, if there is one. */
  predicate TooOld(request: Request, now: int, moment: int, later: int)
    requires request.duration > 0
  {
    request.maxAge.Some? && later - NewestClose(request.duration, now, moment) * MICROS > request.maxAge.value * 60 * MICROS
  }

  predicate NewestReturned(r: Result<Loaded, Failure>, limit: nat) {
    r.Ok? && |r.value.bars| == limit && r.value.received == limit + 2 && r.value.dropped <= 1
  }

  /** Rows of `limit` + 2 generated bars give the newest `limit` closed candles, or are
      refused as stale; and that exactly when the newest closed one has closed longer
      before the freshness reading than the configured age. */
  lemma GeneratedSeriesIsEnough(request: Request, rows: seq<BarRow>, now: int, quotes: nat -> Quote, readings: nat -> int, first: nat)
    requires request.limit >= 1 && request.duration > 0
    requires FairGeneration(request.limit + SAFETY_MARGIN_BARS, request.duration, now, readings, first)
    requires GeneratedSeries(rows, request.limit + SAFETY_MARGIN_BARS, request.duration, now, quotes)
    requires AllSound(request.limit + SAFETY_MARGIN_BARS, quotes)
    ensures var r := Assess(request, rows, readings, first);
            if TooOld(request, now, readings(first + |rows|), readings(first + |rows| + 1)) then r == Err(StaleData)
            else NewestReturned(r, request.limit)
  {
    hide Opens, AllStamped, Normalise, GeneratedSeries, AllSound, PositiveBar, FairGeneration, CurrentOpen, Choose, TooOld,
         NewestReturned, StrictlyAscending, ClosedOnly;
    GeneratedLength(rows, request.limit + SAFETY_MARGIN_BARS, request.duration, now, quotes);
    var moment, later := readings(first + |rows|), readings(first + |rows| + 1);
    var count := request.limit + SAFETY_MARGIN_BARS;
    FairBoundary(count, request.duration, now, readings, first, first + |rows|);
    AllButLastClosed(rows, count, request.duration, now, quotes, readings, first, moment);
    LastTwoBars(rows, count, request.duration, now, quotes, readings, first);
    ChooseAtBoundary(request, Normalise(rows, readings, first).value, now, moment, later);
  }

  lemma FairBoundary(count: nat, period: Period, now: int, readings: nat -> int, first: nat, n: nat)
    requires FairGeneration(count, period, now, readings, first) && n >= first
    ensures now >= 0 && CurrentOpen(now, period) * MICROS <= now <= readings(n)
  {
    SeriesTimes(count, period, now, 0);
    CurrentOpenBrackets(now, period);
  }

  lemma ChooseAtBoundary(request: Request, bars: seq<Bar>, now: int, moment: int, later: int)
    requires request.limit >= 1 && request.duration > 0 && |bars| == request.limit + 2 && StrictlyAscending(bars)
    requires Opens(bars[|bars| - 1]) == CurrentOpen(now, request.duration)
    requires Opens(bars[|bars| - 2]) == CurrentOpen(now, request.duration) - request.duration
    requires CurrentOpen(now, request.duration) * MICROS <= moment
    requires forall i | 0 <= i < |bars| :: PositiveBar(bars[i])
    ensures var r := Choose(request, bars, moment, later);
            if TooOld(request, now, moment, later) then r == Err(StaleData) else NewestReturned(r, request.limit)
  {
    hide Opens, PositiveBar, CurrentOpen, Choose;
    var n := |bars|;
    var j := if HasClosed(bars[n - 1], request.duration, moment) then n - 1 else n - 2;
    ChoiceVerdict(request, bars, moment, later);
    assert Opens(bars[request.limit - 1]) < Opens(bars[n - 2]);
    assert NewestClosedIs(bars, request.duration, moment, j);
    assert forall bar | bar in bars :: PositiveBar(bar);
  }

  /** With the allowance of its timeframe, a generated series is fresh up to the
      budget beyond the end of the bar the instant falls inside. */
  lemma AllowedSeriesIsFresh(request: Request, timeframe: Timeframe, budget: nat, now: int, moment: int, later: int)
    requires Duration(timeframe).Some? && request.duration == Duration(timeframe).value
    requires request.maxAge == Observation.StalenessAllowance(Some(budget), timeframe)
    ensures (TooOld(request, now, moment, later)
             <==> later - (NewestClose(request.duration, now, moment) + request.duration) * MICROS > budget * 60 * MICROS)
    ensures later <= (CurrentOpen(now, request.duration) + request.duration) * MICROS + budget * 60 * MICROS
        ==> !TooOld(request, now, moment, later)
  {
    hide CurrentOpen;
    assert request.duration == 60 * (request.duration / 60);
  }

  /** With any age limit, it is fresh while the freshness reading is within the limit
      of the boundary. */
  lemma RecentSeriesIsFresh(request: Request, now: int, moment: int, later: int)
    requires request.duration > 0
    requires request.maxAge.Some? ==> later - CurrentOpen(now, request.duration) * MICROS <= request.maxAge.value * 60 * MICROS
    ensures !TooOld(request, now, moment, later)
  {
    hide CurrentOpen;
  }

  // ----- the scripted conversation, end to end -----------------------------------------------

  /** A payload that may come first: chatter, or a heartbeat. */
  predicate IsLead(reader: Reader, payload: string) {
    Classify(reader.parse, payload).kind in {Other, Heartbeat}
  }

  /** What the scripted socket says: any chatter and heartbeats, the history, the
      completion. */
  ghost predicate Conversation(reader: Reader, payloads: seq<string>, rows: seq<BarRow>) {
    && 2 <= |payloads| <= MAX_MESSAGES
    && (forall i | 0 <= i < |payloads| :: 1 <= |payloads[i]| <= MAX_FRAME_LENGTH)
    && (forall i | 0 <= i < |payloads| - 2 :: IsLead(reader, payloads[i]))
    && Classify(reader.parse, payloads[|payloads| - 2]).kind == TimescaleUpdate
    && ExtractRows(Classify(reader.parse, payloads[|payloads| - 2]), reader.series) == rows
    && Classify(reader.parse, payloads[|payloads| - 1]).kind == SeriesCompleted
  }

  lemma {:induction false} DistinctRowsAllKept(rows: seq<BarRow>)
    requires DistinctKeys(rows)
    ensures PutAll([], rows) == rows
  {
    if rows != [] {
      var front, last := rows[..|rows| - 1], rows[|rows| - 1];
      DistinctRowsAllKept(front);
      forall i | 0 <= i < |front|
        ensures KeyOf(front[i]) != KeyOf(last)
      {
        assert front[i] == rows[i];
      }
      PutNew(front, last);
      assert front + [last] == rows;
    }
  }

  lemma {:induction false} PutNew(table: seq<BarRow>, row: BarRow)
    requires forall i | 0 <= i < |table| :: KeyOf(table[i]) != KeyOf(row)
    ensures Put(table, row) == table + [row]
  {
    if table != [] {
      PutNew(table[1..], row);
    }
  }

  lemma ConversationReads(reader: Reader, refuses: nat -> bool, p: Session.Progress, payloads: seq<string>, rows: seq<BarRow>)
    requires Conversation(reader, payloads, rows) && DistinctKeys(rows) && p.table == [] && forall n :: !refuses(n)
    ensures EndsAtLast(reader, refuses, p, payloads)
    ensures var o := HandleAll(reader, refuses, "", p, payloads); o.Completed? && o.progress.table == rows
  {
    hide HandleOne, HandleAll, Classify, ExtractRows, EndsAtLast, DistinctKeys, IsLead;
    var n := |payloads|;
    var lead, update, completion := payloads[..n - 2], payloads[n - 2], payloads[n - 1];
    LeadGoes(reader, refuses, p, lead);
    var a := HandleAll(reader, refuses, "", p, lead).progress;
    UpdateGoes(reader, refuses, a, update, rows);
    CompletionCompletes(reader, refuses, HandleOne(reader, refuses, "", a, update).progress, completion);
    assert payloads == lead + [update] + [completion];
    LeadUpdateCompletion(reader, refuses, p, lead, update, completion);
  }

  lemma LeadUpdateCompletion(reader: Reader, refuses: nat -> bool, p: Session.Progress,
                             lead: seq<string>, update: string, completion: string)
    requires HandleAll(reader, refuses, "", p, lead).Going?
    requires var a := HandleAll(reader, refuses, "", p, lead).progress;
             var b := HandleOne(reader, refuses, "", a, update);
             b.Going? && HandleOne(reader, refuses, "", b.progress, completion).Completed?
    ensures var payloads := lead + [update] + [completion];
            var b := HandleOne(reader, refuses, "", HandleAll(reader, refuses, "", p, lead).progress, update).progress;
            EndsAtLast(reader, refuses, p, payloads)
            && HandleAll(reader, refuses, "", p, payloads) == HandleOne(reader, refuses, "", b, completion)
  {
    hide HandleOne, HandleAll;
    var a := HandleAll(reader, refuses, "", p, lead).progress;
    var b := HandleOne(reader, refuses, "", a, update).progress;
    LastOnly(reader, refuses, "", a, update);
    LastOnly(reader, refuses, "", b, completion);
    HandleInTwoParts(reader, refuses, "", p, lead, [update]);
    HandleInTwoParts(reader, refuses, "", p, lead + [update], [completion]);
    var payloads := lead + [update] + [completion];
    assert payloads[..|payloads| - 1] == lead + [update];
  }

  lemma {:induction false} LeadGoes(reader: Reader, refuses: nat -> bool, p: Session.Progress, lead: seq<string>)
    requires (forall i | 0 <= i < |lead| :: IsLead(reader, lead[i])) && forall n :: !refuses(n)
    ensures var o := HandleAll(reader, refuses, "", p, lead); o.Going? && o.progress.table == p.table
    decreases |lead|
  {
    hide Classify;
    if lead != [] {
      assert IsLead(reader, lead[0]);
      LeadGoes(reader, refuses, HandleOne(reader, refuses, "", p, lead[0]).progress, lead[1..]);
    }
  }

  lemma UpdateGoes(reader: Reader, refuses: nat -> bool, p: Session.Progress, update: string, rows: seq<BarRow>)
    requires Classify(reader.parse, update).kind == TimescaleUpdate
    requires ExtractRows(Classify(reader.parse, update), reader.series) == rows && DistinctKeys(rows) && p.table == []
    ensures var o := HandleOne(reader, refuses, "", p, update); o.Going? && o.progress.table == rows
  {
    hide Classify, ExtractRows, DistinctKeys;
    assert AllUsable(rows);
    CollectedRows([], rows);
    DistinctRowsAllKept(rows);
  }

  lemma CompletionCompletes(reader: Reader, refuses: nat -> bool, p: Session.Progress, completion: string)
    requires Classify(reader.parse, completion).kind == SeriesCompleted
    ensures var o := HandleOne(reader, refuses, "", p, completion); o.Completed? && o.progress.table == p.table
  {
    hide Classify;
  }

  lemma {:induction false} HandshakeGoes(refuses: nat -> bool, sent: seq<string>, commands: seq<string>)
    requires forall n :: !refuses(n)
    ensures Handshake(refuses, sent, commands).0
    decreases |commands|
  {
    if commands != [] {
      HandshakeGoes(refuses, sent + [EncodeFrame(commands[0])], commands[1..]);
    }
  }

  lemma GeneratedKeysDistinct(rows: seq<BarRow>, count: nat, period: Period, now: int, quotes: nat -> Quote)
    requires GeneratedSeries(rows, count, period, now, quotes)
    ensures DistinctKeys(rows)
  {
    forall i, j | 0 <= i < j < |rows|
      ensures KeyOf(rows[i]) != KeyOf(rows[j])
    {
      SeriesTimesDistinct(count, period, now, i, j);
      SeriesKey(rows[i], SeriesTime(count, period, now, i), quotes(i));
      SeriesKey(rows[j], SeriesTime(count, period, now, j), quotes(j));
    }
  }

  lemma SeriesKey(row: BarRow, time: int, quote: Quote)
    requires IsSeriesRow(row, time, quote)
    ensures KeyOf(row) == ByValue(time as real)
  {
    assert Number(time, 0).Value() == (time * 1) as real;
  }

  /** A fetch over a scripted socket: `limit` + 2 sound generated bars, sent as the
      scripted conversation in whatever packets arrive in time, read by a clock that
      never runs behind the generating instant. */
  ghost predicate ScriptedFetch(settings: Settings, opening: Opening, clocks: Clocks, cut: seq<string>,
                                payloads: seq<string>, rows: seq<BarRow>, now: int, quotes: nat -> Quote) {
    && settings.Valid() && settings.request.duration > 0
    && opening.Connects? && (forall n :: !opening.refuses(n))
    && Conversation(settings.reader, payloads, rows)
    && Join(cut) == EncodeFrames(payloads) && Arrives(settings, opening, clocks, cut)
    && GeneratedSeries(rows, settings.request.limit + SAFETY_MARGIN_BARS, settings.request.duration, now, quotes)
    && AllSound(settings.request.limit + SAFETY_MARGIN_BARS, quotes)
    && FairGeneration(settings.request.limit + SAFETY_MARGIN_BARS, settings.request.duration, now, clocks.now, clocks.n + 2)
  }

  /** From the socket to the candles: such a fetch gives the newest `limit` closed
      candles, or is refused as stale, and that exactly when the newest closed bar is
      older than the configured age. */
  lemma ScriptedFetchSucceeds(settings: Settings, opening: Opening, clocks: Clocks, cut: seq<string>,
                              payloads: seq<string>, rows: seq<BarRow>, now: int, quotes: nat -> Quote)
    requires ScriptedFetch(settings, opening, clocks, cut, payloads, rows, now, quotes)
    ensures var r, closing := FetchOutcome(settings, opening, clocks), clocks.n + 2 + settings.request.limit + SAFETY_MARGIN_BARS;
            if TooOld(settings.request, now, clocks.now(closing), clocks.now(closing + 1)) then r == Err(StaleData)
            else NewestReturned(r, settings.request.limit)
  {
    hide Assess, Conversation, GeneratedSeries, AllSound, FairGeneration, Delivers, Arrives, DistinctKeys, ReadFrom, Handshake, TooOld, NewestReturned;
    ArrivesInTime(settings, opening, clocks, cut);
    var request := settings.request;
    GeneratedLength(rows, request.limit + SAFETY_MARGIN_BARS, request.duration, now, quotes);
    GeneratedKeysDistinct(rows, request.limit + SAFETY_MARGIN_BARS, request.duration, now, quotes);
    HandshakeGoes(opening.refuses, [], settings.handshake);
    var p := Session.Progress([], NO_STATS, Handshake(opening.refuses, [], settings.handshake).1);
    ScriptedReadCompletes(settings.reader, FeedOf(settings, opening, clocks), p, cut, payloads, rows);
    FetchWhenRead(settings, opening, clocks);
    hide FetchOutcome, FeedOf;
    GeneratedSeriesIsEnough(request, rows, now, quotes, clocks.now, clocks.n + 2);
  }

  lemma GeneratedLength(rows: seq<BarRow>, count: nat, period: Period, now: int, quotes: nat -> Quote)
    requires GeneratedSeries(rows, count, period, now, quotes)
    ensures |rows| == count
  {
  }

  /** The candle of the i-th generated row: its opening time, and its quote, each price
      in its place. */
  predicate IsSeriesCandle(bar: Bar, time: int, quote: Quote) {
    Opens(bar) == time
    && PriceFrom(bar.open, JNumber(quote.open)) && PriceFrom(bar.high, JNumber(quote.high))
    && PriceFrom(bar.low, JNumber(quote.low)) && PriceFrom(bar.close, JNumber(quote.close))
  }

  predicate CandleOfSeries(bar: Bar, count: nat, period: Period, now: int, quotes: nat -> Quote) {
    exists i: nat | i < count :: IsSeriesCandle(bar, SeriesTime(count, period, now, i), quotes(i))
  }

  lemma SeriesCandle(bar: Bar, row: BarRow, time: int, quote: Quote)
    requires IsSeriesRow(row, time, quote) && CandleFrom(bar, row) && KeyTruncates(row, Opens(bar))
    ensures IsSeriesCandle(bar, time, quote)
  {
    hide Opens, PriceFrom, VolumeFrom;
    assert Number(time, 0).Value() == (time * 1) as real == time as real;
  }

  lemma CandlesOfSeries(rows: seq<BarRow>, count: nat, period: Period, now: int, quotes: nat -> Quote, bar: Bar)
    requires GeneratedSeries(rows, count, period, now, quotes) && IsCandleOf(bar, rows)
    ensures CandleOfSeries(bar, count, period, now, quotes)
  {
    hide Opens, CandleFrom, KeyTruncates, IsSeriesRow, IsSeriesCandle;
    var row :| row in rows && CandleFrom(bar, row) && KeyTruncates(row, Opens(bar));
    var i: nat :| i < |rows| && rows[i] == row;
    SeriesCandle(bar, row, SeriesTime(count, period, now, i), quotes(i));
  }

  /** Candles in order, as many as the period asks for, the last of them closing when
      the newest closed bar does: so they are the newest, one period apart. */
  predicate NewestOfSeries(bars: seq<Bar>, period: Period, newestClose: int) {
    forall j | 0 <= j < |bars| :: Opens(bars[j]) == newestClose - (|bars| - j) * period
  }

  /** In order and on the grid of the series, as many bars as the grid has: the i-th
      opens at the i-th time. */
  lemma {:induction false} GridFromAbove(bars: seq<Bar>, count: nat, period: Period, now: int, i: nat)
    requires |bars| == count && StrictlyAscending(bars) && i < count
    requires forall n | 0 <= n < count :: OnGrid(bars[n], count, period, now)
    ensures Opens(bars[i]) <= SeriesTime(count, period, now, i)
    decreases count - i
  {
    hide Opens, CurrentOpen;
    assert OnGrid(bars[i], count, period, now);
    var n: nat :| n < count && Opens(bars[i]) == SeriesTime(count, period, now, n);
    if i + 1 < count {
      GridFromAbove(bars, count, period, now, i + 1);
      assert Opens(bars[i]) < Opens(bars[i + 1]);
      GridOrder(count, period, now, i + 1, n);
      GridOrder(count, period, now, n, i);
    } else {
      GridOrder(count, period, now, n, i);
    }
  }

  lemma {:induction false} GridFromBelow(bars: seq<Bar>, count: nat, period: Period, now: int, i: nat)
    requires |bars| == count && StrictlyAscending(bars) && i < count
    requires forall n | 0 <= n < count :: OnGrid(bars[n], count, period, now)
    ensures Opens(bars[i]) >= SeriesTime(count, period, now, i)
    decreases i
  {
    hide Opens, CurrentOpen;
    assert OnGrid(bars[i], count, period, now);
    var n: nat :| n < count && Opens(bars[i]) == SeriesTime(count, period, now, n);
    if i > 0 {
      GridFromBelow(bars, count, period, now, i - 1);
      assert Opens(bars[i - 1]) < Opens(bars[i]);
      GridOrder(count, period, now, n, i - 1);
      GridOrder(count, period, now, i, n);
    } else {
      GridOrder(count, period, now, i, n);
    }
  }

  predicate OnGrid(bar: Bar, count: nat, period: Period, now: int) {
    exists n: nat | n < count :: Opens(bar) == SeriesTime(count, period, now, n)
  }

  lemma GridOrder(count: nat, period: Period, now: int, i: int, j: int)
    ensures i <= j ==> SeriesTime(count, period, now, i) <= SeriesTime(count, period, now, j)
  {
    hide CurrentOpen;
    if i <= j {
      Steps(count - 1 - j, count - 1 - i, period);
    }
  }

  /** The i-th bar of a normalised generated series opens at the i-th time. */
  lemma NormalisedTimes(rows: seq<BarRow>, count: nat, period: Period, now: int, quotes: nat -> Quote, readings: nat -> int, first: nat)
    requires FairGeneration(count, period, now, readings, first)
    requires GeneratedSeries(rows, count, period, now, quotes) && AllSound(count, quotes)
    ensures Normalise(rows, readings, first).Ok? && |Normalise(rows, readings, first).value| == count
    ensures forall i | 0 <= i < count ::
              Opens(Normalise(rows, readings, first).value[i]) == SeriesTime(count, period, now, i)
  {
    hide Opens, Stamped, AllStamped, StrictlyAscending, CurrentOpen, Normalise, GeneratedSeries, AllSound, FairGeneration,
         SeriesTime, PositiveBar, AtOrBefore, FromRow;
    GeneratedBars(rows, count, period, now, quotes, readings, first);
    NormaliseMeaning(rows, readings, first);
    var bars := Normalise(rows, readings, first).value;
    forall i | 0 <= i < count
      ensures OnGrid(bars[i], count, period, now)
    {
      BarOnGrid(rows, count, period, now, quotes, readings, first, bars[i]);
    }
    forall i | 0 <= i < count
      ensures Opens(bars[i]) == SeriesTime(count, period, now, i)
    {
      GridFromAbove(bars, count, period, now, i);
      GridFromBelow(bars, count, period, now, i);
    }
  }

  lemma BarOnGrid(rows: seq<BarRow>, count: nat, period: Period, now: int, quotes: nat -> Quote, readings: nat -> int, first: nat, bar: Bar)
    requires FairGeneration(count, period, now, readings, first)
    requires GeneratedSeries(rows, count, period, now, quotes) && AllSound(count, quotes)
    requires FromRow(rows, readings, first, bar)
    ensures OnGrid(bar, count, period, now)
  {
    hide Opens, Stamped, ToBar, UsableSecond, SoundQuote, PositiveBar, CurrentOpen, IsSeriesRow, SeriesTime, FairGeneration;
    var i :| 0 <= i < |rows| && ToBar(rows[i], readings(first + i)) == Ok(bar);
    GeneratedRow(rows, count, period, now, quotes, readings, first, i);
  }

  /** What a scripted fetch returns, if it is not too late: the newest closed candles of
      the generated series, one period apart up to the newest close, each with the
      prices of its own quote. */
  lemma ScriptedFetchCandles(settings: Settings, opening: Opening, clocks: Clocks, cut: seq<string>,
                             payloads: seq<string>, rows: seq<BarRow>, now: int, quotes: nat -> Quote)
    requires ScriptedFetch(settings, opening, clocks, cut, payloads, rows, now, quotes)
    requires FetchOutcome(settings, opening, clocks).Ok?
    ensures var request := settings.request;
            var bars := FetchOutcome(settings, opening, clocks).value.bars;
            var moment := clocks.now(clocks.n + 2 + request.limit + SAFETY_MARGIN_BARS);
            && NewestOfSeries(bars, request.duration, NewestClose(request.duration, now, moment))
            && forall bar | bar in bars ::
                 CandleOfSeries(bar, request.limit + SAFETY_MARGIN_BARS, request.duration, now, quotes)
  {
    hide Assess, Conversation, GeneratedSeries, AllSound, FairGeneration, Delivers, Arrives, DistinctKeys, ReadFrom, Handshake,
         CandleOfSeries, IsCandleOf, NewestOfSeries, CurrentOpen;
    var request := settings.request;
    ArrivesInTime(settings, opening, clocks, cut);
    GeneratedLength(rows, request.limit + SAFETY_MARGIN_BARS, request.duration, now, quotes);
    GeneratedKeysDistinct(rows, request.limit + SAFETY_MARGIN_BARS, request.duration, now, quotes);
    HandshakeGoes(opening.refuses, [], settings.handshake);
    var p := Session.Progress([], NO_STATS, Handshake(opening.refuses, [], settings.handshake).1);
    ScriptedReadCompletes(settings.reader, FeedOf(settings, opening, clocks), p, cut, payloads, rows);
    FetchWhenRead(settings, opening, clocks);
    SeriesReturned(request, rows, now, quotes, clocks.now, clocks.n + 2);
  }

  lemma SeriesReturned(request: Request, rows: seq<BarRow>, now: int, quotes: nat -> Quote, readings: nat -> int, first: nat)
    requires request.limit >= 1 && request.duration > 0
    requires FairGeneration(request.limit + SAFETY_MARGIN_BARS, request.duration, now, readings, first)
    requires GeneratedSeries(rows, request.limit + SAFETY_MARGIN_BARS, request.duration, now, quotes)
    requires AllSound(request.limit + SAFETY_MARGIN_BARS, quotes)
    requires Assess(request, rows, readings, first).Ok?
    ensures var bars := Assess(request, rows, readings, first).value.bars;
            && NewestOfSeries(bars, request.duration, NewestClose(request.duration, now, readings(first + |rows|)))
            && forall bar | bar in bars ::
                 CandleOfSeries(bar, request.limit + SAFETY_MARGIN_BARS, request.duration, now, quotes)
  {
    hide Normalise, GeneratedSeries, AllSound, FairGeneration, CurrentOpen, Choose, CandleOfSeries, IsCandleOf, Opens,
         AllStamped, StrictlyAscending, PositiveBar, AtOrBefore, NewestOfSeries;
    var count := request.limit + SAFETY_MARGIN_BARS;
    GeneratedLength(rows, count, request.duration, now, quotes);
    FairBoundary(count, request.duration, now, readings, first, first + |rows|);
    GeneratedBars(rows, count, request.duration, now, quotes, readings, first);
    NormalisedTimes(rows, count, request.duration, now, quotes, readings, first);
    NewestChosen(request, Normalise(rows, readings, first).value, now, readings(first + |rows|), readings(first + |rows| + 1));
    ReturnedCandles(request, rows, readings, first);
    forall bar | bar in Assess(request, rows, readings, first).value.bars
      ensures CandleOfSeries(bar, count, request.duration, now, quotes)
    {
      CandlesOfSeries(rows, count, request.duration, now, quotes, bar);
    }
  }

  lemma NewestChosen(request: Request, bars: seq<Bar>, now: int, moment: int, later: int)
    requires request.limit >= 1 && request.duration > 0 && |bars| == request.limit + 2 && StrictlyAscending(bars)
    requires forall i | 0 <= i < |bars| :: Opens(bars[i]) == SeriesTime(|bars|, request.duration, now, i)
    requires CurrentOpen(now, request.duration) * MICROS <= moment && Choose(request, bars, moment, later).Ok?
    ensures NewestOfSeries(Choose(request, bars, moment, later).value.bars, request.duration, NewestClose(request.duration, now, moment))
  {
    hide Opens, PositivePrices, IsStale, CurrentOpen, SeriesTime;
    var d, n := request.duration, |bars|;
    SeriesEnds(n, d, now);
    ClosedIsPrefix(bars, d, moment);
    var k := |ClosedOnly(bars, d, moment)|;
    assert ClosedBy(bars[n - 2], d, moment);
    assert k == if (CurrentOpen(now, d) + d) * MICROS <= moment then n else n - 1;
    var selected := bars[..k][k - request.limit..];
    forall j | 0 <= j < |selected|
      ensures Opens(selected[j]) == NewestClose(d, now, moment) - (|selected| - j) * d
    {
      var i := k - request.limit + j;
      assert selected[j] == bars[i] && |selected| - j == k - i;
      BackFromClose(n, d, now, i, k);
    }
  }

  /** Counted back from the close of the last bar or of the one before. */
  lemma BackFromClose(count: nat, period: Period, now: int, i: int, k: int)
    requires k == count || k == count - 1
    ensures SeriesTime(count, period, now, i) == CurrentOpen(now, period) + (if k == count then period else 0) - (k - i) * period
  {
    hide CurrentOpen;
    Distribute(count - 1 - i, 1, period);
  }

  /** As the multi-timeframe source builds it, with the allowance of the timeframe: the
      fetch succeeds unless the freshness check comes more than the budget after the
      end of the bar the instant falls inside. */
  lemma ScriptedFetchWithAllowance(settings: Settings, opening: Opening, clocks: Clocks, cut: seq<string>,
                                   payloads: seq<string>, rows: seq<BarRow>, now: int, quotes: nat -> Quote,
                                   timeframe: Timeframe, budget: nat)
    requires ScriptedFetch(settings, opening, clocks, cut, payloads, rows, now, quotes)
    requires Duration(timeframe) == Some(settings.request.duration)
    requires settings.request.maxAge == Observation.StalenessAllowance(Some(budget), timeframe)
    requires clocks.now(clocks.n + 2 + settings.request.limit + SAFETY_MARGIN_BARS + 1)
          <= (CurrentOpen(now, settings.request.duration) + settings.request.duration) * MICROS + budget * 60 * MICROS
    ensures NewestReturned(FetchOutcome(settings, opening, clocks), settings.request.limit)
  {
    hide FetchOutcome, TooOld, NewestReturned, CurrentOpen, ScriptedFetch;
    var closing := clocks.n + 2 + settings.request.limit + SAFETY_MARGIN_BARS;
    ScriptedFetchSucceeds(settings, opening, clocks, cut, payloads, rows, now, quotes);
    AllowedSeriesIsFresh(settings.request, timeframe, budget, now, clocks.now(closing), clocks.now(closing + 1));
  }

  lemma ScriptedReadCompletes(reader: Reader, feed: Feed, p: Session.Progress, cut: seq<string>,
                              payloads: seq<string>, rows: seq<BarRow>)
    requires forall n :: !feed.refuses(n)
    requires Conversation(reader, payloads, rows) && DistinctKeys(rows)
    requires p.table == [] && p.stats == NO_STATS
    requires Join(cut) == EncodeFrames(payloads) && Delivers(feed, 0, cut)
    ensures var o := ReadFrom(reader, feed, 0, "", p); o.Completed? && o.progress.table == rows
  {
    hide Decode, HandleAll, Conversation, Delivers, EndsAtLast, DistinctKeys, ReadFrom, EncodeFrames, Join;
    ConversationLengths(reader, payloads, rows);
    ConversationReads(reader, feed.refuses, p, payloads, rows);
    ConversationDecodes(payloads, Join(cut));
    DecodeNothing();
    PacketisationIndependence(reader, feed, 0, "", p, cut, payloads);
  }

  lemma ConversationDecodes(payloads: seq<string>, text: string)
    requires text == EncodeFrames(payloads) && forall q | q in payloads :: 1 <= |q| <= MAX_FRAME_LENGTH
    ensures Decode("" + text) == Decoded(payloads, "")
  {
    hide Decode;
    FrameRoundTrip(payloads, "");
    assert EncodeFrames(payloads) + "" == text && "" + text == text;
  }

  lemma ConversationLengths(reader: Reader, payloads: seq<string>, rows: seq<BarRow>)
    requires Conversation(reader, payloads, rows)
    ensures |payloads| <= MAX_MESSAGES && forall q | q in payloads :: 1 <= |q| <= MAX_FRAME_LENGTH
  {
  }
}
