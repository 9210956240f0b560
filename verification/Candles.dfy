/** From raw rows to trusted candles: validation, order, the closed-candle proof,
    the newest `limit`, freshness. */
module Candles {
  import opened Numerals
  import opened Options
  import opened Failures
  import opened Prices
  import opened Messages
  import opened Calendar
  import opened Stamps
  import opened Timeframes

  const MIN_TIMESTAMP: int := 946_684_800

  /** How far ahead of the clock a bar may open, in microseconds: two days. */
  const MAX_SKEW: int := 2 * 86_400 * MICROS

  const SAFETY_MARGIN_BARS: nat := 2

  datatype Bar = Bar(stamp: string, open: Number, high: Number, low: Number, close: Number, volume: Option<Number>)

  // ----- one row ---------------------------------------------------------------

  /** The whole second a timestamp names, if a datetime can hold it. */
  function UsableSecond(value: Json): (r: Result<int, Failure>)
    ensures r.Ok? ==> InRange(r.value)
  {
    match value
    case JNumber(n) =>
      if n.Value() < MIN_TIMESTAMP as real then Err(CandleFault)
      else if n.Value().Floor >= PAST_LAST_SECOND then Err(DateOutOfRange)
      else
        assert FIRST_SECOND <= 0;
        Ok(n.Value().Floor)
    case _ => Err(CandleFault)
  }

  /** Only numbers name a second, from the earliest accepted one to the end of year
      9999, and the second is the number cut off to a whole one. */
  lemma SecondIsTruncation(value: Json, second: int)
    ensures UsableSecond(value) == Ok(second)
       <==> value.JNumber? && MIN_TIMESTAMP <= second < PAST_LAST_SECOND
            && second as real <= value.number.Value() < second as real + 1.0
  {
    hide Number.Value;
    if value.JNumber? {
      FloorWithin(value.number.Value(), second);
    }
  }

  lemma FloorWithin(x: real, n: int)
    ensures x.Floor == n <==> n as real <= x < n as real + 1.0
  {
  }

  function PriceOf(value: Json): Result<Number, Failure> {
    match value
    case JNumber(n) =>
      if n.Value() <= 0.0 then Err(CandleFault)
      else (match FeedPrice(n) case Some(price) => Ok(price) case None => Err(DecimalOverflow))
    case _ => Err(CandleFault)
  }

  /** An unusable volume is dropped, never a reason to refuse a candle. */
  function VolumeOf(row: BarRow): Option<Number> {
    if |row| > MIN_BAR_FIELDS && row[5].JNumber? && row[5].number.Value() >= 0.0 then Some(row[5].number) else None
  }

  /** The rest of a row, once its opening second is known to be acceptable. */
  function CandleAt(second: int, row: BarRow): (r: Result<Bar, Failure>)
    requires InRange(second)
    ensures r.Ok? ==> r.value.stamp == Iso(second)
  {
    match (PriceOf(row[1]), PriceOf(row[2]), PriceOf(row[3]), PriceOf(row[4]))
    case (Err(f), _, _, _) => Err(f)
    case (_, Err(f), _, _) => Err(f)
    case (_, _, Err(f), _) => Err(f)
    case (_, _, _, Err(f)) => Err(f)
    case (Ok(open), Ok(high), Ok(low), Ok(close)) =>
      if OrderedPrices(open, high, low, close) then Ok(Bar(Iso(second), open, high, low, close, VolumeOf(row)))
      else Err(CandleFault)
  }

  /** One row read at one clock reading. */
  function ToBar(row: BarRow, now: int): (r: Result<Bar, Failure>)
    ensures r.Ok? ==> UsableSecond(row[0]).Ok? && r.value.stamp == Iso(UsableSecond(row[0]).value)
  {
    match UsableSecond(row[0])
    case Err(f) => Err(f)
    case Ok(second) => if second * MICROS > now + MAX_SKEW then Err(CandleFault) else CandleAt(second, row)
  }

  // ----- what a candle says of its row -------------------------------------------

  /** A value in units of the eighth decimal, rounded half-even to a whole one. */
  function EighthUnits(n: Number): int {
    Nearest(n.Value() * 100_000_000.0)
  }

  /** The price is the value rounded half-even to the eighth decimal, written with as
      many places as the value was, between none and eight. */
  predicate PriceFrom(price: Number, value: Json) {
    value.JNumber? && value.number.Value() > 0.0
    && price.Value() * 100_000_000.0 == EighthUnits(value.number) as real
    && price.Places() == if value.number.Places() < 0 then 0 else if value.number.Places() > 8 then 8 else value.number.Places()
  }

  /** The volume is the sixth field, where that is a number not below zero. */
  predicate VolumeFrom(volume: Option<Number>, row: BarRow) {
    volume == if |row| > 5 && row[5].JNumber? && row[5].number.Value() >= 0.0 then Some(row[5].number) else None
  }

  /** Open, high, low and close are the second to the fifth field, in this order. */
  predicate CandleFrom(bar: Bar, row: BarRow) {
    PriceFrom(bar.open, row[1]) && PriceFrom(bar.high, row[2]) && PriceFrom(bar.low, row[3]) && PriceFrom(bar.close, row[4])
    && VolumeFrom(bar.volume, row)
  }

  /** The first field is a number that truncates to this second. */
  predicate KeyTruncates(row: BarRow, second: int) {
    row[0].JNumber? && MIN_TIMESTAMP <= second < PAST_LAST_SECOND
    && second as real <= row[0].number.Value() < second as real + 1.0
  }

  /** It opens at most two days ahead of the clock. */
  predicate WithinSkew(second: int, now: int) {
    second * 1_000_000 <= now + 172_800_000_000
  }

  /** A positive number the decimal context can hold. */
  predicate Convertible(value: Json) {
    value.JNumber? && value.number.Value() > 0.0 && FeedPrice(value.number).Some?
  }

  /** High is not below and low not above the other rounded prices. */
  predicate RoundedInOrder(row: BarRow)
    requires forall c | 1 <= c <= 4 :: row[c].JNumber?
  {
    var open, high, low, close :=
      EighthUnits(row[1].number), EighthUnits(row[2].number), EighthUnits(row[3].number), EighthUnits(row[4].number);
    low <= open <= high && low <= close <= high
  }

  lemma PriceMeaning(value: Json)
    ensures PriceOf(value).Ok? <==> Convertible(value)
    ensures PriceOf(value).Ok? ==> PriceFrom(PriceOf(value).value, value)
  {
    hide FeedPrice, Number.Value, Nearest, InUnits;
    if Convertible(value) {
      FeedPriceRounds(value.number);
      FeedPricePlaces(value.number);
      EighthDecimal(value.number);
      EighthDecimal(FeedPrice(value.number).value);
    }
  }

  /** Every accepted row says what its candle is: the fields in order, the prices
      rounded, the second truncated. */
  lemma CandleOfRow(row: BarRow, now: int)
    requires ToBar(row, now).Ok?
    ensures var bar := ToBar(row, now).value;
            CandleFrom(bar, row) && Stamped(bar) && KeyTruncates(row, Opens(bar)) && WithinSkew(Opens(bar), now)
  {
    hide PriceOf, PriceFrom, Opens, Stamped, OrderedPrices, Number.Value;
    ToBarIsStamped(row, now);
    PriceMeaning(row[1]);
    PriceMeaning(row[2]);
    PriceMeaning(row[3]);
    PriceMeaning(row[4]);
    KeyOfUsable(row, UsableSecond(row[0]).value);
  }

  lemma KeyOfUsable(row: BarRow, second: int)
    ensures UsableSecond(row[0]) == Ok(second) <==> KeyTruncates(row, second)
  {
    hide UsableSecond;
    SecondIsTruncation(row[0], second);
  }

  /** And a row is accepted exactly when its first field truncates to a second not too
      far ahead, its prices are positive numbers within the context, and rounded they
      are in order. */
  lemma RowAcceptedExactly(row: BarRow, now: int)
    ensures ToBar(row, now).Ok?
       <==> (exists second :: KeyTruncates(row, second) && WithinSkew(second, now))
            && (forall c | 1 <= c <= 4 :: Convertible(row[c])) && RoundedInOrder(row)
  {
    hide PriceOf, Convertible, RoundedInOrder, KeyTruncates, UsableSecond, OrderedPrices, Number.Value;
    PriceMeaning(row[1]);
    PriceMeaning(row[2]);
    PriceMeaning(row[3]);
    PriceMeaning(row[4]);
    if second :| KeyTruncates(row, second) && WithinSkew(second, now) {
      KeyOfUsable(row, second);
    }
    if UsableSecond(row[0]).Ok? {
      KeyOfUsable(row, UsableSecond(row[0]).value);
    }
    if forall c | 1 <= c <= 4 :: Convertible(row[c]) {
      assert Convertible(row[1]) && Convertible(row[2]) && Convertible(row[3]) && Convertible(row[4]);
      OrderOfRounded(row);
    }
  }

  lemma OrderOfRounded(row: BarRow)
    requires PriceOf(row[1]).Ok? && PriceOf(row[2]).Ok? && PriceOf(row[3]).Ok? && PriceOf(row[4]).Ok?
    ensures forall c | 1 <= c <= 4 :: row[c].JNumber?
    ensures OrderedPrices(PriceOf(row[1]).value, PriceOf(row[2]).value, PriceOf(row[3]).value, PriceOf(row[4]).value)
       <==> RoundedInOrder(row)
  {
    hide PriceOf, EighthUnits, Number.Value;
    RoundedCompare(row[3], row[2]);
    RoundedCompare(row[1], row[2]);
    RoundedCompare(row[4], row[2]);
    RoundedCompare(row[3], row[1]);
    RoundedCompare(row[3], row[4]);
  }

  lemma RoundedCompare(a: Json, b: Json)
    requires PriceOf(a).Ok? && PriceOf(b).Ok?
    ensures a.JNumber? && b.JNumber?
    ensures PriceOf(a).value.Value() <= PriceOf(b).value.Value() <==> EighthUnits(a.number) <= EighthUnits(b.number)
  {
    hide PriceOf, EighthUnits, Number.Value;
    PriceMeaning(a);
    PriceMeaning(b);
  }

  // ----- order -----------------------------------------------------------------

  /** The second a bar opens, read back from its timestamp text. */
  function Opens(bar: Bar): int {
    match FromIso(bar.stamp)
    case Some(second) => second
    case None => 0
  }

  /** The timestamp text is that of a real second. Every bar made from a row is. */
  predicate Stamped(bar: Bar) {
    InRange(Opens(bar)) && bar.stamp == Iso(Opens(bar))
  }

  predicate AllStamped(bars: seq<Bar>) {
    forall i | 0 <= i < |bars| :: Stamped(bars[i])
  }

  predicate ClosedBy(bar: Bar, duration: nat, now: int) {
    (Opens(bar) + duration) * MICROS <= now
  }

  lemma ToBarIsStamped(row: BarRow, now: int)
    requires ToBar(row, now).Ok?
    ensures var bar := ToBar(row, now).value; Stamped(bar) && Opens(bar) == UsableSecond(row[0]).value
  {
    IsoRoundTrip(UsableSecond(row[0]).value);
  }

  /** Timestamp text compares as opening seconds do. */
  lemma StampOrder(a: Bar, b: Bar)
    requires Stamped(a) && Stamped(b)
    ensures Less(a.stamp, b.stamp) <==> Opens(a) < Opens(b)
    ensures a.stamp == b.stamp <==> Opens(a) == Opens(b)
  {
    IsoOrder(Opens(a), Opens(b));
  }

  /** Insert behind every bar whose text does not come after. */
  function Insert(sorted: seq<Bar>, bar: Bar): seq<Bar> {
    if sorted == [] || Less(bar.stamp, sorted[0].stamp) then [bar] + sorted
    else [sorted[0]] + Insert(sorted[1..], bar)
  }

  /** The stable sort by timestamp text. */
  function SortByStamp(bars: seq<Bar>): seq<Bar> {
    if bars == [] then [] else Insert(SortByStamp(bars[..|bars| - 1]), bars[|bars| - 1])
  }

  predicate Ascending(bars: seq<Bar>) {
    forall i, j | 0 <= i < j < |bars| :: Opens(bars[i]) <= Opens(bars[j])
  }

  predicate StrictlyAscending(bars: seq<Bar>) {
    forall i, j | 0 <= i < j < |bars| :: Opens(bars[i]) < Opens(bars[j])
  }

  lemma {:induction false} InsertKeepsBars(sorted: seq<Bar>, bar: Bar)
    ensures multiset(Insert(sorted, bar)) == multiset(sorted) + multiset{bar}
  {
    if sorted != [] && !Less(bar.stamp, sorted[0].stamp) {
      InsertKeepsBars(sorted[1..], bar);
      assert sorted == [sorted[0]] + sorted[1..];
    }
  }

  lemma {:induction false} InsertKeepsOrder(sorted: seq<Bar>, bar: Bar)
    requires AllStamped(sorted) && Stamped(bar) && Ascending(sorted)
    ensures AllStamped(Insert(sorted, bar)) && Ascending(Insert(sorted, bar))
  {
    hide Opens, Stamped, Less;
    if sorted != [] {
      StampOrder(bar, sorted[0]);
      if !Less(bar.stamp, sorted[0].stamp) {
        var rest := Insert(sorted[1..], bar);
        InsertKeepsOrder(sorted[1..], bar);
        InsertKeepsBars(sorted[1..], bar);
        forall j | 0 <= j < |rest|
          ensures Opens(sorted[0]) <= Opens(rest[j])
        {
          assert rest[j] in multiset(rest);
          assert rest[j] == bar || rest[j] in sorted[1..];
        }
        assert Insert(sorted, bar) == [sorted[0]] + rest;
      }
    }
  }

  /** Sorting the text permutes the bars into chronological order. */
  lemma {:induction false} SortIsChronological(bars: seq<Bar>)
    requires AllStamped(bars)
    ensures var sorted := SortByStamp(bars);
            multiset(sorted) == multiset(bars) && AllStamped(sorted) && Ascending(sorted)
  {
    hide Opens, Stamped;
    if bars != [] {
      var front, last := bars[..|bars| - 1], bars[|bars| - 1];
      SortIsChronological(front);
      InsertKeepsBars(SortByStamp(front), last);
      InsertKeepsOrder(SortByStamp(front), last);
      assert bars == front + [last];
    }
  }

  // ----- the series ------------------------------------------------------------

  /** Rows in turn, each read at the next reading of the clock. */
  function ToBars(rows: seq<BarRow>, now: nat -> int, first: nat): (r: Result<seq<Bar>, Failure>)
    ensures r.Ok? ==> |r.value| == |rows|
    decreases |rows|
  {
    if rows == [] then Ok([])
    else
      match ToBar(rows[0], now(first))
      case Err(f) => Err(f)
      case Ok(bar) =>
        match ToBars(rows[1..], now, first + 1)
        case Err(f) => Err(f)
        case Ok(bars) => Ok([bar] + bars)
  }

  predicate DistinctStamps(bars: seq<Bar>) {
    forall i, j | 0 <= i < j < |bars| :: bars[i].stamp != bars[j].stamp
  }

  /** Every row validated, then sorted; two candles with one timestamp are refused. */
  function Normalise(rows: seq<BarRow>, now: nat -> int, first: nat): Result<seq<Bar>, Failure> {
    match ToBars(rows, now, first)
    case Err(f) => Err(f)
    case Ok(bars) => if DistinctStamps(SortByStamp(bars)) then Ok(SortByStamp(bars)) else Err(CandleFault)
  }

  function ClosedOnly(bars: seq<Bar>, duration: nat, now: int): (closed: seq<Bar>)
    ensures |closed| <= |bars|
  {
    if bars == [] then []
    else (if ClosedBy(bars[0], duration, now) then [bars[0]] else []) + ClosedOnly(bars[1..], duration, now)
  }

  lemma FirstRow(rows: seq<BarRow>, now: nat -> int, first: nat)
    requires rows != [] && ToBars(rows, now, first).Ok?
    ensures ToBar(rows[0], now(first)).Ok? && ToBars(rows[1..], now, first + 1).Ok?
    ensures ToBars(rows, now, first).value
         == [ToBar(rows[0], now(first)).value] + ToBars(rows[1..], now, first + 1).value
  {
  }

  /** The row read at reading `n` of the clock. */
  lemma {:induction false} BarAtReading(rows: seq<BarRow>, now: nat -> int, first: nat, n: nat)
    requires ToBars(rows, now, first).Ok? && first <= n < first + |rows|
    ensures ToBar(rows[n - first], now(n)) == Ok(ToBars(rows, now, first).value[n - first])
    decreases |rows|
  {
    hide ToBar, ToBars;
    FirstRow(rows, now, first);
    if n > first {
      BarAtReading(rows[1..], now, first + 1, n);
      assert rows[1..][n - (first + 1)] == rows[n - first];
    }
  }

  lemma BarOfRow(rows: seq<BarRow>, now: nat -> int, first: nat, i: nat)
    requires ToBars(rows, now, first).Ok? && i < |rows|
    ensures ToBar(rows[i], now(first + i)) == Ok(ToBars(rows, now, first).value[i])
    ensures Stamped(ToBars(rows, now, first).value[i])
  {
    hide ToBar, ToBars, Stamped, Opens;
    var n := first + i;
    BarAtReading(rows, now, first, n);
    ToBarIsStamped(rows[i], now(n));
  }

  /** Row `i`, read at its reading of the clock, is one of these bars. */
  predicate RowKept(rows: seq<BarRow>, now: nat -> int, first: nat, i: nat, bars: seq<Bar>)
    requires i < |rows|
  {
    ToBar(rows[i], now(first + i)).Ok? && ToBar(rows[i], now(first + i)).value in bars
  }

  /** Some row, read at its reading of the clock, is this bar. */
  predicate FromRow(rows: seq<BarRow>, now: nat -> int, first: nat, bar: Bar) {
    exists i | 0 <= i < |rows| :: ToBar(rows[i], now(first + i)) == Ok(bar)
  }

  lemma RawBars(rows: seq<BarRow>, now: nat -> int, first: nat)
    requires ToBars(rows, now, first).Ok?
    ensures var raw := ToBars(rows, now, first).value;
            AllStamped(raw)
            && (forall i | 0 <= i < |rows| :: RowKept(rows, now, first, i, raw))
            && (forall bar | bar in raw :: FromRow(rows, now, first, bar))
  {
    var raw := ToBars(rows, now, first).value;
    hide Stamped, ToBar, ToBars;
    forall i | 0 <= i < |rows|
      ensures Stamped(raw[i]) && RowKept(rows, now, first, i, raw) && FromRow(rows, now, first, raw[i])
    {
      BarOfRow(rows, now, first, i);
    }
  }

  lemma DistinctIsStrict(bars: seq<Bar>)
    requires AllStamped(bars) && Ascending(bars) && DistinctStamps(bars)
    ensures StrictlyAscending(bars)
  {
    hide Opens, Stamped;
    forall i, j | 0 <= i < j < |bars|
      ensures Opens(bars[i]) < Opens(bars[j])
    {
      StampOrder(bars[i], bars[j]);
    }
  }

  /** A normalised series is strictly ascending and holds exactly one candle for
      every row. */
  lemma NormaliseMeaning(rows: seq<BarRow>, now: nat -> int, first: nat)
    requires Normalise(rows, now, first).Ok?
    ensures var bars := Normalise(rows, now, first).value;
            |bars| == |rows| && AllStamped(bars) && StrictlyAscending(bars)
    ensures var bars := Normalise(rows, now, first).value;
            (forall i | 0 <= i < |rows| :: RowKept(rows, now, first, i, bars))
            && (forall bar | bar in bars :: FromRow(rows, now, first, bar))
  {
    hide Opens, Stamped, ToBar, ToBars, SortByStamp, FromRow;
    var raw := ToBars(rows, now, first).value;
    RawBars(rows, now, first);
    SortIsChronological(raw);
    var bars := SortByStamp(raw);
    DistinctIsStrict(bars);
    assert |bars| == |multiset(bars)| == |multiset(raw)| == |raw|;
    forall bar
      ensures bar in bars <==> bar in raw
    {
      assert bar in multiset(bars) <==> bar in multiset(raw);
    }
    forall i | 0 <= i < |rows|
      ensures RowKept(rows, now, first, i, bars)
    {
      assert RowKept(rows, now, first, i, raw);
    }
  }

  predicate StampUnused(bars: seq<Bar>, stamp: string) {
    forall i | 0 <= i < |bars| :: bars[i].stamp != stamp
  }

  lemma DistinctStep(bars: seq<Bar>)
    requires bars != []
    ensures DistinctStamps(bars) <==> StampUnused(bars[1..], bars[0].stamp) && DistinctStamps(bars[1..])
  {
    if DistinctStamps(bars) {
      assert forall i | 0 <= i < |bars| - 1 :: bars[1..][i] == bars[i + 1];
    }
    if StampUnused(bars[1..], bars[0].stamp) && DistinctStamps(bars[1..]) {
      assert forall i | 0 < i < |bars| :: bars[i] == bars[1..][i - 1];
    }
  }

  lemma DistinctLast(bars: seq<Bar>, last: Bar)
    ensures DistinctStamps(bars + [last]) <==> StampUnused(bars, last.stamp) && DistinctStamps(bars)
  {
    var all := bars + [last];
    assert forall i | 0 <= i < |bars| :: all[i] == bars[i];
    assert all[|bars|] == last;
  }

  lemma {:induction false} InsertKeepsDistinct(sorted: seq<Bar>, bar: Bar)
    ensures DistinctStamps(Insert(sorted, bar)) <==> StampUnused(sorted, bar.stamp) && DistinctStamps(sorted)
    ensures forall stamp :: StampUnused(Insert(sorted, bar), stamp) <==> StampUnused(sorted, stamp) && stamp != bar.stamp
  {
    var after := Insert(sorted, bar);
    DistinctStep(after);
    if sorted == [] || Less(bar.stamp, sorted[0].stamp) {
      assert after == [bar] + sorted && after[1..] == sorted;
      UnusedStep(after);
    } else {
      var rest := Insert(sorted[1..], bar);
      InsertKeepsDistinct(sorted[1..], bar);
      assert after[1..] == rest && after[0] == sorted[0];
      UnusedStep(after);
      UnusedStep(sorted);
      DistinctStep(sorted);
    }
  }

  lemma UnusedStep(bars: seq<Bar>)
    requires bars != []
    ensures forall stamp :: StampUnused(bars, stamp) <==> bars[0].stamp != stamp && StampUnused(bars[1..], stamp)
  {
    forall stamp
      ensures StampUnused(bars, stamp) <==> bars[0].stamp != stamp && StampUnused(bars[1..], stamp)
    {
      assert forall i | 0 <= i < |bars| - 1 :: bars[1..][i] == bars[i + 1];
      if bars[0].stamp != stamp && StampUnused(bars[1..], stamp) {
        assert forall i | 0 < i < |bars| :: bars[i] == bars[1..][i - 1];
      }
    }
  }

  lemma {:induction false} SortKeepsDistinct(bars: seq<Bar>)
    ensures DistinctStamps(SortByStamp(bars)) <==> DistinctStamps(bars)
    ensures forall stamp :: StampUnused(SortByStamp(bars), stamp) <==> StampUnused(bars, stamp)
  {
    if bars != [] {
      var front, last := bars[..|bars| - 1], bars[|bars| - 1];
      SortKeepsDistinct(front);
      InsertKeepsDistinct(SortByStamp(front), last);
      assert bars == front + [last];
      DistinctLast(front, last);
    }
  }

  predicate DistinctSeconds(rows: seq<BarRow>) {
    forall i, j | 0 <= i < j < |rows| :: UsableSecond(rows[i][0]) != UsableSecond(rows[j][0])
  }

  /** Keys that differ only below the second are two candles of one timestamp.
      When every row is acceptable on its own, the series is refused exactly when
      two rows truncate to the same second, and never holds a duplicate. */
  lemma RefusedExactlyForSharedSecond(rows: seq<BarRow>, now: nat -> int, first: nat)
    requires ToBars(rows, now, first).Ok?
    ensures Normalise(rows, now, first).Ok? <==> DistinctSeconds(rows)
    ensures Normalise(rows, now, first).Err? ==> Normalise(rows, now, first).error == CandleFault
  {
    hide ToBars, SortByStamp, DistinctSeconds, DistinctStamps;
    SortKeepsDistinct(ToBars(rows, now, first).value);
    RawDistinct(rows, now, first);
  }

  /** Distinct keys are not enough: a candle of some second and one half a second
      later are two dictionary entries, and together they are refused. */
  lemma HalfSecondApart(a: BarRow, b: BarRow, second: int, now: nat -> int, first: nat)
    requires MIN_TIMESTAMP <= second < PAST_LAST_SECOND
    requires a[0] == JNumber(Number(10 * second, -1)) && b[0] == JNumber(Number(10 * second + 5, -1))
    ensures DistinctKeys([a, b])
    ensures ToBars([a, b], now, first).Ok? ==> Normalise([a, b], now, first) == Err(CandleFault)
    ensures SoundPrices(a) && SoundPrices(b) && WithinSkew(second, now(first)) && WithinSkew(second, now(first + 1))
        ==> Normalise([a, b], now, first) == Err(CandleFault)
  {
    hide ToBars, ToBar, Normalise, UsableSecond, Number.Value, DistinctSeconds, SoundPrices, WithinSkew;
    var rows := [a, b];
    HalfSecond(a[0], b[0], second);
    assert !DistinctSeconds(rows) by {
      SharedSecond(rows);
    }
    if ToBars(rows, now, first).Ok? {
      RefusedExactlyForSharedSecond(rows, now, first);
    }
    if SoundPrices(a) && SoundPrices(b) && WithinSkew(second, now(first)) && WithinSkew(second, now(first + 1)) {
      SoundRowConverts(a, second, now(first));
      SoundRowConverts(b, second, now(first + 1));
      TwoRowsConvert(a, b, now, first);
    }
  }

  /** Raw prices a candle can be made of: positive, in order, within the decimal context. */
  predicate SoundPrices(row: BarRow) {
    (forall c | 1 <= c <= 4 :: Convertible(row[c]))
    && OrderedPrices(row[1].number, row[2].number, row[3].number, row[4].number)
  }

  lemma SoundRowConverts(row: BarRow, second: int, now: int)
    requires UsableSecond(row[0]) == Ok(second) && SoundPrices(row) && WithinSkew(second, now)
    ensures ToBar(row, now).Ok?
  {
    hide Number.Value, FeedPrice, UsableSecond;
    assert Convertible(row[1]) && Convertible(row[2]) && Convertible(row[3]) && Convertible(row[4]);
    assert forall c | 1 <= c <= 4 :: PriceOf(row[c]) == Ok(FeedPrice(row[c].number).value);
    ConversionKeepsCandleOrder(row[1].number, row[2].number, row[3].number, row[4].number);
  }

  lemma TwoRowsConvert(a: BarRow, b: BarRow, now: nat -> int, first: nat)
    requires ToBar(a, now(first)).Ok? && ToBar(b, now(first + 1)).Ok?
    ensures ToBars([a, b], now, first).Ok?
  {
    hide ToBar;
    assert [a, b][1..] == [b] && [b][1..] == [];
    assert ToBars([b], now, first + 1).Ok?;
  }

  lemma SharedSecond(rows: seq<BarRow>)
    requires |rows| == 2 && UsableSecond(rows[0][0]) == UsableSecond(rows[1][0])
    ensures !DistinctSeconds(rows)
  {
    hide UsableSecond;
  }

  /** A key of a second and one half a second later: other values, same second. */
  lemma HalfSecond(a: Json, b: Json, second: int)
    requires MIN_TIMESTAMP <= second < PAST_LAST_SECOND
    requires a == JNumber(Number(10 * second, -1)) && b == JNumber(Number(10 * second + 5, -1))
    ensures a.number.Value() < b.number.Value()
    ensures UsableSecond(a) == UsableSecond(b) == Ok(second)
  {
    assert Pow10(1) == 10;
    assert a.number.Value() == second as real && b.number.Value() == second as real + 0.5;
  }

  lemma RawDistinct(rows: seq<BarRow>, now: nat -> int, first: nat)
    requires ToBars(rows, now, first).Ok?
    ensures DistinctStamps(ToBars(rows, now, first).value) <==> DistinctSeconds(rows)
  {
    hide ToBars, UsableSecond;
    var raw := ToBars(rows, now, first).value;
    if DistinctStamps(raw) {
      forall i, j | 0 <= i < j < |rows|
        ensures UsableSecond(rows[i][0]) != UsableSecond(rows[j][0])
      {
        StampsOfRows(rows, now, first, i, j);
      }
    }
    if DistinctSeconds(rows) {
      forall i, j | 0 <= i < j < |raw|
        ensures raw[i].stamp != raw[j].stamp
      {
        StampsOfRows(rows, now, first, i, j);
      }
    }
  }

  lemma StampsOfRows(rows: seq<BarRow>, now: nat -> int, first: nat, i: nat, j: nat)
    requires ToBars(rows, now, first).Ok? && i < j < |rows|
    ensures var raw := ToBars(rows, now, first).value;
            raw[i].stamp == raw[j].stamp <==> UsableSecond(rows[i][0]) == UsableSecond(rows[j][0])
  {
    hide ToBars, UsableSecond, CandleAt;
    BarOfRow(rows, now, first, i);
    BarOfRow(rows, now, first, j);
    IsoOrder(UsableSecond(rows[i][0]).value, UsableSecond(rows[j][0]).value);
  }

  /** In a series in order, the closed candles are a prefix. */
  lemma {:induction false} ClosedIsPrefix(bars: seq<Bar>, duration: nat, now: int)
    requires StrictlyAscending(bars)
    ensures var k := |ClosedOnly(bars, duration, now)|;
            k <= |bars| && ClosedOnly(bars, duration, now) == bars[..k]
            && (forall i | 0 <= i < |bars| :: ClosedBy(bars[i], duration, now) <==> i < k)
  {
    hide Opens, ClosedBy;
    if bars != [] {
      if ClosedBy(bars[0], duration, now) {
        var rest := bars[1..];
        RestAscends(bars);
        ClosedIsPrefix(rest, duration, now);
        forall i | 0 <= i < |bars|
          ensures ClosedBy(bars[i], duration, now) <==> i < |ClosedOnly(rest, duration, now)| + 1
        {
          assert i > 0 ==> bars[i] == rest[i - 1];
        }
        var k := |ClosedOnly(rest, duration, now)|;
        assert bars[..k + 1] == [bars[0]] + rest[..k];
      } else {
        forall i | 0 <= i < |bars|
          ensures !ClosedBy(bars[i], duration, now)
        {
          ClosesEarlier(bars[0], bars[i], duration, now);
        }
        NoneAreClosed(bars, duration, now);
      }
    }
  }

  lemma ClosesEarlier(a: Bar, b: Bar, duration: nat, now: int)
    requires Opens(a) <= Opens(b)
    ensures ClosedBy(b, duration, now) ==> ClosedBy(a, duration, now)
  {
  }

  lemma RestAscends(bars: seq<Bar>)
    requires bars != [] && StrictlyAscending(bars)
    ensures StrictlyAscending(bars[1..])
  {
    hide Opens;
    forall i, j | 0 <= i < j < |bars| - 1
      ensures Opens(bars[1..][i]) < Opens(bars[1..][j])
    {
      assert Opens(bars[i + 1]) < Opens(bars[j + 1]);
    }
  }

  lemma {:induction false} NoneAreClosed(bars: seq<Bar>, duration: nat, now: int)
    requires forall i | 0 <= i < |bars| :: !ClosedBy(bars[i], duration, now)
    ensures ClosedOnly(bars, duration, now) == []
  {
    hide Opens, ClosedBy;
    if bars != [] {
      assert forall i | 0 <= i < |bars| - 1 :: bars[1..][i] == bars[i + 1];
      NoneAreClosed(bars[1..], duration, now);
    }
  }

  // ----- the fetch, after the socket is closed ---------------------------------

  /** What the source was configured to ask for. The duration is that of a
      supported timeframe; the limit is between 1 and 5000. */
  datatype Request = Request(duration: nat, limit: nat, maxAge: Option<nat>)

  datatype Loaded = Loaded(bars: seq<Bar>, received: nat, dropped: nat)

  /** More than `maxAge` minutes past the close of the newest closed candle. */
  predicate IsStale(latest: Bar, duration: nat, maxAge: nat, now: int) {
    now - (Opens(latest) + duration) * MICROS > maxAge * 60 * MICROS
  }

  predicate PositiveBar(bar: Bar) {
    bar.open.Value() > 0.0 && bar.high.Value() > 0.0 && bar.low.Value() > 0.0 && bar.close.Value() > 0.0
  }

  /** The schema's demand that a price is positive, which a rounded one may not be. */
  predicate PositivePrices(bars: seq<Bar>) {
    forall i | 0 <= i < |bars| :: PositiveBar(bars[i])
  }

  /** Rows to candles: `first` is the clock reading the first row is read at, the
      closed-candle proof and the freshness check take the two after the last row. */
  function Assess(request: Request, rows: seq<BarRow>, now: nat -> int, first: nat): Result<Loaded, Failure>
    requires request.limit >= 1
  {
    match Normalise(rows, now, first)
    case Err(f) => Err(f)
    case Ok(bars) => Choose(request, bars, now(first + |rows|), now(first + |rows| + 1))
  }

  /** The newest closed candles of a series in order, if there are enough of them
      by `moment`, fresh enough by `later`, and fit for the schema. */
  function Choose(request: Request, bars: seq<Bar>, moment: int, later: int): Result<Loaded, Failure>
    requires request.limit >= 1
  {
    hide IsStale, PositivePrices;
    var closed := ClosedOnly(bars, request.duration, moment);
    if |closed| < request.limit then Err(TooFewBars)
    else
      var selected := closed[|closed| - request.limit..];
      if request.maxAge.Some? && IsStale(selected[|selected| - 1], request.duration, request.maxAge.value, later)
      then Err(StaleData)
      else if !PositivePrices(selected) then Err(PayloadRejected)
      else Ok(Loaded(selected, |bars|, |bars| - |closed|))
  }

  /** A successful fetch returns exactly the newest `limit` of the closed candles
      received: strictly ascending, every one closed at the closing reading of the
      clock, and every closed candle received that is not returned opens before
      the first one that is. */
  lemma SelectionIsNewestClosed(request: Request, rows: seq<BarRow>, now: nat -> int, first: nat)
    requires request.limit >= 1 && Assess(request, rows, now, first).Ok?
    ensures var selected := Assess(request, rows, now, first).value.bars;
            |selected| == request.limit && AllStamped(selected) && StrictlyAscending(selected)
            && (forall bar | bar in selected ::
                  ClosedBy(bar, request.duration, now(first + |rows|)) && FromRow(rows, now, first, bar))
    ensures var selected := Assess(request, rows, now, first).value.bars;
            forall i | 0 <= i < |rows| ::
              var bar := ToBar(rows[i], now(first + i));
              bar.Ok?
              && (ClosedBy(bar.value, request.duration, now(first + |rows|))
                  ==> bar.value in selected || Opens(bar.value) < Opens(selected[0]))
  {
    hide Opens, Stamped, ToBar, FromRow, Normalise, Choose, ClosedBy;
    var bars := Normalise(rows, now, first).value;
    var moment := now(first + |rows|);
    NormaliseMeaning(rows, now, first);
    ChoiceIsNewestClosed(request, bars, moment, now(first + |rows| + 1));
    forall i | 0 <= i < |rows|
      ensures ToBar(rows[i], now(first + i)).Ok? && ToBar(rows[i], now(first + i)).value in bars
    {
      assert RowKept(rows, now, first, i, bars);
    }
  }

  /** The choice is a contiguous run of the series, ending where the closed part ends. */
  lemma ChoiceIsNewestClosed(request: Request, bars: seq<Bar>, moment: int, later: int)
    requires request.limit >= 1 && AllStamped(bars) && StrictlyAscending(bars)
    requires Choose(request, bars, moment, later).Ok?
    ensures var k, selected := |ClosedOnly(bars, request.duration, moment)|, Choose(request, bars, moment, later).value.bars;
            request.limit <= k <= |bars| && selected == bars[k - request.limit..k]
            && (forall i | 0 <= i < |bars| :: ClosedBy(bars[i], request.duration, moment) <==> i < k)
    ensures var selected := Choose(request, bars, moment, later).value.bars;
            |selected| == request.limit && AllStamped(selected) && StrictlyAscending(selected)
            && (forall bar | bar in selected :: bar in bars && ClosedBy(bar, request.duration, moment))
            && (forall bar | bar in bars && ClosedBy(bar, request.duration, moment) ::
                  bar in selected || Opens(bar) < Opens(selected[0]))
  {
    hide Opens, Stamped, ClosedBy, IsStale, PositivePrices;
    ClosedIsPrefix(bars, request.duration, moment);
    var k := |ClosedOnly(bars, request.duration, moment)|;
    var start := k - request.limit;
    var selected := bars[start..k];
    assert bars[..k][start..] == selected;
    assert forall i | 0 <= i < |selected| :: selected[i] == bars[start + i];
    forall bar | bar in bars && ClosedBy(bar, request.duration, moment)
      ensures bar in selected || Opens(bar) < Opens(selected[0])
    {
      var j :| 0 <= j < |bars| && bars[j] == bar;
      if j >= start {
        assert selected[j - start] == bar;
      }
    }
  }

  /** Each candle returned is that of a received row: its fields, in their places. */
  lemma ReturnedCandles(request: Request, rows: seq<BarRow>, now: nat -> int, first: nat)
    requires request.limit >= 1 && Assess(request, rows, now, first).Ok?
    ensures forall bar | bar in Assess(request, rows, now, first).value.bars :: IsCandleOf(bar, rows)
  {
    hide Assess, ToBar, CandleFrom, KeyTruncates, Opens, Stamped;
    SelectionIsNewestClosed(request, rows, now, first);
    forall bar | bar in Assess(request, rows, now, first).value.bars
      ensures IsCandleOf(bar, rows)
    {
      assert FromRow(rows, now, first, bar);
      var i :| 0 <= i < |rows| && ToBar(rows[i], now(first + i)) == Ok(bar);
      CandleOfRow(rows[i], now(first + i));
      assert CandleFrom(bar, rows[i]) && KeyTruncates(rows[i], Opens(bar));
    }
  }

  predicate IsCandleOf(bar: Bar, rows: seq<BarRow>) {
    exists row | row in rows :: CandleFrom(bar, row) && KeyTruncates(row, Opens(bar))
  }

  /** The bar closes at or before this clock reading. */
  predicate HasClosed(bar: Bar, duration: nat, now: int) {
    (Opens(bar) + duration) * 1_000_000 <= now
  }

  /** The newest closed bar is the j-th. */
  predicate NewestClosedIs(bars: seq<Bar>, duration: nat, now: int, j: nat) {
    j < |bars| && HasClosed(bars[j], duration, now) && (j + 1 < |bars| ==> !HasClosed(bars[j + 1], duration, now))
  }

  /** What is decided of a series in order: too few when the `limit`-th bar has not
      closed, stale when the newest closed one closed more than the limit of minutes
      ago, refused when a chosen price is not positive; otherwise the counts are those
      of the bars received and of those not closed, and the newest bar returned is the
      newest closed one. */
  lemma ChoiceVerdict(request: Request, bars: seq<Bar>, moment: int, later: int)
    requires request.limit >= 1 && StrictlyAscending(bars)
    ensures var r := Choose(request, bars, moment, later);
            && (r == Err(TooFewBars)
                <==> |bars| < request.limit || !HasClosed(bars[request.limit - 1], request.duration, moment))
            && (forall j: nat | NewestClosedIs(bars, request.duration, moment, j) && r != Err(TooFewBars) ::
                  && (r == Err(StaleData)
                      <==> request.maxAge.Some?
                           && later - (Opens(bars[j]) + request.duration) * 1_000_000 > request.maxAge.value * 60_000_000)
                  && (r.Ok? ==> r.value.bars == bars[j + 1 - request.limit..j + 1]
                                && r.value.received == |bars| && r.value.dropped == |bars| - (j + 1)))
            && (r.Err? ==> r.error in {TooFewBars, StaleData, PayloadRejected})
            && (r == Err(PayloadRejected) ==> exists bar | bar in bars :: !PositiveBar(bar))
            && (r.Ok? ==> forall bar | bar in r.value.bars :: PositiveBar(bar))
  {
    hide Opens, PositiveBar, HasClosed, ClosedOnly, StrictlyAscending;
    var k := ClosedCount(bars, request.duration, moment);
    if k >= request.limit {
      var selected := bars[k - request.limit..k];
      assert bars[..k][k - request.limit..] == selected;
      assert forall i | 0 <= i < |selected| :: selected[i] in bars;
      assert selected[|selected| - 1] == bars[k - 1];
    }
  }

  lemma ClosedCount(bars: seq<Bar>, duration: nat, moment: int) returns (k: nat)
    requires StrictlyAscending(bars)
    ensures k <= |bars| && ClosedOnly(bars, duration, moment) == bars[..k]
    ensures forall i | 0 <= i < |bars| :: HasClosed(bars[i], duration, moment) <==> i < k
    ensures forall j: nat | NewestClosedIs(bars, duration, moment, j) :: j + 1 == k
  {
    hide Opens;
    ClosedIsPrefix(bars, duration, moment);
    k := |ClosedOnly(bars, duration, moment)|;
    forall i | 0 <= i < |bars|
      ensures HasClosed(bars[i], duration, moment) <==> i < k
    {
      assert ClosedBy(bars[i], duration, moment) <==> i < k;
    }
  }

  // ----- the safety margin -----------------------------------------------------

  /** The feed's candles open at least one duration apart, none later than one
      duration from now. */
  predicate WellSpaced(bars: seq<Bar>, duration: nat, now: int) {
    (forall i | 0 < i < |bars| :: Opens(bars[i]) >= Opens(bars[i - 1]) + duration)
    && forall i | 0 <= i < |bars| :: Opens(bars[i]) * MICROS <= now + duration * MICROS
  }

  /** At most two of them are still forming. */
  lemma AtMostTwoForming(bars: seq<Bar>, duration: nat, now: int)
    requires StrictlyAscending(bars) && WellSpaced(bars, duration, now) && duration > 0
    ensures |ClosedOnly(bars, duration, now)| >= |bars| - 2
  {
    hide Opens;
    ClosedIsPrefix(bars, duration, now);
    forall i | 0 <= i < |bars| - 2
      ensures ClosedBy(bars[i], duration, now)
    {
      assert Opens(bars[i + 1]) >= Opens(bars[i]) + duration;
      assert Opens(bars[i + 2]) >= Opens(bars[i + 1]) + duration;
    }
  }

  /** Asking for `limit` + 2 bars is enough: with so many candles so spaced, a
      fetch never fails for lack of closed ones. */
  lemma MarginSuffices(request: Request, rows: seq<BarRow>, now: nat -> int, first: nat)
    requires request.limit >= 1 && request.duration > 0
    requires |rows| >= request.limit + SAFETY_MARGIN_BARS
    requires Normalise(rows, now, first).Ok?
    requires WellSpaced(Normalise(rows, now, first).value, request.duration, now(first + |rows|))
    ensures Assess(request, rows, now, first) != Err(TooFewBars)
  {
    hide Normalise, PositivePrices, IsStale;
    NormaliseMeaning(rows, now, first);
    AtMostTwoForming(Normalise(rows, now, first).value, request.duration, now(first + |rows|));
  }

  // ----- freshness -------------------------------------------------------------

  /** With the allowance of `budget` minutes plus one bar, a series is refused
      exactly when the bar due after its newest closed one should have closed
      more than `budget` minutes ago. */
  lemma StalenessIsLateness(latest: Bar, duration: nat, budget: nat, now: int)
    requires duration % 60 == 0
    ensures IsStale(latest, duration, budget + duration / 60, now)
       <==> now - (Opens(latest) + duration + duration) * MICROS > budget * 60 * MICROS
  {
    assert duration == 60 * (duration / 60);
  }

  /** The feed is live at its end: its last candle has not closed, and follows the
      newest closed one without a gap. Gaps before that, over a weekend say, do not
      matter. */
  predicate LiveAt(bars: seq<Bar>, duration: nat, now: int)
    requires bars != []
  {
    (Opens(bars[|bars| - 1]) + duration) * MICROS > now
    && forall i | 0 < i < |bars| :: ClosedBy(bars[i - 1], duration, now) && !ClosedBy(bars[i], duration, now)
                                    ==> Opens(bars[i]) == Opens(bars[i - 1]) + duration
  }

  /** A live feed is never refused as stale, whatever the timeframe and whatever gaps
      its history has, while the check comes within the budget of the closing
      reading. */
  lemma LiveFeedIsFresh(request: Request, rows: seq<BarRow>, now: nat -> int, first: nat, budget: nat)
    requires request.limit >= 1 && request.duration > 0 && request.duration % 60 == 0
    requires request.maxAge == Some(budget + request.duration / 60)
    requires Normalise(rows, now, first).Ok? && rows != []
    requires LiveAt(Normalise(rows, now, first).value, request.duration, now(first + |rows|))
    requires now(first + |rows| + 1) <= now(first + |rows|) + budget * 60 * MICROS
    ensures Assess(request, rows, now, first) != Err(StaleData)
  {
    hide Normalise, PositivePrices, Opens, IsStale, LiveAt;
    NormaliseMeaning(rows, now, first);
    LiveSeriesIsFresh(request, Normalise(rows, now, first).value, now(first + |rows|), now(first + |rows| + 1), budget);
  }

  lemma LiveSeriesIsFresh(request: Request, bars: seq<Bar>, moment: int, later: int, budget: nat)
    requires request.limit >= 1 && request.duration > 0 && request.duration % 60 == 0
    requires request.maxAge == Some(budget + request.duration / 60)
    requires bars != [] && StrictlyAscending(bars) && LiveAt(bars, request.duration, moment)
    requires later <= moment + budget * 60 * MICROS
    ensures Choose(request, bars, moment, later) != Err(StaleData)
  {
    hide Opens, IsStale, PositivePrices;
    var d := request.duration;
    ClosedIsPrefix(bars, d, moment);
    var k := |ClosedOnly(bars, d, moment)|;
    if k >= request.limit {
      var latest := bars[k - 1];
      assert !ClosedBy(bars[|bars| - 1], d, moment);
      assert ClosedBy(bars[k - 1], d, moment) && !ClosedBy(bars[k], d, moment);
      assert Opens(bars[k]) == Opens(latest) + d;
      StalenessIsLateness(latest, d, budget, later);
      assert bars[..k][k - request.limit..][request.limit - 1] == latest;
    }
  }
}
