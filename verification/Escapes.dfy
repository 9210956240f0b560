/** Exactly when a fetch fails with an exception the adapter does not name: a key
    that cannot be hashed, a timestamp no datetime holds, a price the decimal
    context cannot, a payload its schema refuses. */
module Escapes {
  import opened Numerals
  import opened Options
  import opened Failures
  import opened Prices
  import opened Messages
  import opened Session
  import opened Packets
  import opened Calendar
  import opened Timeframes
  import opened Candles
  import opened WireCodec
  import opened MarketSource

  // ----- collecting rows -----------------------------------------------------------

  /** Row `i` is the first that cannot be collected. */
  predicate FirstUnusable(rows: seq<Row>, i: nat)
    requires i < |rows|
  {
    AllUsable(rows[..i]) && !Usable(rows[i])
  }

  lemma {:induction false} SomeFirstUnusable(rows: seq<Row>) returns (i: nat)
    requires !AllUsable(rows)
    ensures i < |rows| && FirstUnusable(rows, i)
  {
    if !Usable(rows[0]) {
      i := 0;
    } else {
      var j :| 0 <= j < |rows| && !Usable(rows[j]);
      assert rows[1..][j - 1] == rows[j];
      i := SomeFirstUnusable(rows[1..]);
      assert rows[..i + 1] == [rows[0]] + rows[1..][..i];
      i := i + 1;
    }
  }

  lemma OneFirstUnusable(rows: seq<Row>, i: nat, j: nat)
    requires i < |rows| && j < |rows| && FirstUnusable(rows, i) && FirstUnusable(rows, j)
    ensures i == j
  {
    assert forall n | 0 <= n < i :: rows[..i][n] == rows[n];
    assert forall n | 0 <= n < j :: rows[..j][n] == rows[n];
  }

  /** The first unusable row decides how collecting fails. */
  lemma {:induction false} CollectFailsAt(table: seq<BarRow>, rows: seq<Row>, i: nat)
    requires i < |rows| && FirstUnusable(rows, i)
    ensures Collect(table, rows) == Err(if |rows[i]| < MIN_BAR_FIELDS then CandleFault else UnhashableKey)
    decreases |rows|
  {
    if i > 0 {
      assert rows[..i][0] == rows[0] && rows[..i][1..] == rows[1..][..i - 1];
      CollectFailsAt(Put(table, rows[0]), rows[1..], i - 1);
    }
  }

  /** The untyped failure: the first unusable row has fields enough, and a list or an
      object for its key. */
  lemma UnhashableExactly(table: seq<BarRow>, rows: seq<Row>)
    ensures Collect(table, rows) == Err(UnhashableKey)
       <==> exists i :: 0 <= i < |rows| && FirstUnusable(rows, i) && |rows[i]| >= MIN_BAR_FIELDS
                        && (rows[i][0].JArray? || rows[i][0].JObject?)
  {
    CollectedRows(table, rows);
    if !AllUsable(rows) {
      var i := SomeFirstUnusable(rows);
      CollectFailsAt(table, rows, i);
      forall j | 0 <= j < |rows| && FirstUnusable(rows, j)
        ensures j == i
      {
        OneFirstUnusable(rows, i, j);
      }
    }
  }

  // ----- one row -------------------------------------------------------------------

  lemma RowOutOfRange(row: BarRow, now: int)
    ensures ToBar(row, now) == Err(DateOutOfRange)
       <==> row[0].JNumber? && row[0].number.Value() >= PAST_LAST_SECOND as real
  {
    hide CandleAt, Number.Value;
    if UsableSecond(row[0]).Ok? {
      CandleFailures(UsableSecond(row[0]).value, row);
    }
  }

  /** Prices are read in the order open, high, low, close. */
  lemma CandleFailures(second: int, row: BarRow)
    requires InRange(second)
    ensures CandleAt(second, row).Err? ==> CandleAt(second, row).error in {CandleFault, DecimalOverflow}
    ensures CandleAt(second, row) == Err(DecimalOverflow)
       <==> exists c :: 1 <= c <= 4 && PriceOf(row[c]) == Err(DecimalOverflow) && forall d | 1 <= d < c :: PriceOf(row[d]).Ok?
  {
    hide FeedPrice, Number.Value, OrderedPrices;
    PriceFailures(row[1]);
    PriceFailures(row[2]);
    PriceFailures(row[3]);
    PriceFailures(row[4]);
    hide PriceOf;
    if c :| 1 <= c <= 4 && PriceOf(row[c]) == Err(DecimalOverflow) && forall d | 1 <= d < c :: PriceOf(row[d]).Ok? {
      assert c == 1 || c == 2 || c == 3 || c == 4;
      assert c > 1 ==> PriceOf(row[1]).Ok?;
      assert c > 2 ==> PriceOf(row[2]).Ok?;
      assert c > 3 ==> PriceOf(row[3]).Ok?;
    }
  }

  lemma PriceFailures(value: Json)
    ensures PriceOf(value).Err? ==> PriceOf(value).error in {CandleFault, DecimalOverflow}
  {
    hide FeedPrice, Number.Value;
  }

  /** Printed from a float, a number has far fewer digits than the context. */
  predicate FitsContext(value: Json) {
    value.JNumber? ==> value.number.coefficient < Pow10(PRECISION)
  }

  /** A price the conversion cannot hold is one of at least 10^28. */
  lemma PriceOverflows(value: Json)
    requires FitsContext(value)
    ensures PriceOf(value) == Err(DecimalOverflow) <==> value.JNumber? && value.number.Value() >= Pow10(PRECISION) as real
  {
    hide FeedPrice, Pow10;
    if value.JNumber? && value.number.Value() > 0.0 {
      PositiveCoefficient(value.number);
      hide Number.Value;
      FeedPriceFails(value.number);
    }
  }

  lemma PositiveCoefficient(n: Number)
    requires n.Value() > 0.0
    ensures n.coefficient >= 0
  {
    if n.exponent >= 0 {
      SignOfProduct(n.coefficient, Pow10(n.exponent));
    } else {
      var value, scale := n.Value(), Pow10(-n.exponent) as real;
      assert value * scale == n.coefficient as real;
      assert value * scale > 0.0;
    }
  }

  lemma SignOfProduct(c: int, p: int)
    requires p >= 1
    ensures c * p > 0 ==> c > 0
  {
    if c <= 0 {
      assert c * p <= 0;
    }
  }

  /** The row passes every check up to one of its prices, which is too large. */
  predicate OverflowsAt(row: BarRow, now: int, c: nat)
    requires 1 <= c <= 4
  {
    UsableSecond(row[0]).Ok? && UsableSecond(row[0]).value * MICROS <= now + MAX_SKEW
    && (forall d | 1 <= d < c :: PriceOf(row[d]).Ok?)
    && row[c].JNumber? && row[c].number.Value() >= Pow10(PRECISION) as real
  }

  predicate SomePriceOverflows(row: BarRow, now: int) {
    exists c :: 1 <= c <= 4 && OverflowsAt(row, now, c)
  }

  lemma RowOverflows(row: BarRow, now: int)
    requires forall c | 1 <= c <= 4 :: FitsContext(row[c])
    ensures ToBar(row, now) == Err(DecimalOverflow) <==> SomePriceOverflows(row, now)
  {
    hide CandleAt, PriceOf, Number.Value, FitsContext, Pow10;
    forall c | 1 <= c <= 4
      ensures PriceOf(row[c]) == Err(DecimalOverflow)
         <==> row[c].JNumber? && row[c].number.Value() >= Pow10(PRECISION) as real
    {
      PriceOverflows(row[c]);
    }
    if UsableSecond(row[0]).Ok? {
      CandleFailures(UsableSecond(row[0]).value, row);
    }
    hide UsableSecond;
    if c :| 1 <= c <= 4 && OverflowsAt(row, now, c) {
      assert PriceOf(row[c]) == Err(DecimalOverflow);
    }
    if ToBar(row, now) == Err(DecimalOverflow) && UsableSecond(row[0]).Ok? {
      var c :| 1 <= c <= 4 && PriceOf(row[c]) == Err(DecimalOverflow) && forall d | 1 <= d < c :: PriceOf(row[d]).Ok?;
      assert OverflowsAt(row, now, c);
    }
  }

  // ----- the rows in turn ------------------------------------------------------------

  /** The row read at reading `n` is the first that makes no candle. */
  predicate StopsAt(rows: seq<BarRow>, now: nat -> int, first: nat, n: nat)
    requires first <= n < first + |rows|
  {
    ToBar(rows[n - first], now(n)).Err? && forall j | first <= j < n :: ToBar(rows[j - first], now(j)).Ok?
  }

  lemma {:induction false} SomeStop(rows: seq<BarRow>, now: nat -> int, first: nat) returns (n: nat)
    requires ToBars(rows, now, first).Err?
    ensures first <= n < first + |rows| && StopsAt(rows, now, first, n)
    ensures ToBar(rows[n - first], now(n)) == Err(ToBars(rows, now, first).error)
    decreases |rows|
  {
    hide ToBar, ToBars, StopsAt;
    FailsHereOrLater(rows, now, first);
    if ToBar(rows[0], now(first)).Err? {
      n := first;
      StopsAtOnce(rows, now, first);
    } else {
      var rest := rows[1..];
      n := SomeStop(rest, now, first + 1);
      StopsLater(rows, now, first, n);
      assert rest[n - (first + 1)] == rows[n - first];
    }
  }

  lemma FailsHereOrLater(rows: seq<BarRow>, now: nat -> int, first: nat)
    requires ToBars(rows, now, first).Err?
    ensures rows != []
    ensures var here, later := ToBar(rows[0], now(first)), ToBars(rows[1..], now, first + 1);
            if here.Err? then ToBars(rows, now, first).error == here.error
            else later.Err? && ToBars(rows, now, first).error == later.error
  {
    hide ToBar;
  }

  lemma StopsAtOnce(rows: seq<BarRow>, now: nat -> int, first: nat)
    requires rows != [] && ToBar(rows[0], now(first)).Err?
    ensures StopsAt(rows, now, first, first)
  {
    hide ToBar;
  }

  lemma StopsLater(rows: seq<BarRow>, now: nat -> int, first: nat, n: nat)
    requires rows != [] && ToBar(rows[0], now(first)).Ok? && first < n < first + |rows|
    requires StopsAt(rows[1..], now, first + 1, n)
    ensures StopsAt(rows, now, first, n) && rows[1..][n - (first + 1)] == rows[n - first]
  {
    hide ToBar;
    forall j | first < j < n
      ensures ToBar(rows[j - first], now(j)).Ok?
    {
      assert rows[1..][j - (first + 1)] == rows[j - first];
      assert ToBar(rows[1..][j - (first + 1)], now(j)).Ok?;
    }
  }

  lemma OneStop(rows: seq<BarRow>, now: nat -> int, first: nat, m: nat, n: nat)
    requires first <= m < first + |rows| && first <= n < first + |rows|
    requires StopsAt(rows, now, first, m) && StopsAt(rows, now, first, n)
    ensures m == n
  {
    hide ToBar;
    assert forall j | first <= j < m :: ToBar(rows[j - first], now(j)).Ok?;
    assert forall j | first <= j < n :: ToBar(rows[j - first], now(j)).Ok?;
  }

  lemma ConvertedNeverStops(rows: seq<BarRow>, now: nat -> int, first: nat, n: nat)
    requires ToBars(rows, now, first).Ok? && first <= n < first + |rows|
    ensures !StopsAt(rows, now, first, n)
  {
    hide ToBar, ToBars;
    BarAtReading(rows, now, first, n);
  }

  /** Conversion fails in some way exactly when the first row that makes no candle
      fails in that way. */
  lemma FirstFailureDecides(rows: seq<BarRow>, now: nat -> int, first: nat, failure: Failure)
    ensures ToBars(rows, now, first) == Err(failure)
       <==> exists n :: first <= n < first + |rows| && StopsAt(rows, now, first, n)
                        && ToBar(rows[n - first], now(n)) == Err(failure)
  {
    hide ToBar, ToBars, StopsAt;
    if ToBars(rows, now, first).Err? {
      var m := SomeStop(rows, now, first);
      assert ToBar(rows[m - first], now(m)).Err? by {
        StopIsFailure(rows, now, first, m);
      }
      forall n | first <= n < first + |rows| && StopsAt(rows, now, first, n)
        ensures n == m
      {
        OneStop(rows, now, first, m, n);
      }
    } else {
      forall n | first <= n < first + |rows|
        ensures !StopsAt(rows, now, first, n)
      {
        ConvertedNeverStops(rows, now, first, n);
      }
    }
  }

  lemma StopIsFailure(rows: seq<BarRow>, now: nat -> int, first: nat, n: nat)
    requires first <= n < first + |rows| && StopsAt(rows, now, first, n)
    ensures ToBar(rows[n - first], now(n)).Err?
  {
  }

  /** These two come from a row and from nowhere else. */
  lemma RowFailuresPass(request: Request, rows: seq<BarRow>, now: nat -> int, first: nat, failure: Failure)
    requires request.limit >= 1 && failure in {DateOutOfRange, DecimalOverflow}
    ensures Assess(request, rows, now, first) == Err(failure) <==> ToBars(rows, now, first) == Err(failure)
  {
    hide ToBars, SortByStamp, DistinctStamps, ClosedOnly, PositivePrices, IsStale;
  }

  /** What is made of the rows fails over a date no datetime holds exactly when the first row that
      makes no candle is stamped past the last second of year 9999. */
  lemma OutOfRangeExactly(request: Request, rows: seq<BarRow>, now: nat -> int, first: nat)
    requires request.limit >= 1
    ensures Assess(request, rows, now, first) == Err(DateOutOfRange)
       <==> exists n :: first <= n < first + |rows| && StopsAt(rows, now, first, n)
                        && rows[n - first][0].JNumber? && rows[n - first][0].number.Value() >= PAST_LAST_SECOND as real
  {
    hide Assess, ToBars, ToBar, StopsAt, Number.Value;
    RowFailuresPass(request, rows, now, first, DateOutOfRange);
    FirstFailureDecides(rows, now, first, DateOutOfRange);
    forall n | first <= n < first + |rows|
      ensures ToBar(rows[n - first], now(n)) == Err(DateOutOfRange)
         <==> rows[n - first][0].JNumber? && rows[n - first][0].number.Value() >= PAST_LAST_SECOND as real
    {
      RowOutOfRange(rows[n - first], now(n));
    }
  }

  predicate AllFitContext(rows: seq<BarRow>) {
    forall i, c | 0 <= i < |rows| && 1 <= c <= 4 :: FitsContext(rows[i][c])
  }

  /** What is made of the rows fails in the decimal library exactly when the first row that makes no
      candle comes as far as a price of at least 10^28. */
  lemma OverflowExactly(request: Request, rows: seq<BarRow>, now: nat -> int, first: nat)
    requires request.limit >= 1 && AllFitContext(rows)
    ensures Assess(request, rows, now, first) == Err(DecimalOverflow)
       <==> exists n :: first <= n < first + |rows| && StopsAt(rows, now, first, n)
                        && SomePriceOverflows(rows[n - first], now(n))
  {
    hide Assess, ToBars, ToBar, StopsAt, SomePriceOverflows, FitsContext;
    RowFailuresPass(request, rows, now, first, DecimalOverflow);
    FirstFailureDecides(rows, now, first, DecimalOverflow);
    forall n | first <= n < first + |rows|
      ensures ToBar(rows[n - first], now(n)) == Err(DecimalOverflow) <==> SomePriceOverflows(rows[n - first], now(n))
    {
      RowOverflows(rows[n - first], now(n));
    }
  }

  // ----- the schema --------------------------------------------------------------------

  /** One of the row's prices is positive and rounds to zero. */
  predicate PriceVanishes(row: BarRow) {
    exists c :: 1 <= c <= 4 && row[c].JNumber? && row[c].number.Value() <= 0.000000005
  }

  lemma ConvertedPrice(value: Json)
    requires PriceOf(value).Ok?
    ensures value.JNumber? && (PriceOf(value).value.Value() > 0.0 <==> value.number.Value() > 0.000000005)
  {
    hide FeedPrice, Number.Value;
    FeedPricePositive(value.number);
  }

  lemma ConvertedRow(row: BarRow, now: int)
    requires ToBar(row, now).Ok?
    ensures PositiveBar(ToBar(row, now).value) <==> !PriceVanishes(row)
  {
    hide FeedPrice, Number.Value, OrderedPrices, UsableSecond, PriceOf, VolumeOf;
    ConvertedPrice(row[1]);
    ConvertedPrice(row[2]);
    ConvertedPrice(row[3]);
    ConvertedPrice(row[4]);
    if PriceVanishes(row) {
      var c :| 1 <= c <= 4 && row[c].JNumber? && row[c].number.Value() <= 0.000000005;
      assert c == 1 || c == 2 || c == 3 || c == 4;
    }
  }

  /** The schema refuses a payload exactly when the series is long and fresh enough,
      and a row behind one of the chosen candles has a price that rounds to zero. */
  lemma RejectedExactly(request: Request, rows: seq<BarRow>, now: nat -> int, first: nat)
    requires request.limit >= 1 && Normalise(rows, now, first).Ok?
    ensures var bars := Normalise(rows, now, first).value;
            var closed := ClosedOnly(bars, request.duration, now(first + |rows|));
            var later := now(first + |rows| + 1);
            (Assess(request, rows, now, first) == Err(PayloadRejected)
             <==> |closed| >= request.limit
                  && (request.maxAge.Some? ==> !IsStale(closed[|closed| - 1], request.duration, request.maxAge.value, later))
                  && SomePriceVanishes(rows, now, first, closed[|closed| - request.limit..]))
  {
    hide Normalise, ClosedOnly, IsStale, Choose, SomePriceVanishes, PositivePrices;
    var bars := Normalise(rows, now, first).value;
    var moment := now(first + |rows|);
    var closed := ClosedOnly(bars, request.duration, moment);
    ChooseRejects(request, bars, moment, now(first + |rows| + 1));
    if |closed| >= request.limit {
      ClosedAreBars(bars, request.duration, moment);
      PositiveExactly(rows, now, first, closed[|closed| - request.limit..]);
    }
  }

  lemma ChooseRejects(request: Request, bars: seq<Bar>, moment: int, later: int)
    requires request.limit >= 1
    ensures var closed := ClosedOnly(bars, request.duration, moment);
            (Choose(request, bars, moment, later) == Err(PayloadRejected)
             <==> |closed| >= request.limit
                  && (request.maxAge.Some? ==> !IsStale(closed[|closed| - 1], request.duration, request.maxAge.value, later))
                  && !PositivePrices(closed[|closed| - request.limit..]))
  {
    hide ClosedOnly, IsStale, PositivePrices;
    var closed := ClosedOnly(bars, request.duration, moment);
    if |closed| >= request.limit {
      var selected := closed[|closed| - request.limit..];
      assert selected[|selected| - 1] == closed[|closed| - 1];
    }
  }

  /** Row `i` is behind one of these candles and has a price that rounds to zero. */
  predicate VanishesIn(rows: seq<BarRow>, now: nat -> int, first: nat, i: nat, bars: seq<Bar>)
    requires i < |rows|
  {
    RowKept(rows, now, first, i, bars) && PriceVanishes(rows[i])
  }

  predicate SomePriceVanishes(rows: seq<BarRow>, now: nat -> int, first: nat, bars: seq<Bar>) {
    exists i :: 0 <= i < |rows| && VanishesIn(rows, now, first, i, bars)
  }

  lemma {:induction false} ClosedAreBars(bars: seq<Bar>, duration: nat, now: int)
    ensures forall bar | bar in ClosedOnly(bars, duration, now) :: bar in bars
  {
    hide ClosedBy;
    if bars != [] {
      ClosedAreBars(bars[1..], duration, now);
    }
  }

  lemma PositiveExactly(rows: seq<BarRow>, now: nat -> int, first: nat, selected: seq<Bar>)
    requires Normalise(rows, now, first).Ok? && forall bar | bar in selected :: bar in Normalise(rows, now, first).value
    ensures !PositivePrices(selected) <==> SomePriceVanishes(rows, now, first, selected)
  {
    hide Normalise, ToBar, PositiveBar, PriceVanishes, Opens, Stamped, PositivePrices;
    NormaliseMeaning(rows, now, first);
    PositiveBars(selected);
    if i :| 0 <= i < |rows| && VanishesIn(rows, now, first, i, selected) {
      ConvertedRow(rows[i], now(first + i));
    }
    if bar :| bar in selected && !PositiveBar(bar) {
      assert FromRow(rows, now, first, bar);
      var i :| 0 <= i < |rows| && ToBar(rows[i], now(first + i)) == Ok(bar);
      ConvertedRow(rows[i], now(first + i));
      assert VanishesIn(rows, now, first, i, selected);
    }
  }

  lemma PositiveBars(bars: seq<Bar>)
    ensures PositivePrices(bars) <==> forall bar | bar in bars :: PositiveBar(bar)
  {
    hide PositiveBar;
    assert forall i | 0 <= i < |bars| :: bars[i] in bars;
  }

  // ----- the reading -------------------------------------------------------------------

  /** The payload is an update whose first unusable row has fields enough, and a list
      or an object for its key. */
  ghost predicate UnhashableUpdate(reader: Reader, payload: string) {
    var message := Classify(reader.parse, payload);
    var rows := ExtractRows(message, reader.series);
    message.kind in {TimescaleUpdate, DataUpdate} && HasUnhashableKey(rows)
  }

  ghost predicate HasUnhashableKey(rows: seq<Row>) {
    exists i :: 0 <= i < |rows| && FirstUnusable(rows, i) && |rows[i]| >= MIN_BAR_FIELDS
                && (rows[i][0].JArray? || rows[i][0].JObject?)
  }

  /** The failures a reading can end in. */
  const READING_FAILURES := {TimedOut, ConnectionFailed, FramingFault, ProtocolFault, CriticalFault, CandleFault, UnhashableKey}

  lemma {:induction false} CollectFailures(table: seq<BarRow>, rows: seq<Row>)
    ensures Collect(table, rows).Err? ==> Collect(table, rows).error in READING_FAILURES
    decreases |rows|
  {
    if rows != [] && Usable(rows[0]) {
      CollectFailures(Put(table, rows[0]), rows[1..]);
    }
  }

  lemma OnePayloadFailures(reader: Reader, refuses: nat -> bool, tail: string, p: Progress, payload: string)
    ensures var o := HandleOne(reader, refuses, tail, p, payload);
            (o.Failed? ==> o.failure in READING_FAILURES)
            && ((o.Failed? && o.failure == UnhashableKey) <==> UnhashableUpdate(reader, payload))
  {
    hide Classify, ExtractRows, Collect;
    var rows := ExtractRows(Classify(reader.parse, payload), reader.series);
    CollectFailures(p.table, rows);
    UnhashableExactly(p.table, rows);
  }

  /** Some payload is reached, and is such an update. */
  ghost predicate ReachesUnhashable(reader: Reader, refuses: nat -> bool, tail: string, p: Progress, payloads: seq<string>) {
    exists i :: 0 <= i < |payloads| && HandleAll(reader, refuses, tail, p, payloads[..i]).Going?
                && UnhashableUpdate(reader, payloads[i])
  }

  lemma {:induction false} PacketFailures(reader: Reader, refuses: nat -> bool, tail: string, p: Progress, payloads: seq<string>)
    ensures var o := HandleAll(reader, refuses, tail, p, payloads);
            (o.Failed? ==> o.failure in READING_FAILURES)
            && ((o.Failed? && o.failure == UnhashableKey) <==> ReachesUnhashable(reader, refuses, tail, p, payloads))
    decreases |payloads|
  {
    hide HandleOne, UnhashableUpdate;
    if payloads != [] {
      var o := HandleOne(reader, refuses, tail, p, payloads[0]);
      OnePayloadFailures(reader, refuses, tail, p, payloads[0]);
      if o.Going? {
        PacketFailures(reader, refuses, tail, o.progress, payloads[1..]);
      }
      ReachedHereOrLater(reader, refuses, tail, p, payloads);
    }
  }

  lemma ReachedHereOrLater(reader: Reader, refuses: nat -> bool, tail: string, p: Progress, payloads: seq<string>)
    requires payloads != []
    ensures var o := HandleOne(reader, refuses, tail, p, payloads[0]);
            (ReachesUnhashable(reader, refuses, tail, p, payloads)
             <==> UnhashableUpdate(reader, payloads[0])
                  || (o.Going? && ReachesUnhashable(reader, refuses, tail, o.progress, payloads[1..])))
  {
    hide HandleOne, UnhashableUpdate;
    var o := HandleOne(reader, refuses, tail, p, payloads[0]);
    var rest := payloads[1..];
    forall i | 0 < i < |payloads|
      ensures HandleAll(reader, refuses, tail, p, payloads[..i]).Going?
         <==> o.Going? && HandleAll(reader, refuses, tail, o.progress, rest[..i - 1]).Going?
    {
      assert payloads[..i][0] == payloads[0] && payloads[..i][1..] == rest[..i - 1];
    }
    assert HandleAll(reader, refuses, tail, p, payloads[..0]).Going?;
    if i :| 0 <= i < |payloads| && HandleAll(reader, refuses, tail, p, payloads[..i]).Going? && UnhashableUpdate(reader, payloads[i]) {
      assert i > 0 ==> rest[i - 1] == payloads[i];
    }
    if o.Going? && ReachesUnhashable(reader, refuses, tail, o.progress, rest) {
      var j :| 0 <= j < |rest| && HandleAll(reader, refuses, tail, o.progress, rest[..j]).Going? && UnhashableUpdate(reader, rest[j]);
      assert HandleAll(reader, refuses, tail, p, payloads[..j + 1]).Going? && payloads[j + 1] == rest[j];
    }
  }

  /** Where a reading stands: the next receive, the text held back, what was read. */
  datatype Point = Point(k: nat, buffer: string, progress: Progress)

  /** The next receive is made in time and brings text that decodes. */
  ghost predicate Decodes(feed: Feed, at: Point) {
    at.progress.stats.messages < MAX_MESSAGES && !feed.late(at.k)
    && feed.script(at.k).Text? && feed.script(at.k).text != ""
    && Decode(at.buffer + feed.script(at.k).text).Decoded?
  }

  /** Where the reading stands after the next receive, if that does not end it. */
  ghost function Next(reader: Reader, feed: Feed, at: Point): Option<Point> {
    if !Decodes(feed, at) then None
    else
      var d := Decode(at.buffer + feed.script(at.k).text);
      match HandleAll(reader, feed.refuses, d.remainder, at.progress, d.payloads)
      case Going(q) => Some(Point(at.k + 1, d.remainder, q))
      case _ => None
  }

  /** Where it stands after so many receives, if it goes on that far. */
  ghost function After(reader: Reader, feed: Feed, at: Point, steps: nat): (reached: Option<Point>)
    decreases steps
  {
    if steps == 0 then Some(at)
    else
      match Next(reader, feed, at)
      case None => None
      case Some(next) => After(reader, feed, next, steps - 1)
  }

  /** The packet received there reaches an update with an unhashable key. */
  ghost predicate UnhashableAt(reader: Reader, feed: Feed, at: Point) {
    Decodes(feed, at)
    && var d := Decode(at.buffer + feed.script(at.k).text);
       ReachesUnhashable(reader, feed.refuses, d.remainder, at.progress, d.payloads)
  }

  ghost predicate UnhashableAfter(reader: Reader, feed: Feed, at: Point, steps: nat) {
    var reached := After(reader, feed, at, steps);
    reached.Some? && UnhashableAt(reader, feed, reached.value)
  }

  ghost predicate MeetsUnhashable(reader: Reader, feed: Feed, at: Point) {
    exists steps: nat :: UnhashableAfter(reader, feed, at, steps)
  }

  /** A reading fails in one of these ways, and over an unhashable key if and only if
      it goes on up to a packet that reaches an update with one. */
  lemma {:induction false} ReadingFailures(reader: Reader, feed: Feed, at: Point)
    requires |at.buffer| <= MAX_REMAINDER
    ensures var o := ReadFrom(reader, feed, at.k, at.buffer, at.progress);
            (o.Failed? ==> o.failure in READING_FAILURES)
            && ((o.Failed? && o.failure == UnhashableKey) <==> MeetsUnhashable(reader, feed, at))
    decreases Budget(at.progress.stats.messages), MAX_REMAINDER + 1 - |at.buffer|
  {
    hide Decode, HandleAll, ReadFrom, ReachesUnhashable, Decodes, MeetsUnhashable;
    ReadOnce(reader, feed, at.k, at.buffer, at.progress);
    FirstStep(reader, feed, at);
    if Decodes(feed, at) {
      PointDecodes(feed, at);
      var d := Decode(at.buffer + feed.script(at.k).text);
      var o := HandleAll(reader, feed.refuses, d.remainder, at.progress, d.payloads);
      PacketFailures(reader, feed.refuses, d.remainder, at.progress, d.payloads);
      if o.Going? {
        StepsLeft(reader, feed, at);
        ReadingFailures(reader, feed, Point(at.k + 1, d.remainder, o.progress));
      }
    } else {
      PointFails(reader, feed, at);
    }
  }

  lemma PointDecodes(feed: Feed, at: Point)
    requires Decodes(feed, at)
    ensures at.progress.stats.messages < MAX_MESSAGES && !feed.late(at.k)
    ensures feed.script(at.k).Text? && feed.script(at.k).text != "" && Decode(at.buffer + feed.script(at.k).text).Decoded?
  {
  }

  lemma PointFails(reader: Reader, feed: Feed, at: Point)
    requires |at.buffer| <= MAX_REMAINDER && !Decodes(feed, at)
    ensures var o := ReadFrom(reader, feed, at.k, at.buffer, at.progress);
            o.Failed? && o.failure in READING_FAILURES && o.failure != UnhashableKey
  {
    hide Decode, HandleAll, ReadFrom;
    ReadOnce(reader, feed, at.k, at.buffer, at.progress);
  }

  /** A receive that does not end the reading lowers its measure. */
  lemma StepsLeft(reader: Reader, feed: Feed, at: Point)
    requires |at.buffer| <= MAX_REMAINDER && Decodes(feed, at)
    requires var d := Decode(at.buffer + feed.script(at.k).text);
             HandleAll(reader, feed.refuses, d.remainder, at.progress, d.payloads).Going?
    ensures var d := Decode(at.buffer + feed.script(at.k).text);
            var q := HandleAll(reader, feed.refuses, d.remainder, at.progress, d.payloads).progress;
            |d.remainder| <= MAX_REMAINDER
            && (Budget(q.stats.messages) < Budget(at.progress.stats.messages)
                || (Budget(q.stats.messages) == Budget(at.progress.stats.messages) && |d.remainder| > |at.buffer|))
  {
    hide Decode, HandleAll;
  }

  /** It is met at this receive, or after it. */
  lemma FirstStep(reader: Reader, feed: Feed, at: Point)
    ensures MeetsUnhashable(reader, feed, at)
       <==> UnhashableAt(reader, feed, at)
            || (Next(reader, feed, at).Some? && MeetsUnhashable(reader, feed, Next(reader, feed, at).value))
  {
    hide Next, UnhashableAt;
    assert UnhashableAfter(reader, feed, at, 0) <==> UnhashableAt(reader, feed, at);
    var next := Next(reader, feed, at);
    if steps: nat :| UnhashableAfter(reader, feed, at, steps) {
      assert steps > 0 ==> next.Some? && UnhashableAfter(reader, feed, next.value, steps - 1);
    }
    if next.Some? && MeetsUnhashable(reader, feed, next.value) {
      var steps: nat :| UnhashableAfter(reader, feed, next.value, steps);
      assert UnhashableAfter(reader, feed, at, steps + 1);
    }
  }

  // ----- the fetch ---------------------------------------------------------------------

  /** The socket opens and the commands all go. */
  predicate Asks(settings: Settings, opening: Opening) {
    opening.Connects? && Handshake(opening.refuses, [], settings.handshake).0
  }

  /** Where the reading starts. */
  function Start(settings: Settings, opening: Opening): Point
    requires opening.Connects?
  {
    Point(0, "", Progress([], NO_STATS, Handshake(opening.refuses, [], settings.handshake).1))
  }

  ghost function Reading(settings: Settings, opening: Opening, clocks: Clocks): Outcome
    requires opening.Connects?
  {
    var start := Start(settings, opening);
    ReadFrom(settings.reader, FeedOf(settings, opening, clocks), start.k, start.buffer, start.progress)
  }

  /** The reading completes, with these rows. */
  ghost predicate Reads(settings: Settings, opening: Opening, clocks: Clocks, rows: seq<BarRow>) {
    Asks(settings, opening)
    && Reading(settings, opening, clocks).Completed? && Reading(settings, opening, clocks).progress.table == rows
  }

  /** A failure no reading ends in comes from the rows of a completed one. */
  lemma FailsOverRows(settings: Settings, opening: Opening, clocks: Clocks, failure: Failure)
    requires settings.Valid() && failure in {DateOutOfRange, DecimalOverflow, PayloadRejected}
    ensures FetchOutcome(settings, opening, clocks) == Err(failure)
       <==> exists rows :: Reads(settings, opening, clocks, rows)
                           && Assess(settings.request, rows, clocks.now, clocks.n + 2) == Err(failure)
  {
    hide Handshake, ReadFrom, FeedOf, Assess;
    if Asks(settings, opening) {
      ReadingFailures(settings.reader, FeedOf(settings, opening, clocks), Start(settings, opening));
      var o := Reading(settings, opening, clocks);
      if o.Completed? {
        assert Reads(settings, opening, clocks, o.progress.table);
      }
    }
  }

  /** The fetch fails over a date no datetime holds if and only if its reading
      completes with rows of which the first that makes no candle is stamped past
      year 9999. */
  lemma FetchOutOfRangeExactly(settings: Settings, opening: Opening, clocks: Clocks)
    requires settings.Valid()
    ensures FetchOutcome(settings, opening, clocks) == Err(DateOutOfRange)
       <==> exists rows :: Reads(settings, opening, clocks, rows) && StopsOutOfRange(rows, clocks.now, clocks.n + 2)
  {
    hide FetchOutcome, Assess, Reads, StopsAt;
    FailsOverRows(settings, opening, clocks, DateOutOfRange);
    forall rows | Reads(settings, opening, clocks, rows)
      ensures Assess(settings.request, rows, clocks.now, clocks.n + 2) == Err(DateOutOfRange)
         <==> StopsOutOfRange(rows, clocks.now, clocks.n + 2)
    {
      OutOfRangeExactly(settings.request, rows, clocks.now, clocks.n + 2);
    }
  }

  /** The first row that makes no candle is stamped past the last second of year 9999. */
  predicate StopsOutOfRange(rows: seq<BarRow>, now: nat -> int, first: nat) {
    exists n :: first <= n < first + |rows| && StopsAt(rows, now, first, n)
                && rows[n - first][0].JNumber? && rows[n - first][0].number.Value() >= PAST_LAST_SECOND as real
  }

  /** The first row that makes no candle comes as far as a price of at least 10^28. */
  predicate StopsAtOverflow(rows: seq<BarRow>, now: nat -> int, first: nat) {
    exists n :: first <= n < first + |rows| && StopsAt(rows, now, first, n)
                && SomePriceOverflows(rows[n - first], now(n))
  }

  /** It fails in the decimal library if and only if its reading completes with rows
      of which the first that makes no candle comes as far as a price of at least
      10^28. */
  lemma FetchOverflowExactly(settings: Settings, opening: Opening, clocks: Clocks)
    requires settings.Valid() && forall rows | Reads(settings, opening, clocks, rows) :: AllFitContext(rows)
    ensures FetchOutcome(settings, opening, clocks) == Err(DecimalOverflow)
       <==> exists rows :: Reads(settings, opening, clocks, rows) && StopsAtOverflow(rows, clocks.now, clocks.n + 2)
  {
    hide FetchOutcome, Assess, Reads, StopsAt, AllFitContext, SomePriceOverflows;
    FailsOverRows(settings, opening, clocks, DecimalOverflow);
    forall rows | Reads(settings, opening, clocks, rows)
      ensures Assess(settings.request, rows, clocks.now, clocks.n + 2) == Err(DecimalOverflow)
         <==> StopsAtOverflow(rows, clocks.now, clocks.n + 2)
    {
      OverflowExactly(settings.request, rows, clocks.now, clocks.n + 2);
    }
  }

  /** The rows make a series long and fresh enough, and a row behind one of the chosen
      candles has a price that rounds to zero. */
  predicate ChosenPriceVanishes(request: Request, rows: seq<BarRow>, now: nat -> int, first: nat) {
    Normalise(rows, now, first).Ok?
    && var closed := ClosedOnly(Normalise(rows, now, first).value, request.duration, now(first + |rows|));
       request.limit >= 1 && |closed| >= request.limit
       && (request.maxAge.Some?
           ==> !IsStale(closed[|closed| - 1], request.duration, request.maxAge.value, now(first + |rows| + 1)))
       && SomePriceVanishes(rows, now, first, closed[|closed| - request.limit..])
  }

  lemma RowsRejectedExactly(request: Request, rows: seq<BarRow>, now: nat -> int, first: nat)
    requires request.limit >= 1
    ensures Assess(request, rows, now, first) == Err(PayloadRejected) <==> ChosenPriceVanishes(request, rows, now, first)
  {
    hide Normalise, ClosedOnly, IsStale, Choose, SomePriceVanishes;
    if Normalise(rows, now, first).Ok? {
      RejectedExactly(request, rows, now, first);
    } else {
      NormaliseFailures(rows, now, first);
    }
  }

  lemma NormaliseFailures(rows: seq<BarRow>, now: nat -> int, first: nat)
    ensures Normalise(rows, now, first) != Err(PayloadRejected)
  {
    hide ToBars, ToBar, SortByStamp, DistinctStamps;
    if ToBars(rows, now, first).Err? {
      var n := SomeStop(rows, now, first);
      RowFailures(rows[n - first], now(n));
    }
  }

  lemma RowFailures(row: BarRow, now: int)
    ensures ToBar(row, now) != Err(PayloadRejected)
  {
    hide CandleAt, Number.Value;
    if UsableSecond(row[0]).Ok? {
      CandleFailures(UsableSecond(row[0]).value, row);
    }
  }

  /** Its payload is refused by the schema if and only if its reading completes with
      rows of which one behind a chosen candle has a price that rounds to zero. */
  lemma FetchRejectedExactly(settings: Settings, opening: Opening, clocks: Clocks)
    requires settings.Valid()
    ensures FetchOutcome(settings, opening, clocks) == Err(PayloadRejected)
       <==> exists rows :: Reads(settings, opening, clocks, rows)
                           && ChosenPriceVanishes(settings.request, rows, clocks.now, clocks.n + 2)
  {
    hide FetchOutcome, Assess, Reads, ChosenPriceVanishes;
    FailsOverRows(settings, opening, clocks, PayloadRejected);
    forall rows | Reads(settings, opening, clocks, rows)
      ensures Assess(settings.request, rows, clocks.now, clocks.n + 2) == Err(PayloadRejected)
         <==> ChosenPriceVanishes(settings.request, rows, clocks.now, clocks.n + 2)
    {
      RowsRejectedExactly(settings.request, rows, clocks.now, clocks.n + 2);
    }
  }

  /** It fails over an unhashable key if and only if its reading goes on up to a packet
      that reaches an update whose first unusable row has such a key. */
  lemma FetchUnhashableExactly(settings: Settings, opening: Opening, clocks: Clocks)
    requires settings.Valid()
    ensures FetchOutcome(settings, opening, clocks) == Err(UnhashableKey)
       <==> Asks(settings, opening)
            && MeetsUnhashable(settings.reader, FeedOf(settings, opening, clocks), Start(settings, opening))
  {
    hide Handshake, ReadFrom, FeedOf, Assess, MeetsUnhashable;
    if Asks(settings, opening) {
      ReadingFailures(settings.reader, FeedOf(settings, opening, clocks), Start(settings, opening));
      var o := Reading(settings, opening, clocks);
      if o.Completed? {
        RowsHaveKeys(settings.request, o.progress.table, clocks.now, clocks.n + 2);
      }
    }
  }

  lemma RowsHaveKeys(request: Request, rows: seq<BarRow>, now: nat -> int, first: nat)
    requires request.limit >= 1
    ensures Assess(request, rows, now, first) != Err(UnhashableKey)
  {
    hide ToBars, ToBar, SortByStamp, DistinctStamps, ClosedOnly, IsStale, PositivePrices;
    if ToBars(rows, now, first).Err? {
      var n := SomeStop(rows, now, first);
      RowNeverUnhashable(rows[n - first], now(n));
    }
  }

  lemma RowNeverUnhashable(row: BarRow, now: int)
    ensures ToBar(row, now) != Err(UnhashableKey)
  {
    hide CandleAt, Number.Value;
    if UsableSecond(row[0]).Ok? {
      CandleFailures(UsableSecond(row[0]).value, row);
    }
  }
}
