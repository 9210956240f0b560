/** Several timeframes fetched one after another and frozen at one clock reading. */
module Observation {
  import opened Options
  import opened Timeframes
  import opened Snapshots
  import Session
  import Candles

  // ----- what the single-timeframe sources answer --------------------------------

  /** The outcome of building a source, loading it and normalising what it gave. */
  datatype Answer =
    | LoadFailed
    | NormalizeFailed
    | Series(symbol: string, provider: string, bars: seq<SeriesBar>)

  datatype ObserveError =
    | CouldNotFetch(timeframe: Timeframe)
    | CouldNotNormalize
    | NoCandles(timeframe: Timeframe)
    | OtherInstrument(timeframe: Timeframe)
    | NoSnapshot(timeframe: Timeframe, why: Refusal)
    | SnapshotRefused(why: Refusal)

  /** What one timeframe's fetch produced: provenance, not analysis. */
  datatype TimeframeFetch = TimeframeFetch(
    timeframe: Timeframe, provider: string, requested: nat, received: nat, closed: nat,
    firstOpen: int, latestOpen: int, latestClosedAt: int)

  datatype Observed = Observed(observedAt: int, snapshot: MarketSnapshot, fetches: seq<TimeframeFetch>)

  /** Builds and loads the source of the i-th timeframe asked for. Later calls see
      later clocks; nothing is assumed of how the answers relate. */
  type Build = (nat, Timeframe, nat) -> Answer

  datatype Gathered = Gathered(market: Option<(string, string)>, parts: seq<TimeframeSnapshot>, fetches: seq<TimeframeFetch>)

  const NOTHING_YET := Gathered(None, [], [])

  function FetchRecord(answer: Answer, part: TimeframeSnapshot, requested: nat): TimeframeFetch
    requires answer.Series? && part.bars != []
  {
    TimeframeFetch(part.timeframe, answer.provider, requested, |answer.bars|, part.barCount,
                   part.bars[0].at, part.bars[|part.bars| - 1].at, part.latestClosedAt)
  }

  /** One timeframe of the loop. */
  function Advance(p: Gathered, timeframe: Timeframe, answer: Answer, requested: nat, observedAt: int)
    : Result<Gathered, ObserveError>
  {
    match answer
    case LoadFailed => Err(CouldNotFetch(timeframe))
    case NormalizeFailed => Err(CouldNotNormalize)
    case Series(symbol, provider, bars) =>
      if bars == [] then Err(NoCandles(timeframe))
      else if p.market.Some? && p.market.value.0 != symbol then Err(OtherInstrument(timeframe))
      else
        match BuildTimeframeSnapshot(timeframe, bars, observedAt)
        case Err(why) => Err(NoSnapshot(timeframe, why))
        case Ok(part) =>
          var market := if p.market.Some? then p.market else Some((symbol, provider));
          Ok(Gathered(market, p.parts + [part], p.fetches + [FetchRecord(answer, part, requested)]))
  }

  /** The loop over the timeframes from the i-th on. */
  function AdvanceFrom(p: Gathered, i: nat, timeframes: seq<Timeframe>, build: Build, requested: nat, observedAt: int)
    : Result<Gathered, ObserveError>
    requires i <= |timeframes|
    decreases |timeframes| - i
  {
    if i == |timeframes| then Ok(p)
    else
      match Advance(p, timeframes[i], build(i, timeframes[i], requested), requested, observedAt)
      case Err(e) => Err(e)
      case Ok(q) => AdvanceFrom(q, i + 1, timeframes, build, requested, observedAt)
  }

  /** Every part once more through the filter, as the snapshot is assembled. */
  function Rebuild(parts: seq<TimeframeSnapshot>, observedAt: int): (r: Result<seq<TimeframeSnapshot>, Refusal>)
    ensures r.Ok? ==> |r.value| == |parts|
  {
    if parts == [] then Ok([])
    else
      match BuildTimeframeSnapshot(parts[0].timeframe, parts[0].bars, observedAt)
      case Err(why) => Err(why)
      case Ok(part) =>
        match Rebuild(parts[1..], observedAt)
        case Err(why) => Err(why)
        case Ok(rest) => Ok([part] + rest)
  }

  function Assemble(p: Gathered, providerSymbol: string, observedAt: int): Result<Observed, ObserveError>
    requires p.market.Some?
  {
    match Rebuild(p.parts, observedAt)
    case Err(why) => Err(SnapshotRefused(why))
    case Ok(parts) =>
      match BuildMarketSnapshot(MarketSnapshot(observedAt, p.market.value.0, p.market.value.1, providerSymbol, parts))
      case Err(why) => Err(SnapshotRefused(why))
      case Ok(snapshot) => Ok(Observed(observedAt, snapshot, p.fetches))
  }

  lemma {:induction false} MarketIsKnown(p: Gathered, i: nat, timeframes: seq<Timeframe>, build: Build, requested: nat, observedAt: int)
    requires i <= |timeframes| && (i < |timeframes| || p.market.Some?)
    requires AdvanceFrom(p, i, timeframes, build, requested, observedAt).Ok?
    ensures AdvanceFrom(p, i, timeframes, build, requested, observedAt).value.market.Some?
    decreases |timeframes| - i
  {
    if i < |timeframes| {
      var q := Advance(p, timeframes[i], build(i, timeframes[i], requested), requested, observedAt).value;
      MarketIsKnown(q, i + 1, timeframes, build, requested, observedAt);
    }
  }

  function Observe(timeframes: seq<Timeframe>, build: Build, requested: nat, providerSymbol: string, observedAt: int)
    : Result<Observed, ObserveError>
    requires timeframes != []
  {
    match AdvanceFrom(NOTHING_YET, 0, timeframes, build, requested, observedAt)
    case Err(e) => Err(e)
    case Ok(p) =>
      MarketIsKnown(NOTHING_YET, 0, timeframes, build, requested, observedAt);
      Assemble(p, providerSymbol, observedAt)
  }

  /** The configured lateness budget of one timeframe, in minutes. */
  function StalenessAllowance(maxAge: Option<nat>, timeframe: Timeframe): Option<nat>
    requires Duration(timeframe).Some?
  {
    match maxAge
    case None => None
    case Some(minutes) => Some(minutes + Duration(timeframe).value / 60)
  }

  /** Given that allowance, a source refuses a series exactly when the bar due after
      its newest closed one should have closed more than the budget ago. */
  lemma AllowanceMeasuresLateness(budget: nat, timeframe: Timeframe, latest: Candles.Bar, now: int)
    requires Duration(timeframe).Some?
    ensures Candles.IsStale(latest, Duration(timeframe).value, StalenessAllowance(Some(budget), timeframe).value, now)
       <==> now - (Candles.Opens(latest) + 2 * Duration(timeframe).value) * MICROS > budget * 60 * MICROS
  {
    Candles.StalenessIsLateness(latest, Duration(timeframe).value, budget, now);
  }

  // ----- the source --------------------------------------------------------------

  class MultiTimeframeSource {
    const providerSymbol: string
    const timeframes: seq<Timeframe>
    const requested: nat
    const now: Session.Clock
    var build: Build

    constructor (providerSymbol: string, timeframes: seq<Timeframe>, requested: nat, now: Session.Clock, build: Build)
      requires timeframes != []
      ensures this.providerSymbol == providerSymbol && this.timeframes == timeframes && this.requested == requested
      ensures this.now == now && this.build == build
    {
      this.providerSymbol, this.timeframes, this.requested := providerSymbol, timeframes, requested;
      this.now, this.build := now, build;
    }

    method SetBuildSource(build: Build)
      modifies this`build
      ensures this.build == build
    {
      this.build := build;
    }

    /** One clock reading for all the fetches. */
    method Take() returns (r: Result<Observed, ObserveError>)
      requires timeframes != []
      modifies now
      ensures now.used == old(now.used) + 1
      ensures r == Observe(timeframes, build, requested, providerSymbol, now.readings(old(now.used)))
    {
      var observedAt := now.Read();
      var market: Option<(string, string)>, parts, fetches := None, [], [];
      var i := 0;
      while i < |timeframes|
        invariant 0 <= i <= |timeframes| && (i > 0 ==> market.Some?)
        invariant AdvanceFrom(NOTHING_YET, 0, timeframes, build, requested, observedAt)
               == AdvanceFrom(Gathered(market, parts, fetches), i, timeframes, build, requested, observedAt)
      {
        hide BuildTimeframeSnapshot, Assemble;
        var timeframe := timeframes[i];
        var answer := build(i, timeframe, requested);
        if answer.LoadFailed? {
          return Err(CouldNotFetch(timeframe));
        }
        if answer.NormalizeFailed? {
          return Err(CouldNotNormalize);
        }
        if answer.bars == [] {
          return Err(NoCandles(timeframe));
        }
        if market.None? {
          market := Some((answer.symbol, answer.provider));
        } else if market.value.0 != answer.symbol {
          return Err(OtherInstrument(timeframe));
        }
        var part := BuildTimeframeSnapshot(timeframe, answer.bars, observedAt);
        if part.Err? {
          return Err(NoSnapshot(timeframe, part.error));
        }
        parts := parts + [part.value];
        fetches := fetches + [FetchRecord(answer, part.value, requested)];
        i := i + 1;
      }
      r := Assemble(Gathered(market, parts, fetches), providerSymbol, observedAt);
    }
  }

  // ----- the second filter changes nothing ----------------------------------------

  predicate BuiltFrom(p: Gathered, n: nat, timeframes: seq<Timeframe>, build: Build, requested: nat, observedAt: int)
    requires n <= |timeframes|
  {
    |p.parts| == n
    && forall i | 0 <= i < n ::
         var answer := build(i, timeframes[i], requested);
         answer.Series?
         && (p.market.Some? && answer.symbol == p.market.value.0)
         && BuildTimeframeSnapshot(timeframes[i], answer.bars, observedAt) == Ok(p.parts[i])
  }

  lemma {:induction false} PartsAreDirect(p: Gathered, i: nat, timeframes: seq<Timeframe>, build: Build, requested: nat, observedAt: int)
    requires i <= |timeframes| && BuiltFrom(p, i, timeframes, build, requested, observedAt)
    requires p.market.None? ==> i == 0
    requires AdvanceFrom(p, i, timeframes, build, requested, observedAt).Ok?
    ensures BuiltFrom(AdvanceFrom(p, i, timeframes, build, requested, observedAt).value, |timeframes|,
                      timeframes, build, requested, observedAt)
    decreases |timeframes| - i
  {
    hide BuildTimeframeSnapshot;
    if i < |timeframes| {
      var q := Advance(p, timeframes[i], build(i, timeframes[i], requested), requested, observedAt).value;
      PartsAreDirect(q, i + 1, timeframes, build, requested, observedAt);
    }
  }

  /** Parts taken at an instant pass through the filter at that instant unchanged. */
  lemma {:induction false} RebuildIsIdentity(parts: seq<TimeframeSnapshot>, observedAt: int)
    requires forall i | 0 <= i < |parts| ::
               BuildTimeframeSnapshot(parts[i].timeframe, parts[i].bars, observedAt) == Ok(parts[i])
    ensures Rebuild(parts, observedAt) == Ok(parts)
  {
    hide BuildTimeframeSnapshot;
    if parts != [] {
      RebuildIsIdentity(parts[1..], observedAt);
      assert [parts[0]] + parts[1..] == parts;
    }
  }

  /** A successful observation: one part for each timeframe asked for, taken
      directly from that fetch at the one instant; one instrument; no timeframe
      twice; and no bar anywhere that closes after the instant. */
  lemma ObservationMeaning(timeframes: seq<Timeframe>, build: Build, requested: nat, providerSymbol: string, observedAt: int)
    requires timeframes != [] && Observe(timeframes, build, requested, providerSymbol, observedAt).Ok?
    ensures var o := Observe(timeframes, build, requested, providerSymbol, observedAt).value;
            o.observedAt == o.snapshot.observedAt == observedAt
            && |o.snapshot.timeframes| == |timeframes|
            && TimeframesDistinct(o.snapshot.timeframes)
            && (forall i | 0 <= i < |timeframes| ::
                  var answer := build(i, timeframes[i], requested);
                  answer.Series? && answer.symbol == o.snapshot.symbol
                  && BuildTimeframeSnapshot(timeframes[i], answer.bars, observedAt) == Ok(o.snapshot.timeframes[i]))
            && (forall part, bar | part in o.snapshot.timeframes && bar in part.bars ::
                  Span(part.timeframe).Some? && ClosedAt(bar, Span(part.timeframe).value, observedAt))
  {
    var p := AdvanceFrom(NOTHING_YET, 0, timeframes, build, requested, observedAt).value;
    PartsAreDirect(NOTHING_YET, 0, timeframes, build, requested, observedAt);
    forall i | 0 <= i < |p.parts|
      ensures BuildTimeframeSnapshot(p.parts[i].timeframe, p.parts[i].bars, observedAt) == Ok(p.parts[i])
      ensures WellFormed(p.parts[i])
    {
      PartIsStable(timeframes[i], build(i, timeframes[i], requested).bars, observedAt);
    }
    RebuildIsIdentity(p.parts, observedAt);
    var o := Observe(timeframes, build, requested, providerSymbol, observedAt).value;
    ValidatedHoldsOnlyClosed(o.snapshot);
  }

  lemma PartIsStable(timeframe: Timeframe, bars: seq<SeriesBar>, observedAt: int)
    requires BuildTimeframeSnapshot(timeframe, bars, observedAt).Ok?
    ensures var part := BuildTimeframeSnapshot(timeframe, bars, observedAt).value;
            BuildTimeframeSnapshot(part.timeframe, part.bars, observedAt) == Ok(part) && WellFormed(part)
  {
    RebuildEqualsDirect(timeframe, bars, observedAt, observedAt);
  }

  // ----- when an observation succeeds, and how it fails --------------------------------

  /** The answer of the i-th timeframe. */
  function AnswerAt(timeframes: seq<Timeframe>, build: Build, requested: nat, i: nat): Answer
    requires i < |timeframes|
  {
    build(i, timeframes[i], requested)
  }

  /** The i-th answer is a series with bars, of the symbol of the first answer, of a
      timeframe of fixed duration, and some of its bars had closed, and those ascend. */
  predicate Fine(timeframes: seq<Timeframe>, build: Build, requested: nat, instant: int, i: nat)
    requires i < |timeframes|
  {
    var answer, first := AnswerAt(timeframes, build, requested, i), AnswerAt(timeframes, build, requested, 0);
    && answer.Series? && answer.bars != []
    && first.Series? && answer.symbol == first.symbol
    && Duration(timeframes[i]).Some?
    && SomeClosed(answer.bars, Duration(timeframes[i]).value, instant)
    && ClosedAscend(answer.bars, Duration(timeframes[i]).value, instant)
  }

  /** What the i-th timeframe is refused for, those before it being fine: the first of
      these, in this order, that is not as it should be. */
  predicate FailsAs(timeframes: seq<Timeframe>, build: Build, requested: nat, instant: int, i: nat, error: ObserveError)
    requires i < |timeframes|
  {
    var timeframe, answer, first := timeframes[i], AnswerAt(timeframes, build, requested, i), AnswerAt(timeframes, build, requested, 0);
    if answer.LoadFailed? then error == CouldNotFetch(timeframe)
    else if answer.NormalizeFailed? then error == CouldNotNormalize
    else if answer.bars == [] then error == NoCandles(timeframe)
    else if i > 0 && first.Series? && answer.symbol != first.symbol then error == OtherInstrument(timeframe)
    else if Duration(timeframe).None? then error == NoSnapshot(timeframe, NoFixedDuration)
    else if !SomeClosed(answer.bars, Duration(timeframe).value, instant) then error == NoSnapshot(timeframe, NothingClosed)
    else !ClosedAscend(answer.bars, Duration(timeframe).value, instant) && error == NoSnapshot(timeframe, NotAscending)
  }

  /** The i-th is the first that is not fine. */
  predicate FirstNotFine(timeframes: seq<Timeframe>, build: Build, requested: nat, instant: int, i: nat)
    requires i < |timeframes|
  {
    !Fine(timeframes, build, requested, instant, i) && forall j | 0 <= j < i :: Fine(timeframes, build, requested, instant, j)
  }

  predicate AllFine(timeframes: seq<Timeframe>, build: Build, requested: nat, instant: int) {
    forall i | 0 <= i < |timeframes| :: Fine(timeframes, build, requested, instant, i)
  }

  predicate AllDifferent(timeframes: seq<Timeframe>) {
    forall i, j | 0 <= i < j < |timeframes| :: timeframes[i] != timeframes[j]
  }

  /** The record of one fetch: what was asked for, what came, and what of it had closed. */
  ghost predicate Records(fetch: TimeframeFetch, timeframe: Timeframe, answer: Answer, part: TimeframeSnapshot, requested: nat) {
    && answer.Series? && part.bars != []
    && fetch.timeframe == timeframe && fetch.provider == answer.provider
    && fetch.requested == requested && fetch.received == |answer.bars| && fetch.closed == |part.bars|
    && fetch.firstOpen == part.bars[0].at && fetch.latestOpen == part.bars[|part.bars| - 1].at
    && fetch.latestClosedAt == part.latestClosedAt
  }

  /** After the first `n` timeframes: their parts and records, and the market of the first. */
  ghost predicate GatheredSoFar(p: Gathered, n: nat, timeframes: seq<Timeframe>, build: Build, requested: nat, instant: int)
    requires n <= |timeframes|
  {
    && |p.parts| == n && |p.fetches| == n
    && (if n == 0 then p.market == None
        else var first := AnswerAt(timeframes, build, requested, 0);
             first.Series? && p.market == Some((first.symbol, first.provider)))
    && forall i | 0 <= i < n :: PartOf(p.parts[i], p.fetches[i], timeframes, build, requested, instant, i)
  }

  /** The i-th part holds what of the i-th answer had closed, and its record says so. */
  ghost predicate PartOf(part: TimeframeSnapshot, fetch: TimeframeFetch, timeframes: seq<Timeframe>, build: Build,
                         requested: nat, instant: int, i: nat)
    requires i < |timeframes|
  {
    var answer := AnswerAt(timeframes, build, requested, i);
    && Fine(timeframes, build, requested, instant, i)
    && HoldsClosed(part, timeframes[i], answer.bars, Duration(timeframes[i]).value, instant)
    && BuildTimeframeSnapshot(timeframes[i], answer.bars, instant) == Ok(part)
    && Records(fetch, timeframes[i], answer, part, requested)
  }

  /** One timeframe of the loop, told from its answer. */
  lemma AdvanceExactly(p: Gathered, n: nat, timeframes: seq<Timeframe>, build: Build, requested: nat, instant: int)
    requires n < |timeframes| && GatheredSoFar(p, n, timeframes, build, requested, instant)
    ensures var r := Advance(p, timeframes[n], AnswerAt(timeframes, build, requested, n), requested, instant);
            && (r.Ok? <==> Fine(timeframes, build, requested, instant, n))
            && (r.Err? ==> FailsAs(timeframes, build, requested, instant, n, r.error))
            && (r.Ok? ==> GatheredSoFar(r.value, n + 1, timeframes, build, requested, instant))
  {
    hide BuildTimeframeSnapshot, HoldsClosed, SomeClosed, ClosedAscend, Duration;
    var timeframe, answer := timeframes[n], AnswerAt(timeframes, build, requested, n);
    if answer.Series? {
      BuiltExactly(timeframe, answer.bars, instant);
    }
    var r := Advance(p, timeframe, answer, requested, instant);
    if r.Ok? {
      var part := BuildTimeframeSnapshot(timeframe, answer.bars, instant).value;
      BuiltHasBars(timeframe, answer.bars, instant);
      assert PartOf(part, r.value.fetches[n], timeframes, build, requested, instant, n);
      forall i | 0 <= i < n
        ensures PartOf(r.value.parts[i], r.value.fetches[i], timeframes, build, requested, instant, i)
      {
        assert PartOf(p.parts[i], p.fetches[i], timeframes, build, requested, instant, i);
      }
    }
  }

  lemma BuiltHasBars(timeframe: Timeframe, bars: seq<SeriesBar>, instant: int)
    requires BuildTimeframeSnapshot(timeframe, bars, instant).Ok?
    ensures var part := BuildTimeframeSnapshot(timeframe, bars, instant).value;
            part.bars != [] && part.barCount == |part.bars| && part.timeframe == timeframe
  {
  }

  lemma {:induction false} LoopExactly(p: Gathered, n: nat, timeframes: seq<Timeframe>, build: Build, requested: nat, instant: int)
    requires n <= |timeframes| && GatheredSoFar(p, n, timeframes, build, requested, instant)
    ensures var r := AdvanceFrom(p, n, timeframes, build, requested, instant);
            && (r.Ok? <==> AllFine(timeframes, build, requested, instant))
            && (r.Err? ==> exists i | 0 <= i < |timeframes| ::
                             FirstNotFine(timeframes, build, requested, instant, i)
                             && FailsAs(timeframes, build, requested, instant, i, r.error))
            && (r.Ok? ==> GatheredSoFar(r.value, |timeframes|, timeframes, build, requested, instant))
    decreases |timeframes| - n
  {
    hide Advance, Fine, FailsAs, HoldsClosed, BuildTimeframeSnapshot;
    SoFarIsFine(p, n, timeframes, build, requested, instant);
    if n < |timeframes| {
      AdvanceExactly(p, n, timeframes, build, requested, instant);
      var r := Advance(p, timeframes[n], AnswerAt(timeframes, build, requested, n), requested, instant);
      if r.Ok? {
        LoopExactly(r.value, n + 1, timeframes, build, requested, instant);
      } else {
        assert FirstNotFine(timeframes, build, requested, instant, n);
      }
    }
  }

  lemma SoFarIsFine(p: Gathered, n: nat, timeframes: seq<Timeframe>, build: Build, requested: nat, instant: int)
    requires n <= |timeframes| && GatheredSoFar(p, n, timeframes, build, requested, instant)
    ensures forall i | 0 <= i < n :: Fine(timeframes, build, requested, instant, i)
  {
    hide Fine, HoldsClosed, BuildTimeframeSnapshot, Records;
    forall i | 0 <= i < n
      ensures Fine(timeframes, build, requested, instant, i)
    {
      assert PartOf(p.parts[i], p.fetches[i], timeframes, build, requested, instant, i);
    }
  }

  /** The snapshot holds one part for each timeframe, of the closed bars of its answer;
      symbol and provider are those of the first; each fetch is recorded as it was. */
  ghost predicate ObservedFrom(o: Observed, timeframes: seq<Timeframe>, build: Build, requested: nat,
                               providerSymbol: string, instant: int)
    requires timeframes != []
  {
    var first := AnswerAt(timeframes, build, requested, 0);
    && first.Series?
    && o.observedAt == instant && o.snapshot.observedAt == instant
    && o.snapshot.symbol == first.symbol && o.snapshot.provider == first.provider
    && o.snapshot.providerSymbol == providerSymbol
    && |o.snapshot.timeframes| == |timeframes| && |o.fetches| == |timeframes|
    && forall i | 0 <= i < |timeframes| ::
         PartOf(o.snapshot.timeframes[i], o.fetches[i], timeframes, build, requested, instant, i)
  }

  lemma AssembledExactly(p: Gathered, timeframes: seq<Timeframe>, build: Build, requested: nat, providerSymbol: string, instant: int)
    requires timeframes != [] && GatheredSoFar(p, |timeframes|, timeframes, build, requested, instant)
    ensures var r := Assemble(p, providerSymbol, instant);
            if AllDifferent(timeframes) then r.Ok? && ObservedFrom(r.value, timeframes, build, requested, providerSymbol, instant)
            else r == Err(SnapshotRefused(RepeatedTimeframe))
  {
    hide Fine, HoldsClosed, BuildTimeframeSnapshot, Records, WellFormed;
    forall i | 0 <= i < |p.parts|
      ensures BuildTimeframeSnapshot(p.parts[i].timeframe, p.parts[i].bars, instant) == Ok(p.parts[i])
      ensures p.parts[i].timeframe == timeframes[i] && p.parts[i].latestClosedAt <= instant
    {
      assert PartOf(p.parts[i], p.fetches[i], timeframes, build, requested, instant, i);
      FineIsSeries(timeframes, build, requested, instant, i);
      var bars := AnswerAt(timeframes, build, requested, i).bars;
      PartIsStable(timeframes[i], bars, instant);
      BuiltHasBars(timeframes[i], bars, instant);
      NewestIsClosed(p.parts[i], timeframes[i], bars, Duration(timeframes[i]).value, instant);
    }
    RebuildIsIdentity(p.parts, instant);
    assert AllDifferent(timeframes) <==> TimeframesDistinct(p.parts);
  }

  lemma FineIsSeries(timeframes: seq<Timeframe>, build: Build, requested: nat, instant: int, i: nat)
    requires i < |timeframes| && Fine(timeframes, build, requested, instant, i)
    ensures AnswerAt(timeframes, build, requested, i).Series? && Duration(timeframes[i]).Some?
  {
  }

  lemma NewestIsClosed(part: TimeframeSnapshot, timeframe: Timeframe, bars: seq<SeriesBar>, duration: nat, instant: int)
    requires HoldsClosed(part, timeframe, bars, duration, instant)
    ensures part.latestClosedAt <= instant
  {
    assert part.bars[|part.bars| - 1] in part.bars;
  }

  /** An observation succeeds exactly when every answer is fine and no timeframe is
      asked for twice. Otherwise the first that is not fine decides, with the error its
      answer tells; and if all are fine, a repeated timeframe is refused. */
  lemma ObservesExactly(timeframes: seq<Timeframe>, build: Build, requested: nat, providerSymbol: string, instant: int)
    requires timeframes != []
    ensures var r := Observe(timeframes, build, requested, providerSymbol, instant);
            && (r.Ok? <==> AllFine(timeframes, build, requested, instant) && AllDifferent(timeframes))
            && (r.Ok? ==> ObservedFrom(r.value, timeframes, build, requested, providerSymbol, instant))
            && (AllFine(timeframes, build, requested, instant) && !AllDifferent(timeframes)
                ==> r == Err(SnapshotRefused(RepeatedTimeframe)))
            && (!AllFine(timeframes, build, requested, instant)
                ==> r.Err? && exists i | 0 <= i < |timeframes| ::
                      FirstNotFine(timeframes, build, requested, instant, i)
                      && FailsAs(timeframes, build, requested, instant, i, r.error))
  {
    hide Fine, FailsAs, GatheredSoFar, AdvanceFrom, Assemble, ObservedFrom, AllFine;
    NothingGathered(timeframes, build, requested, instant);
    LoopExactly(NOTHING_YET, 0, timeframes, build, requested, instant);
    var p := AdvanceFrom(NOTHING_YET, 0, timeframes, build, requested, instant);
    if p.Ok? {
      MarketIsKnown(NOTHING_YET, 0, timeframes, build, requested, instant);
      AssembledExactly(p.value, timeframes, build, requested, providerSymbol, instant);
    }
  }

  lemma NothingGathered(timeframes: seq<Timeframe>, build: Build, requested: nat, instant: int)
    ensures GatheredSoFar(NOTHING_YET, 0, timeframes, build, requested, instant)
  {
  }

  // ----- no look-ahead -------------------------------------------------------------

  /** Two answers that differ at most in bars closing after the instant. */
  predicate AnswersAgree(a: Answer, b: Answer, timeframe: Timeframe, instant: int) {
    match (a, b)
    case (Series(symbol, provider, bars), Series(symbol', provider', bars')) =>
      symbol == symbol' && provider == provider' && (bars == [] <==> bars' == [])
      && SameUpTo(bars, bars', timeframe, instant)
    case _ => a == b
  }

  predicate BuildsAgree(a: Build, b: Build, timeframes: seq<Timeframe>, requested: nat, instant: int) {
    forall i | 0 <= i < |timeframes| ::
      AnswersAgree(a(i, timeframes[i], requested), b(i, timeframes[i], requested), timeframes[i], instant)
  }

  /** Fetch records alike but for how many bars came in. */
  predicate FetchesAgree(a: seq<TimeframeFetch>, b: seq<TimeframeFetch>) {
    |a| == |b| && forall i | 0 <= i < |a| :: a[i].(received := 0) == b[i].(received := 0)
  }

  predicate GatheredAgree(p: Gathered, q: Gathered) {
    p.market == q.market && p.parts == q.parts && FetchesAgree(p.fetches, q.fetches)
  }

  lemma AdvanceAgrees(p: Gathered, q: Gathered, timeframe: Timeframe, a: Answer, b: Answer, requested: nat, instant: int)
    requires GatheredAgree(p, q) && AnswersAgree(a, b, timeframe, instant)
    ensures var x, y := Advance(p, timeframe, a, requested, instant), Advance(q, timeframe, b, requested, instant);
            if x.Ok? then y.Ok? && GatheredAgree(x.value, y.value) else x == y
  {
    if a.Series? {
      BuildSeesOnlyThePast(timeframe, a.bars, b.bars, instant);
      hide BuildTimeframeSnapshot, FetchesAgree;
      var part := BuildTimeframeSnapshot(timeframe, a.bars, instant);
      if part.Ok? {
        OneMoreFetch(p.fetches, q.fetches, FetchRecord(a, part.value, requested), FetchRecord(b, part.value, requested));
      }
    }
  }

  lemma OneMoreFetch(p: seq<TimeframeFetch>, q: seq<TimeframeFetch>, f: TimeframeFetch, g: TimeframeFetch)
    requires FetchesAgree(p, q) && f.(received := 0) == g.(received := 0)
    ensures FetchesAgree(p + [f], q + [g])
  {
  }

  lemma {:induction false} LoopAgrees(p: Gathered, q: Gathered, i: nat, timeframes: seq<Timeframe>,
                                      a: Build, b: Build, requested: nat, instant: int)
    requires i <= |timeframes| && GatheredAgree(p, q) && BuildsAgree(a, b, timeframes, requested, instant)
    ensures var x := AdvanceFrom(p, i, timeframes, a, requested, instant);
            var y := AdvanceFrom(q, i, timeframes, b, requested, instant);
            if x.Ok? then y.Ok? && GatheredAgree(x.value, y.value) else x == y
    decreases |timeframes| - i
  {
    if i < |timeframes| {
      hide Advance;
      var x := Advance(p, timeframes[i], a(i, timeframes[i], requested), requested, instant);
      var y := Advance(q, timeframes[i], b(i, timeframes[i], requested), requested, instant);
      AdvanceAgrees(p, q, timeframes[i], a(i, timeframes[i], requested), b(i, timeframes[i], requested), requested, instant);
      if x.Ok? {
        LoopAgrees(x.value, y.value, i + 1, timeframes, a, b, requested, instant);
      }
    }
  }

  /** No look-ahead: if each fetched series is changed, shortened or extended only
      in bars that close after the observation, the observation is the same - the
      same snapshot or the same error - but for the count of bars received. */
  lemma NoLookAhead(timeframes: seq<Timeframe>, a: Build, b: Build, requested: nat, providerSymbol: string, instant: int)
    requires timeframes != [] && BuildsAgree(a, b, timeframes, requested, instant)
    ensures var x := Observe(timeframes, a, requested, providerSymbol, instant);
            var y := Observe(timeframes, b, requested, providerSymbol, instant);
            if x.Ok? then y.Ok? && x.value.snapshot == y.value.snapshot && FetchesAgree(x.value.fetches, y.value.fetches)
            else x == y
  {
    LoopAgrees(NOTHING_YET, NOTHING_YET, 0, timeframes, a, b, requested, instant);
  }

  // ----- fetched through the closed-candle source ------------------------------------

  /** A candle of the streaming source, normalised. */
  function Normalised(bar: Candles.Bar): SeriesBar {
    SeriesBar(Candles.Opens(bar) * MICROS, bar.open, bar.high, bar.low, bar.close, bar.volume)
  }

  function NormalisedAll(bars: seq<Candles.Bar>): (r: seq<SeriesBar>)
    ensures |r| == |bars| && forall i | 0 <= i < |bars| :: r[i] == Normalised(bars[i])
  {
    seq(|bars|, i requires 0 <= i < |bars| => Normalised(bars[i]))
  }

  /** In order, what has closed by an instant is a prefix. */
  lemma {:induction false} KeepIsPrefix(bars: seq<SeriesBar>, span: int, instant: int)
    requires NeighboursAscend(bars)
    ensures var k := |KeepClosed(bars, span, instant)|;
            KeepClosed(bars, span, instant) == bars[..k]
            && forall i | 0 <= i < |bars| :: ClosedAt(bars[i], span, instant) <==> i < k
  {
    if bars != [] {
      KeepIsPrefix(bars[1..], span, instant);
      assert forall i | 1 <= i < |bars| :: bars[i] == bars[1..][i - 1];
      if !ClosedAt(bars[0], span, instant) {
        forall i | 0 <= i < |bars|
          ensures !ClosedAt(bars[i], span, instant)
        {
          AscendingThroughout(bars, 0, i);
        }
        assert KeepClosed(bars[1..], span, instant) == [];
      }
    }
  }

  /** Where a fetch really looks past the instant. Its own newest-`limit` window is
      taken at its own closing reading, so each candle that closed between the
      observation and that reading pushes one older candle out. What remains is
      exactly the newest `limit` minus that many closed by the instant, and the
      observation fails once `limit` candles have closed in between. */
  lemma LateFetchShortens(request: Candles.Request, timeframe: Timeframe, bars: seq<Candles.Bar>,
                          moment: int, later: int, instant: int)
    requires request.limit >= 1 && Duration(timeframe) == Some(request.duration)
    requires Candles.AllStamped(bars) && Candles.StrictlyAscending(bars) && instant <= moment
    requires Candles.Choose(request, bars, moment, later).Ok?
    ensures var selected := NormalisedAll(Candles.Choose(request, bars, moment, later).value.bars);
            var closed := |Candles.ClosedOnly(bars, request.duration, instant)|;
            var late := |Candles.ClosedOnly(bars, request.duration, moment)| - closed;
            var r := BuildTimeframeSnapshot(timeframe, selected, instant);
            0 <= late
            && if late < request.limit then
                 r.Ok? && closed + late - request.limit >= 0
                 && r.value.bars == NormalisedAll(bars[closed + late - request.limit..closed])
               else r == Err(NothingClosed)
  {
    hide Candles.Choose, Candles.Opens, Candles.Stamped, Candles.StrictlyAscending, BuildTimeframeSnapshot, NormalisedAll;
    var d := request.duration;
    Candles.ClosedIsPrefix(bars, d, instant);
    ClosedStaysClosed(bars, d, instant, moment);
    Candles.ChoiceIsNewestClosed(request, bars, moment, later);
    var k, c := |Candles.ClosedOnly(bars, d, instant)|, |Candles.ClosedOnly(bars, d, moment)|;
    WindowKeepsClosed(timeframe, bars, c - request.limit, c, k, instant);
  }

  lemma ClosedStaysClosed(bars: seq<Candles.Bar>, duration: nat, instant: int, moment: int)
    requires Candles.StrictlyAscending(bars) && instant <= moment
    ensures |Candles.ClosedOnly(bars, duration, instant)| <= |Candles.ClosedOnly(bars, duration, moment)|
  {
    hide Candles.Opens;
    Candles.ClosedIsPrefix(bars, duration, instant);
    Candles.ClosedIsPrefix(bars, duration, moment);
    var k := |Candles.ClosedOnly(bars, duration, instant)|;
    assert k > 0 ==> Candles.ClosedBy(bars[k - 1], duration, instant) && Candles.ClosedBy(bars[k - 1], duration, moment);
  }

  /** The window from `start` to `c` of a series whose first `k` candles have closed. */
  lemma WindowKeepsClosed(timeframe: Timeframe, bars: seq<Candles.Bar>, start: nat, c: nat, k: nat, instant: int)
    requires Duration(timeframe).Some? && Candles.StrictlyAscending(bars) && start < c <= |bars| && k <= c
    requires forall i | 0 <= i < |bars| :: Candles.ClosedBy(bars[i], Duration(timeframe).value, instant) <==> i < k
    ensures var r := BuildTimeframeSnapshot(timeframe, NormalisedAll(bars[start..c]), instant);
            if start < k then r.Ok? && r.value.bars == NormalisedAll(bars[start..k]) else r == Err(NothingClosed)
  {
    hide Candles.Opens, KeepClosed, ClosedAt;
    var window, span := NormalisedAll(bars[start..c]), Span(timeframe).value;
    forall i | 0 <= i < |window|
      ensures ClosedAt(window[i], span, instant) <==> start + i < k
    {
      ClosedEitherWay(bars[start + i], timeframe, instant);
    }
    KeptCount(window, span, instant, if start < k then k - start else 0);
    if start < k {
      assert window[..k - start] == NormalisedAll(bars[start..k]);
    }
  }

  lemma ClosedEitherWay(bar: Candles.Bar, timeframe: Timeframe, instant: int)
    requires Duration(timeframe).Some?
    ensures ClosedAt(Normalised(bar), Span(timeframe).value, instant)
       <==> Candles.ClosedBy(bar, Duration(timeframe).value, instant)
  {
    hide Candles.Opens;
  }

  lemma KeptCount(bars: seq<SeriesBar>, span: int, instant: int, n: nat)
    requires NeighboursAscend(bars) && n <= |bars|
    requires forall i | 0 <= i < |bars| :: ClosedAt(bars[i], span, instant) <==> i < n
    ensures KeepClosed(bars, span, instant) == bars[..n]
  {
    hide KeepClosed, ClosedAt;
    KeepIsPrefix(bars, span, instant);
    var k := |KeepClosed(bars, span, instant)|;
    assert k < |bars| ==> !ClosedAt(bars[k], span, instant);
    assert n < |bars| ==> !ClosedAt(bars[n], span, instant);
  }
}
