/** Several timeframes of one instrument, frozen at one instant. */
module Snapshots {
  import opened Options
  import opened Prices
  import opened Timeframes

  /** A normalised candle; `at` is its open time in microseconds, UTC. */
  datatype SeriesBar = SeriesBar(at: int, open: Number, high: Number, low: Number, close: Number, volume: Option<Number>)

  datatype TimeframeSnapshot = TimeframeSnapshot(
    timeframe: Timeframe, bars: seq<SeriesBar>, firstClosedAt: int, latestClosedAt: int, barCount: nat)

  datatype MarketSnapshot = MarketSnapshot(
    observedAt: int, symbol: string, provider: string, providerSymbol: string, timeframes: seq<TimeframeSnapshot>)

  datatype Refusal = NoFixedDuration | NothingClosed | NotAscending | RepeatedTimeframe | ClosesLater | NoTimeframes

  function Span(timeframe: Timeframe): Option<int> {
    match Duration(timeframe)
    case Some(seconds) => Some(seconds * MICROS)
    case None => None
  }

  predicate ClosedAt(bar: SeriesBar, span: int, instant: int) {
    bar.at + span <= instant
  }

  /** The bars that had closed by an instant, in their order, unchanged. */
  function KeepClosed(bars: seq<SeriesBar>, span: int, instant: int): (kept: seq<SeriesBar>)
    ensures |kept| <= |bars|
  {
    if bars == [] then []
    else (if ClosedAt(bars[0], span, instant) then [bars[0]] else []) + KeepClosed(bars[1..], span, instant)
  }

  /** Neighbours ascend strictly: what the series validator compares. */
  predicate NeighboursAscend(bars: seq<SeriesBar>) {
    forall i | 0 < i < |bars| :: bars[i - 1].at < bars[i].at
  }

  /** The validator of one timeframe's snapshot. */
  predicate WellFormed(s: TimeframeSnapshot) {
    && s.bars != []
    && NeighboursAscend(s.bars)
    && s.barCount == |s.bars|
    && Span(s.timeframe).Some?
    && s.firstClosedAt == s.bars[0].at + Span(s.timeframe).value
    && s.latestClosedAt == s.bars[|s.bars| - 1].at + Span(s.timeframe).value
  }

  function BuildTimeframeSnapshot(timeframe: Timeframe, bars: seq<SeriesBar>, observedAt: int)
    : (r: Result<TimeframeSnapshot, Refusal>)
    ensures r.Ok? ==> WellFormed(r.value)
  {
    match Span(timeframe)
    case None => Err(NoFixedDuration)
    case Some(span) =>
      var closed := KeepClosed(bars, span, observedAt);
      if closed == [] then Err(NothingClosed)
      else if !NeighboursAscend(closed) then Err(NotAscending)
      else Ok(TimeframeSnapshot(timeframe, closed, closed[0].at + span, closed[|closed| - 1].at + span, |closed|))
  }

  predicate TimeframesDistinct(parts: seq<TimeframeSnapshot>) {
    forall i, j | 0 <= i < j < |parts| :: parts[i].timeframe != parts[j].timeframe
  }

  /** The validator of the whole snapshot: it looks only at each newest close. */
  predicate OneInstant(s: MarketSnapshot) {
    && s.timeframes != []
    && TimeframesDistinct(s.timeframes)
    && forall i | 0 <= i < |s.timeframes| :: s.timeframes[i].latestClosedAt <= s.observedAt
  }

  function BuildMarketSnapshot(s: MarketSnapshot): Result<MarketSnapshot, Refusal> {
    if s.timeframes == [] then Err(NoTimeframes)
    else if !TimeframesDistinct(s.timeframes) then Err(RepeatedTimeframe)
    else if !OneInstant(s) then Err(ClosesLater)
    else Ok(s)
  }

  // ----- nothing later is inside ------------------------------------------------

  lemma {:induction false} AscendingThroughout(bars: seq<SeriesBar>, i: nat, j: nat)
    requires NeighboursAscend(bars) && i <= j < |bars|
    ensures bars[i].at <= bars[j].at && (i < j ==> bars[i].at < bars[j].at)
    decreases j - i
  {
    if i < j {
      AscendingThroughout(bars, i, j - 1);
    }
  }

  /** Two checks at the ends prove every bar: whatever passes the validators holds
      no bar that closes after the observation, in any timeframe. */
  lemma ValidatedHoldsOnlyClosed(s: MarketSnapshot)
    requires OneInstant(s) && forall i | 0 <= i < |s.timeframes| :: WellFormed(s.timeframes[i])
    ensures forall part, bar | part in s.timeframes && bar in part.bars ::
              Span(part.timeframe).Some? && ClosedAt(bar, Span(part.timeframe).value, s.observedAt)
  {
    forall part, bar | part in s.timeframes && bar in part.bars
      ensures Span(part.timeframe).Some? && ClosedAt(bar, Span(part.timeframe).value, s.observedAt)
    {
      var i :| 0 <= i < |part.bars| && part.bars[i] == bar;
      AscendingThroughout(part.bars, i, |part.bars| - 1);
    }
  }

  /** Keeping what closed by `t1` and then by an earlier `t2` keeps what closed by `t2`. */
  lemma {:induction false} FilterComposes(bars: seq<SeriesBar>, span: int, t1: int, t2: int)
    requires t2 <= t1
    ensures KeepClosed(KeepClosed(bars, span, t1), span, t2) == KeepClosed(bars, span, t2)
  {
    if bars != [] {
      var rest := KeepClosed(bars[1..], span, t1);
      FilterComposes(bars[1..], span, t1, t2);
      if ClosedAt(bars[0], span, t1) {
        assert ([bars[0]] + rest)[1..] == rest;
      } else {
        assert [] + rest == rest;
      }
    }
  }

  /** A snapshot rebuilt at the same or an earlier instant is the snapshot taken
      directly at that instant. */
  lemma RebuildEqualsDirect(timeframe: Timeframe, bars: seq<SeriesBar>, t1: int, t2: int)
    requires t2 <= t1 && BuildTimeframeSnapshot(timeframe, bars, t1).Ok?
    ensures BuildTimeframeSnapshot(timeframe, BuildTimeframeSnapshot(timeframe, bars, t1).value.bars, t2)
         == BuildTimeframeSnapshot(timeframe, bars, t2)
  {
    hide BuildTimeframeSnapshot, Span;
    var built := BuildTimeframeSnapshot(timeframe, bars, t1).value.bars;
    BuiltBars(timeframe, bars, t1);
    FilterComposes(bars, Span(timeframe).value, t1, t2);
    BuildSeesOnlyThePast(timeframe, built, bars, t2);
  }

  lemma BuiltBars(timeframe: Timeframe, bars: seq<SeriesBar>, instant: int)
    requires BuildTimeframeSnapshot(timeframe, bars, instant).Ok?
    ensures Span(timeframe).Some?
    ensures BuildTimeframeSnapshot(timeframe, bars, instant).value.bars == KeepClosed(bars, Span(timeframe).value, instant)
  {
  }

  /** The two series carry the same bars, as far as `instant` can tell. */
  predicate SameUpTo(a: seq<SeriesBar>, b: seq<SeriesBar>, timeframe: Timeframe, instant: int) {
    Span(timeframe).Some? ==> KeepClosed(a, Span(timeframe).value, instant) == KeepClosed(b, Span(timeframe).value, instant)
  }

  lemma BuildSeesOnlyThePast(timeframe: Timeframe, a: seq<SeriesBar>, b: seq<SeriesBar>, instant: int)
    requires SameUpTo(a, b, timeframe, instant)
    ensures BuildTimeframeSnapshot(timeframe, a, instant) == BuildTimeframeSnapshot(timeframe, b, instant)
  {
  }

  lemma {:induction false} KeepInTwoParts(a: seq<SeriesBar>, b: seq<SeriesBar>, span: int, instant: int)
    ensures KeepClosed(a + b, span, instant) == KeepClosed(a, span, instant) + KeepClosed(b, span, instant)
  {
    if a == [] {
      assert a + b == b;
    } else {
      assert (a + b)[1..] == a[1..] + b;
      KeepInTwoParts(a[1..], b, span, instant);
      var head := if ClosedAt(a[0], span, instant) then [a[0]] else [];
      var x, y := KeepClosed(a[1..], span, instant), KeepClosed(b, span, instant);
      assert KeepClosed(a + b, span, instant) == head + (x + y);
      assert head + (x + y) == head + x + y;
    }
  }

  /** Bars that close after the instant may be inserted anywhere, or replaced by
      others that do, without changing anything up to it. */
  lemma {:induction false} LaterBarsDoNotMatter(
      a: seq<SeriesBar>, x: seq<SeriesBar>, y: seq<SeriesBar>, b: seq<SeriesBar>, timeframe: Timeframe, instant: int)
    requires Span(timeframe).Some?
    requires forall bar | bar in x || bar in y :: !ClosedAt(bar, Span(timeframe).value, instant)
    ensures SameUpTo(a + x + b, a + y + b, timeframe, instant)
  {
    var span := Span(timeframe).value;
    KeepInTwoParts(a + x, b, span, instant);
    KeepInTwoParts(a, x, span, instant);
    KeepInTwoParts(a + y, b, span, instant);
    KeepInTwoParts(a, y, span, instant);
    NoneClosed(x, span, instant);
    NoneClosed(y, span, instant);
  }

  lemma {:induction false} NoneClosed(bars: seq<SeriesBar>, span: int, instant: int)
    requires forall bar | bar in bars :: !ClosedAt(bar, span, instant)
    ensures KeepClosed(bars, span, instant) == []
  {
    if bars != [] {
      NoneClosed(bars[1..], span, instant);
    }
  }

  // ----- what is kept ---------------------------------------------------------------

  /** What closed by an instant, told from the bar and the duration in seconds. */
  predicate HadClosed(bar: SeriesBar, duration: nat, instant: int) {
    bar.at + duration * 1_000_000 <= instant
  }

  /** The bars of a series that had closed ascend, whatever stands between them. */
  predicate ClosedAscend(bars: seq<SeriesBar>, duration: nat, instant: int) {
    forall i, j | 0 <= i < j < |bars| && HadClosed(bars[i], duration, instant) && HadClosed(bars[j], duration, instant) ::
      bars[i].at < bars[j].at
  }

  predicate SomeClosed(bars: seq<SeriesBar>, duration: nat, instant: int) {
    exists bar | bar in bars :: HadClosed(bar, duration, instant)
  }

  /** Filtering keeps exactly the bars that had closed. */
  lemma {:induction false} KeptExactly(bars: seq<SeriesBar>, duration: nat, instant: int)
    ensures var kept := KeepClosed(bars, duration * MICROS, instant);
            (forall bar :: bar in kept <==> bar in bars && HadClosed(bar, duration, instant))
            && (kept == [] <==> !SomeClosed(bars, duration, instant))
  {
    if bars != [] {
      KeptExactly(bars[1..], duration, instant);
      var kept := KeepClosed(bars, duration * MICROS, instant);
      forall bar
        ensures bar in kept <==> bar in bars && HadClosed(bar, duration, instant)
      {
      }
      if kept != [] {
        assert kept[0] in kept;
      }
    }
  }

  /** And what is kept ascends exactly when the closed bars do. */
  lemma {:induction false} KeptAscend(bars: seq<SeriesBar>, duration: nat, instant: int)
    ensures NeighboursAscend(KeepClosed(bars, duration * MICROS, instant)) <==> ClosedAscend(bars, duration, instant)
  {
    if bars != [] {
      var rest := KeepClosed(bars[1..], duration * MICROS, instant);
      KeptAscend(bars[1..], duration, instant);
      KeptExactly(bars[1..], duration, instant);
      ClosedAscendStep(bars, duration, instant);
      if HadClosed(bars[0], duration, instant) {
        AscendBehind(bars[0], rest);
      } else {
        assert [] + rest == rest;
      }
    }
  }

  lemma ClosedAscendStep(bars: seq<SeriesBar>, duration: nat, instant: int)
    requires bars != []
    ensures ClosedAscend(bars, duration, instant)
       <==> ClosedAscend(bars[1..], duration, instant)
            && (HadClosed(bars[0], duration, instant)
                ==> forall bar | bar in bars[1..] && HadClosed(bar, duration, instant) :: bars[0].at < bar.at)
  {
    hide HadClosed;
    var rest := bars[1..];
    assert forall i | 0 < i < |bars| :: bars[i] == rest[i - 1];
    if ClosedAscend(bars, duration, instant) {
      forall i, j | 0 <= i < j < |rest| && HadClosed(rest[i], duration, instant) && HadClosed(rest[j], duration, instant)
        ensures rest[i].at < rest[j].at
      {
        assert bars[i + 1].at < bars[j + 1].at;
      }
    }
  }

  lemma AscendBehind(first: SeriesBar, rest: seq<SeriesBar>)
    ensures NeighboursAscend([first] + rest) <==> NeighboursAscend(rest) && forall bar | bar in rest :: first.at < bar.at
  {
    var all := [first] + rest;
    assert forall i | 0 <= i < |rest| :: all[i + 1] == rest[i];
    if NeighboursAscend(all) {
      forall i | 0 <= i < |rest|
        ensures first.at < rest[i].at
      {
        AscendingThroughout(all, 0, i + 1);
      }
      forall i | 0 < i < |rest|
        ensures rest[i - 1].at < rest[i].at
      {
        assert all[i].at < all[i + 1].at;
      }
    }
    if NeighboursAscend(rest) && forall bar | bar in rest :: first.at < bar.at {
      forall i | 0 < i < |all|
        ensures all[i - 1].at < all[i].at
      {
        assert i == 1 ==> all[1] in rest;
        assert i > 1 ==> rest[i - 2].at < rest[i - 1].at;
      }
    }
  }

  /** A snapshot is built exactly from a timeframe of fixed duration and a series of
      which some bars had closed, and those ascend. It then holds those bars and no
      others, in ascending order; and what is refused is refused for the first of
      these that fails. */
  lemma BuiltExactly(timeframe: Timeframe, bars: seq<SeriesBar>, instant: int)
    ensures var r := BuildTimeframeSnapshot(timeframe, bars, instant);
            && (r == Err(NoFixedDuration) <==> Duration(timeframe).None?)
            && (Duration(timeframe).Some? ==>
                  var d := Duration(timeframe).value;
                  && (r == Err(NothingClosed) <==> !SomeClosed(bars, d, instant))
                  && (r == Err(NotAscending) <==> SomeClosed(bars, d, instant) && !ClosedAscend(bars, d, instant))
                  && (r.Ok? <==> SomeClosed(bars, d, instant) && ClosedAscend(bars, d, instant))
                  && (r.Ok? ==> HoldsClosed(r.value, timeframe, bars, d, instant)))
  {
    hide KeepClosed, Duration;
    if Duration(timeframe).Some? {
      KeptExactly(bars, Duration(timeframe).value, instant);
      KeptAscend(bars, Duration(timeframe).value, instant);
    }
  }

  ghost predicate HoldsClosed(s: TimeframeSnapshot, timeframe: Timeframe, bars: seq<SeriesBar>, duration: nat, instant: int) {
    && s.timeframe == timeframe && s.bars != [] && NeighboursAscend(s.bars)
    && (forall bar :: bar in s.bars <==> bar in bars && HadClosed(bar, duration, instant))
    && s.barCount == |s.bars|
    && s.firstClosedAt == s.bars[0].at + duration * 1_000_000
    && s.latestClosedAt == s.bars[|s.bars| - 1].at + duration * 1_000_000
  }
}
