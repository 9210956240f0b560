/** The streaming market-data source: one fetch, and the retrying, caching load. */
module MarketSource {
  import opened Options
  import opened Failures
  import opened Messages
  import opened WireCodec
  import opened Session
  import opened Packets
  import opened Candles

  // ----- sockets ---------------------------------------------------------------

  /** What one attempt to open the socket meets. */
  datatype Opening = LibraryMissing | CannotConnect | Connects(script: nat -> Arrival, refuses: nat -> bool)

  /** Opens sockets and remembers them. Call number i meets `openings(i)`. */
  class Connector {
    const openings: nat -> Opening
    var calls: nat
    var connections: seq<Connection>

    constructor (openings: nat -> Opening)
      ensures this.openings == openings && calls == 0 && connections == []
    {
      this.openings, calls, connections := openings, 0, [];
    }

    method Open() returns (r: Result<Connection, Failure>)
      modifies this
      ensures calls == old(calls) + 1
      ensures match openings(old(calls))
              case LibraryMissing => r == Err(NotInstalled) && connections == old(connections)
              case CannotConnect => r == Err(ConnectionFailed) && connections == old(connections)
              case Connects(script, refuses) =>
                r.Ok? && fresh(r.value) && connections == old(connections) + [r.value]
                && r.value.script == script && r.value.refuses == refuses
                && r.value.received == 0 && r.value.sent == [] && r.value.closed == 0
    {
      var opening := openings(calls);
      calls := calls + 1;
      match opening
      case LibraryMissing => r := Err(NotInstalled);
      case CannotConnect => r := Err(ConnectionFailed);
      case Connects(script, refuses) =>
        var connection := new Connection(script, refuses);
        connections := connections + [connection];
        r := Ok(connection);
    }
  }

  /** How many of the first `calls` attempts to open a socket get one. */
  function Connected(openings: nat -> Opening, calls: nat): nat {
    if calls == 0 then 0 else Connected(openings, calls - 1) + if openings(calls - 1).Connects? then 1 else 0
  }

  // ----- what one fetch computes -----------------------------------------------

  /** Everything fixed when the source is built. `handshake` is the payloads of
      the opening commands, in the order they are sent. */
  datatype Settings = Settings(request: Request, reader: Reader, handshake: seq<string>, timeout: nat, maxRetries: int) {
    predicate Valid() {
      request.limit >= 1
    }

    function Attempts(): nat {
      if maxRetries < 0 then 1 else maxRetries + 1
    }
  }

  /** Send the commands until one fails; the frames recorded, and whether all went. */
  function Handshake(refuses: nat -> bool, sent: seq<string>, commands: seq<string>): (bool, seq<string>)
    decreases |commands|
  {
    if commands == [] then (true, sent)
    else
      var after := sent + [EncodeFrame(commands[0])];
      if refuses(|sent|) then (false, after) else Handshake(refuses, after, commands[1..])
  }

  /** Clocks, and where in their readings a fetch starts. */
  datatype Clocks = Clocks(now: nat -> int, n: nat, monotonic: nat -> int, m: nat)

  function FeedOf(settings: Settings, opening: Opening, clocks: Clocks): Feed
    requires opening.Connects?
  {
    var deadline := clocks.monotonic(clocks.m) + settings.timeout;
    Feed(opening.script, opening.refuses, (i: nat) => clocks.monotonic(clocks.m + 1 + i) > deadline)
  }

  /** The result of one fetch, socket to candles. */
  ghost function FetchOutcome(settings: Settings, opening: Opening, clocks: Clocks): Result<Loaded, Failure>
    requires settings.Valid()
  {
    match opening
    case LibraryMissing => Err(NotInstalled)
    case CannotConnect => Err(ConnectionFailed)
    case Connects(_, refuses) =>
      var (ready, sent) := Handshake(refuses, [], settings.handshake);
      if !ready then Err(ConnectionFailed)
      else
        match ReadFrom(settings.reader, FeedOf(settings, opening, clocks), 0, "", Progress([], NO_STATS, sent))
        case Completed(p) => Assess(settings.request, p.table, clocks.now, clocks.n + 2)
        case Failed(failure, _) => Err(failure)
  }

  /** A completed reading: the rows decide. */
  lemma FetchWhenRead(settings: Settings, opening: Opening, clocks: Clocks)
    requires settings.Valid() && opening.Connects?
    requires Handshake(opening.refuses, [], settings.handshake).0
    requires ReadFrom(settings.reader, FeedOf(settings, opening, clocks), 0, "",
                      Progress([], NO_STATS, Handshake(opening.refuses, [], settings.handshake).1)).Completed?
    ensures FetchOutcome(settings, opening, clocks)
         == Assess(settings.request,
                   ReadFrom(settings.reader, FeedOf(settings, opening, clocks), 0, "",
                            Progress([], NO_STATS, Handshake(opening.refuses, [], settings.handshake).1)).progress.table,
                   clocks.now, clocks.n + 2)
  {
    hide Handshake, ReadFrom, FeedOf, Assess;
  }

  // ----- what a run of attempts may look like ----------------------------------

  predicate TransportFailure(r: Result<Loaded, Failure>) {
    r.Err? && r.error in {ConnectionFailed, TimedOut}
  }

  /** The attempts of one load: at most `limit`, each before the last a transport
      failure, the last one deciding, and no early stop on a transport failure. */
  predicate LegalRun(results: seq<Result<Loaded, Failure>>, limit: nat, final: Result<Loaded, Failure>) {
    && 1 <= |results| <= limit
    && (forall i | 0 <= i < |results| - 1 :: TransportFailure(results[i]))
    && results[|results| - 1] == final
    && (TransportFailure(final) ==> |results| == limit)
  }

  /** Over one sequence of outcomes only one run is legal. */
  lemma LegalRunIsUnique(outcomes: nat -> Result<Loaded, Failure>, limit: nat,
                         a: seq<Result<Loaded, Failure>>, b: seq<Result<Loaded, Failure>>)
    requires forall i | 0 <= i < |a| :: a[i] == outcomes(i)
    requires forall i | 0 <= i < |b| :: b[i] == outcomes(i)
    requires a != [] && b != []
    requires LegalRun(a, limit, a[|a| - 1]) && LegalRun(b, limit, b[|b| - 1])
    ensures a == b
  {
    assert forall i | 0 <= i < |a| - 1 :: TransportFailure(outcomes(i));
    assert forall i | 0 <= i < |b| - 1 :: TransportFailure(outcomes(i));
  }

  // ----- the source ------------------------------------------------------------

  class StreamingSource {
    const settings: Settings
    const connector: Connector
    const now: Clock
    const monotonic: Clock
    var cached: Option<Loaded>
    /** Every fetch of this source so far, in order. */
    ghost var log: seq<Result<Loaded, Failure>>

    /** Each socket on the connector's list has been closed exactly once. */
    ghost predicate AllClosedOnce()
      reads this, connector, connector.connections
    {
      forall i | 0 <= i < |connector.connections| :: connector.connections[i].closed == 1
    }

    /** Sockets are conserved: there is one for every call that met an open door,
        and each has been closed exactly once. And each fetch logged is what its
        opening and its clock readings determine. */
    ghost predicate Valid()
      reads this, connector, connector.connections, now, monotonic
    {
      && settings.Valid() && now != monotonic
      && AllClosedOnce()
      && |connector.connections| == Connected(connector.openings, connector.calls)
      && |log| == connector.calls
      && (forall i | 0 <= i < |log| :: Genuine(i, log[i]))
      && (forall i | 0 <= i < |log| - 1 :: log[i].Err?)
      && (if log != [] && log[|log| - 1].Ok? then cached == Some(log[|log| - 1].value) else cached == None)
    }

    ghost predicate Genuine(i: nat, result: Result<Loaded, Failure>)
      requires settings.Valid()
    {
      exists n: nat, m: nat ::
        result == FetchOutcome(settings, connector.openings(i), Clocks(now.readings, n, monotonic.readings, m))
    }

    lemma FetchIsGenuine(i: nat, result: Result<Loaded, Failure>, n: nat, m: nat)
      requires settings.Valid()
      requires result == FetchOutcome(settings, connector.openings(i), Clocks(now.readings, n, monotonic.readings, m))
      ensures Genuine(i, result)
    {
    }

    constructor (settings: Settings, connector: Connector, now: Clock, monotonic: Clock)
      requires settings.Valid() && now != monotonic && connector.calls == 0 && connector.connections == []
      ensures Valid() && cached == None && log == []
      ensures this.settings == settings && this.connector == connector
      ensures this.now == now && this.monotonic == monotonic
    {
      this.settings, this.connector, this.now, this.monotonic := settings, connector, now, monotonic;
      cached, log := None, [];
    }

    /** Authorise, open the session, pin the timezone, resolve, request. */
    method OpenSeries(connection: Connection) returns (ready: bool)
      modifies connection`sent
      ensures (ready, connection.sent) == Handshake(connection.refuses, old(connection.sent), settings.handshake)
    {
      var i := 0;
      assert settings.handshake[0..] == settings.handshake;
      while i < |settings.handshake|
        invariant 0 <= i <= |settings.handshake|
        invariant Handshake(connection.refuses, connection.sent, settings.handshake[i..])
               == Handshake(connection.refuses, old(connection.sent), settings.handshake)
      {
        assert settings.handshake[i..][1..] == settings.handshake[i + 1..];
        var ok := connection.Send(EncodeFrame(settings.handshake[i]));
        if !ok {
          return false;
        }
        i := i + 1;
      }
      return true;
    }

    /** Every row in turn, read at its own reading of the clock. */
    method ConvertRows(rows: seq<BarRow>) returns (r: Result<seq<Bar>, Failure>)
      modifies now
      ensures r == ToBars(rows, now.readings, old(now.used))
      ensures r.Ok? ==> now.used == old(now.used) + |rows|
    {
      hide CandleAt, UsableSecond, ToBars;
      var bars: seq<Bar>, i := [], 0;
      assert rows[0..] == rows;
      BehindNothing(ToBars(rows, now.readings, now.used));
      while i < |rows|
        invariant 0 <= i <= |rows| && now.used == old(now.used) + i
        invariant ToBars(rows, now.readings, old(now.used))
               == Behind(bars, ToBars(rows[i..], now.readings, old(now.used) + i))
      {
        OneMoreRow(rows, now.readings, old(now.used), i);
        var second := UsableSecond(rows[i][0]);
        if second.Err? {
          return Err(second.error);
        }
        var moment := now.Read();
        if second.value * Timeframes.MICROS > moment + MAX_SKEW {
          return Err(CandleFault);
        }
        var bar := CandleAt(second.value, rows[i]);
        if bar.Err? {
          return Err(bar.error);
        }
        BehindTwice(bars, bar.value, ToBars(rows[i + 1..], now.readings, old(now.used) + i + 1));
        bars := bars + [bar.value];
        i := i + 1;
      }
      assert bars + [] == bars && rows[i..] == [];
      NoRows(now.readings, old(now.used) + i);
      r := Ok(bars);
    }

    /** Convert, then sort; two candles with one timestamp are refused. */
    method NormaliseRows(rows: seq<BarRow>) returns (r: Result<seq<Bar>, Failure>)
      modifies now
      ensures r == Normalise(rows, now.readings, old(now.used))
      ensures r.Ok? ==> now.used == old(now.used) + |rows|
    {
      hide ToBars, SortByStamp, DistinctStamps;
      var bars := ConvertRows(rows);
      if bars.Err? {
        return Err(bars.error);
      }
      var sorted := SortByStamp(bars.value);
      r := if DistinctStamps(sorted) then Ok(sorted) else Err(CandleFault);
    }

    /** Ask for the series over an open socket and read the answer. */
    method Converse(connection: Connection, deadline: int) returns (r: Result<(seq<BarRow>, Stats), Failure>)
      requires connection.received == 0
      modifies connection`received, connection`sent, monotonic
      ensures var (ready, sent) := Handshake(connection.refuses, old(connection.sent), settings.handshake);
              var first := old(monotonic.used);
              var feed := Feed(connection.script, connection.refuses, (i: nat) => monotonic.readings(first + i) > deadline);
              if !ready then r == Err(ConnectionFailed)
              else
                var o := ReadFrom(settings.reader, feed, 0, "", Progress([], NO_STATS, sent));
                r == if o.Completed? then Ok((o.progress.table, o.progress.stats)) else Err(o.failure)
    {
      hide Handshake, ReadFrom;
      var ready := OpenSeries(connection);
      if !ready {
        return Err(ConnectionFailed);
      }
      r := ReadSeries(settings.reader, connection, monotonic, deadline);
    }

    /** Rows to the newest closed candles, each decision at its own clock reading. */
    method SelectCandles(rows: seq<BarRow>) returns (r: Result<Loaded, Failure>)
      requires settings.Valid()
      modifies now
      ensures r == Assess(settings.request, rows, now.readings, old(now.used))
    {
      hide Normalise, IsStale, PositivePrices, ClosedOnly;
      var bars := NormaliseRows(rows);
      if bars.Err? {
        return Err(bars.error);
      }
      var moment := now.Read();
      var request := settings.request;
      var closed := ClosedOnly(bars.value, request.duration, moment);
      if |closed| < request.limit {
        return Err(TooFewBars);
      }
      var selected := closed[|closed| - request.limit..];
      if request.maxAge.Some? {
        var later := now.Read();
        if IsStale(selected[|selected| - 1], request.duration, request.maxAge.value, later) {
          return Err(StaleData);
        }
      }
      if !PositivePrices(selected) {
        return Err(PayloadRejected);
      }
      r := Ok(Loaded(selected, |bars.value|, |bars.value| - |closed|));
    }

    /** One attempt. The socket is closed on every path that opened it. */
    method Fetch() returns (r: Result<Loaded, Failure>)
      requires settings.Valid() && now != monotonic
      requires AllClosedOnce()
      modifies connector, now, monotonic
      ensures connector.calls == old(connector.calls) + 1
      ensures r == FetchOutcome(settings, connector.openings(old(connector.calls)),
                                Clocks(now.readings, old(now.used), monotonic.readings, old(monotonic.used)))
      ensures old(connector.connections) <= connector.connections
      ensures |connector.connections| - |old(connector.connections)|
           == if connector.openings(old(connector.calls)).Connects? then 1 else 0
      ensures AllClosedOnce()
    {
      hide Handshake, Assess, ReadFrom;
      var requestedAt := now.Read();
      var started := monotonic.Read();
      var deadline := started + settings.timeout;
      var socket := connector.Open();
      if socket.Err? {
        return Err(socket.error);
      }
      var read := Converse(socket.value, deadline);
      socket.value.Close();
      if read.Err? {
        return Err(read.error);
      }
      var retrievedAt := now.Read();
      r := SelectCandles(read.value.0);
    }

    /** One attempt, its result remembered if it succeeded. */
    method Attempt() returns (r: Result<Loaded, Failure>)
      requires Valid() && cached.None?
      modifies this, connector, now, monotonic
      ensures Valid() && log == old(log) + [r]
      ensures old(connector.connections) <= connector.connections
      ensures cached == if r.Ok? then Some(r.value) else None
    {
      hide FetchOutcome, Genuine;
      ghost var n, m := now.used, monotonic.used;
      r := Fetch();
      FetchIsGenuine(|log|, r, n, m);
      log := log + [r];
      if r.Ok? {
        cached := Some(r.value);
      }
    }

    /** The latest closed candles, fetched once. Only transport failures are
        retried, and only so often. */
    method Load() returns (r: Result<Loaded, Failure>)
      requires Valid()
      modifies this, connector, now, monotonic
      ensures Valid() && old(connector.connections) <= connector.connections
      ensures old(cached).Some? ==> r == Ok(old(cached).value) && log == old(log) && cached == old(cached)
      ensures old(cached).Some? ==> connector.calls == old(connector.calls) && connector.connections == old(connector.connections)
      ensures old(cached).None? ==> old(log) <= log && LegalRun(log[|old(log)|..], 1 + if settings.maxRetries > 0 then settings.maxRetries else 0, r)
      ensures old(cached).None? ==> cached == if r.Ok? then Some(r.value) else None
    {
      hide Valid;
      if cached.Some? {
        return Ok(cached.value);
      }
      var attempts := settings.Attempts();
      var attempt := 1;
      while true
        invariant 1 <= attempt <= attempts
        invariant Valid() && cached.None?
        invariant old(connector.connections) <= connector.connections
        invariant old(log) <= log && |log| == |old(log)| + attempt - 1
        invariant forall i | |old(log)| <= i < |log| :: TransportFailure(log[i])
        decreases attempts - attempt
      {
        r := Attempt();
        if r.Ok? || !IsTransport(r.error) || attempt == attempts {
          return;
        }
        attempt := attempt + 1;
      }
    }
  }

  /** Bars already made in front of the outcome for the rest. */
  function Behind(bars: seq<Bar>, rest: Result<seq<Bar>, Failure>): Result<seq<Bar>, Failure> {
    match rest
    case Ok(more) => Ok(bars + more)
    case Err(f) => Err(f)
  }

  lemma NoRows(now: nat -> int, first: nat)
    ensures ToBars([], now, first) == Ok([])
  {
  }

  lemma OneMoreRow(rows: seq<BarRow>, now: nat -> int, first: nat, i: nat)
    requires i < |rows|
    ensures ToBars(rows[i..], now, first + i) ==
              match ToBar(rows[i], now(first + i))
              case Err(f) => Err(f)
              case Ok(bar) => Behind([bar], ToBars(rows[i + 1..], now, first + i + 1))
  {
    assert rows[i..][1..] == rows[i + 1..];
  }

  lemma BehindNothing(rest: Result<seq<Bar>, Failure>)
    ensures Behind([], rest) == rest
  {
    if rest.Ok? {
      assert [] + rest.value == rest.value;
    }
  }

  lemma BehindTwice(bars: seq<Bar>, bar: Bar, rest: Result<seq<Bar>, Failure>)
    ensures Behind(bars, Behind([bar], rest)) == Behind(bars + [bar], rest)
  {
    if rest.Ok? {
      assert bars + ([bar] + rest.value) == bars + [bar] + rest.value;
    }
  }

  // ----- the fetch does not depend on packets ------------------------------------

  /** The socket delivers these packets, and each reading of the clock before one of
      them is within the timeout, counted from the start of the fetch. */
  predicate Arrives(settings: Settings, opening: Opening, clocks: Clocks, cut: seq<string>) {
    opening.Connects?
    && forall i | 0 <= i < |cut| ::
         cut[i] != "" && opening.script(i) == Text(cut[i])
         && clocks.monotonic(clocks.m + 1 + i) <= clocks.monotonic(clocks.m) + settings.timeout
  }

  lemma ArrivesInTime(settings: Settings, opening: Opening, clocks: Clocks, cut: seq<string>)
    requires Arrives(settings, opening, clocks, cut)
    ensures Delivers(FeedOf(settings, opening, clocks), 0, cut)
  {
  }

  /** However a well-framed conversation is cut into packets, the fetch gives the
      same candles or the same failure. */
  lemma FetchIgnoresPackets(settings: Settings, a: Opening, b: Opening, clocks: Clocks,
                            cut: seq<string>, cut': seq<string>, payloads: seq<string>)
    requires settings.Valid() && a.Connects? && b.Connects? && a.refuses == b.refuses
    requires Arrives(settings, a, clocks, cut) && Arrives(settings, b, clocks, cut')
    requires Join(cut) == Join(cut') && Decode(Join(cut)) == Decoded(payloads, "")
    requires |payloads| <= MAX_MESSAGES
    requires EndsAtLast(settings.reader, a.refuses,
                        Progress([], NO_STATS, Handshake(a.refuses, [], settings.handshake).1), payloads)
    ensures FetchOutcome(settings, a, clocks) == FetchOutcome(settings, b, clocks)
  {
    hide EndsAtLast, Delivers, Arrives, Decode, ReadFrom, Assess;
    ArrivesInTime(settings, a, clocks, cut);
    ArrivesInTime(settings, b, clocks, cut');
    var p := Progress([], NO_STATS, Handshake(a.refuses, [], settings.handshake).1);
    SameForEverySplit(settings.reader, FeedOf(settings, a, clocks), FeedOf(settings, b, clocks), p, cut, cut', payloads);
  }
}
