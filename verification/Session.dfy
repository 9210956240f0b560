/** One series request over a streaming socket: read packet by packet, echo
    heartbeats, collect rows by key, stop at the first `series_completed`. */
module Session {
  import opened Options
  import opened Failures
  import opened Messages
  import opened WireCodec

  /** How many payloads one fetch reads before giving up. */
  const MAX_MESSAGES: nat := 4000

  // ----- the environment -------------------------------------------------------

  /** What one receive yields. An empty text is a closed socket. */
  datatype Arrival = Text(text: string) | NotUtf8 | Broken

  /** A socket that answers receive number k with `script(k)` and fails send
      number n, after recording it, when `refuses(n)`. `received` counts the
      receives made, failing ones included. */
  class Connection {
    const script: nat -> Arrival
    const refuses: nat -> bool
    var received: nat
    var sent: seq<string>
    var closed: nat

    constructor (script: nat -> Arrival, refuses: nat -> bool)
      ensures this.script == script && this.refuses == refuses
      ensures received == 0 && sent == [] && closed == 0
    {
      this.script, this.refuses := script, refuses;
      received, sent, closed := 0, [], 0;
    }

    method Send(frame: string) returns (ok: bool)
      modifies this`sent
      ensures sent == old(sent) + [frame] && ok == !refuses(|old(sent)|)
    {
      ok := !refuses(|sent|);
      sent := sent + [frame];
    }

    method Recv() returns (arrival: Arrival)
      modifies this`received
      ensures received == old(received) + 1 && arrival == script(old(received))
    {
      arrival := script(received);
      received := received + 1;
    }

    method Close()
      modifies this`closed
      ensures closed == old(closed) + 1
    {
      closed := closed + 1;
    }
  }

  /** A clock whose n-th reading is `readings(n)`. */
  class Clock {
    const readings: nat -> int
    var used: nat

    constructor (readings: nat -> int)
      ensures this.readings == readings && used == 0
    {
      this.readings, used := readings, 0;
    }

    method Read() returns (now: int)
      modifies this
      ensures now == readings(old(used)) && used == old(used) + 1
    {
      now := readings(used);
      used := used + 1;
    }
  }

  // ----- one payload -----------------------------------------------------------

  /** The JSON reader and the handle of the requested series. */
  datatype Reader = Reader(parse: string -> Option<Json>, series: string)

  datatype Stats = Stats(messages: nat, heartbeats: nat, unparseable: nat)

  const NO_STATS := Stats(0, 0, 0)

  datatype Progress = Progress(table: seq<BarRow>, stats: Stats, sent: seq<string>)

  datatype Outcome =
    | Going(progress: Progress)
    | Completed(progress: Progress)
    | Failed(failure: Failure, progress: Progress)

  function Collect(table: seq<BarRow>, rows: seq<Row>): Result<seq<BarRow>, Failure>
    decreases |rows|
  {
    if rows == [] then Ok(table)
    else if |rows[0]| < MIN_BAR_FIELDS then Err(CandleFault)
    else if !Hashable(rows[0][0]) then Err(UnhashableKey)
    else Collect(Put(table, rows[0]), rows[1..])
  }

  /** What one payload does, with `buffered` the undecoded tail behind its packet. */
  function HandleOne(reader: Reader, refuses: nat -> bool, buffered: string, p: Progress, payload: string): (o: Outcome)
    ensures o.progress.stats.messages == p.stats.messages + 1
  {
    var message := Classify(reader.parse, payload);
    var q := p.(stats := p.stats.(messages := p.stats.messages + 1));
    match message.kind
    case Heartbeat =>
      var echoed := q.(sent := q.sent + [EncodeFrame(message.raw)]);
      if refuses(|q.sent|) then Failed(ConnectionFailed, echoed)
      else Going(echoed.(stats := echoed.stats.(heartbeats := echoed.stats.heartbeats + 1)))
    case Unparseable => Going(q.(stats := q.stats.(unparseable := q.stats.unparseable + 1)))
    case CriticalError => Failed(CriticalFault, q)
    case ProtocolError => Failed(ProtocolFault, q)
    case TimescaleUpdate => AfterRows(q, ExtractRows(message, reader.series))
    case DataUpdate => AfterRows(q, ExtractRows(message, reader.series))
    case SeriesCompleted => if buffered != "" then Failed(FramingFault, q) else Completed(q)
    case Other => Going(q)
  }

  function AfterRows(p: Progress, rows: seq<Row>): Outcome {
    match Collect(p.table, rows)
    case Ok(table) => Going(p.(table := table))
    case Err(failure) => Failed(failure, p)
  }

  /** The payloads of one packet in turn, up to the first that ends the reading. */
  function HandleAll(reader: Reader, refuses: nat -> bool, buffered: string, p: Progress, payloads: seq<string>)
    : (o: Outcome)
    ensures o.Going? ==> o.progress.stats.messages == p.stats.messages + |payloads|
    decreases |payloads|
  {
    if payloads == [] then Going(p)
    else
      match HandleOne(reader, refuses, buffered, p, payloads[0])
      case Going(q) => HandleAll(reader, refuses, buffered, q, payloads[1..])
      case ended => ended
  }

  // ----- the whole reading -----------------------------------------------------

  /** A socket's behaviour, and which clock readings are past the deadline. */
  datatype Feed = Feed(script: nat -> Arrival, refuses: nat -> bool, late: nat -> bool)

  function Budget(messages: nat): nat {
    if messages < MAX_MESSAGES then MAX_MESSAGES - messages else 0
  }

  /** What a reading has left to spend: a whole buffer for each payload it may
      still count, and the room left in the buffer it holds. */
  function Fuel(messages: nat, held: nat): nat
    requires held <= MAX_REMAINDER
  {
    Budget(messages) * (MAX_REMAINDER + 1) + (MAX_REMAINDER - held)
  }

  /** A receive that does not end the reading spends some of it: it counts a
      payload, or it lengthens a buffer that cannot outgrow one frame. */
  lemma ReceiveSpendsFuel(reader: Reader, refuses: nat -> bool, p: Progress, buffer: string, text: string)
    requires |buffer| <= MAX_REMAINDER && p.stats.messages < MAX_MESSAGES && text != ""
    requires Decode(buffer + text).Decoded?
    requires HandleAll(reader, refuses, Decode(buffer + text).remainder, p, Decode(buffer + text).payloads).Going?
    ensures var d := Decode(buffer + text);
            var q := HandleAll(reader, refuses, d.remainder, p, d.payloads).progress;
            |d.remainder| <= MAX_REMAINDER
            && Fuel(q.stats.messages, |d.remainder|) < Fuel(p.stats.messages, |buffer|)
  {
    hide Decode, HandleAll;
    var d := Decode(buffer + text);
    var before, after := Budget(p.stats.messages), Budget(p.stats.messages + |d.payloads|);
    if d.payloads != [] {
      SpendOne(after, before, MAX_REMAINDER + 1);
    }
  }

  lemma SpendOne(after: nat, before: nat, each: nat)
    requires after < before
    ensures after * each + each <= before * each
  {
    assert before * each == (after + 1) * each + (before - after - 1) * each;
    assert (before - after - 1) * each >= 0;
  }

  /** The reading from receive number `k` on. No clock is needed for it to end:
      every receive either counts a payload or lengthens a bounded buffer. */
  ghost function ReadFrom(reader: Reader, feed: Feed, k: nat, buffer: string, p: Progress): (o: Outcome)
    requires |buffer| <= MAX_REMAINDER
    ensures !o.Going?
    decreases Budget(p.stats.messages), MAX_REMAINDER + 1 - |buffer|
  {
    if p.stats.messages >= MAX_MESSAGES then Failed(ProtocolFault, p)
    else if feed.late(k) then Failed(TimedOut, p)
    else
      match feed.script(k)
      case Broken => Failed(if feed.late(k + 1) then TimedOut else ConnectionFailed, p)
      case NotUtf8 => Failed(FramingFault, p)
      case Text(text) =>
        if text == "" then Failed(ConnectionFailed, p)
        else
          match Decode(buffer + text)
          case Malformed(_) => Failed(FramingFault, p)
          case Decoded(payloads, tail) =>
            match HandleAll(reader, feed.refuses, tail, p, payloads)
            case Going(q) => ReadFrom(reader, feed, k + 1, tail, q)
            case ended => ended
  }

  /** One packet as text. */
  method ReceiveText(connection: Connection, clock: Clock, deadline: int) returns (r: Result<string, Failure>)
    modifies connection`received, clock
    ensures connection.received == old(connection.received) + 1
    ensures r == match connection.script(old(connection.received))
                 case Broken => Err(if clock.readings(old(clock.used)) > deadline then TimedOut else ConnectionFailed)
                 case NotUtf8 => Err(FramingFault)
                 case Text(text) => if text == "" then Err(ConnectionFailed) else Ok(text)
    ensures r.Ok? ==> clock.used == old(clock.used)
  {
    var arrival := connection.Recv();
    match arrival
    case Broken =>
      var now := clock.Read();
      r := Err(if now > deadline then TimedOut else ConnectionFailed);
    case NotUtf8 => r := Err(FramingFault);
    case Text(text) => r := if text == "" then Err(ConnectionFailed) else Ok(text);
  }

  /** The payload loop of one packet, updating the table and the counters. */
  method HandlePackets(reader: Reader, connection: Connection, buffered: string,
                       before: Progress, payloads: seq<string>)
    returns (o: Outcome)
    requires before.sent == connection.sent
    modifies connection`sent
    ensures o == HandleAll(reader, connection.refuses, buffered, before, payloads)
    ensures connection.sent == o.progress.sent
  {
    hide Classify, ExtractRows, Collect, EncodeFrame;
    ghost var whole := HandleAll(reader, connection.refuses, buffered, before, payloads);
    var table, stats, i := before.table, before.stats, 0;
    assert payloads[0..] == payloads;
    while i < |payloads|
      invariant 0 <= i <= |payloads|
      invariant HandleAll(reader, connection.refuses, buffered, Progress(table, stats, connection.sent), payloads[i..]) == whole
    {
      assert payloads[i..][1..] == payloads[i + 1..];
      stats := stats.(messages := stats.messages + 1);
      var message := Classify(reader.parse, payloads[i]);
      match message.kind {
        case Heartbeat =>
          var ok := connection.Send(EncodeFrame(message.raw));
          if !ok {
            return Failed(ConnectionFailed, Progress(table, stats, connection.sent));
          }
          stats := stats.(heartbeats := stats.heartbeats + 1);
        case Unparseable => stats := stats.(unparseable := stats.unparseable + 1);
        case CriticalError => return Failed(CriticalFault, Progress(table, stats, connection.sent));
        case ProtocolError => return Failed(ProtocolFault, Progress(table, stats, connection.sent));
        case TimescaleUpdate | DataUpdate =>
          var collected := Collect(table, ExtractRows(message, reader.series));
          if collected.Err? {
            return Failed(collected.error, Progress(table, stats, connection.sent));
          }
          table := collected.value;
        case SeriesCompleted =>
          var reached := Progress(table, stats, connection.sent);
          return if buffered != "" then Failed(FramingFault, reached) else Completed(reached);
        case Other =>
      }
      i := i + 1;
    }
    o := Going(Progress(table, stats, connection.sent));
  }

  /** What receive number `k` alone makes of the reading. */
  lemma ReadOnce(reader: Reader, feed: Feed, k: nat, buffer: string, p: Progress)
    requires |buffer| <= MAX_REMAINDER
    ensures var whole, arrival := ReadFrom(reader, feed, k, buffer, p), feed.script(k);
            if p.stats.messages >= MAX_MESSAGES then whole == Failed(ProtocolFault, p)
            else if feed.late(k) then whole == Failed(TimedOut, p)
            else if arrival.Broken? then whole == Failed(if feed.late(k + 1) then TimedOut else ConnectionFailed, p)
            else if arrival.NotUtf8? then whole == Failed(FramingFault, p)
            else if arrival.text == "" then whole == Failed(ConnectionFailed, p)
            else
              var d := Decode(buffer + arrival.text);
              if d.Malformed? then whole == Failed(FramingFault, p)
              else
                var o := HandleAll(reader, feed.refuses, d.remainder, p, d.payloads);
                whole == if o.Going? then ReadFrom(reader, feed, k + 1, d.remainder, o.progress) else o
  {
    hide Decode, HandleAll;
  }

  method ReadSeries(reader: Reader, connection: Connection, clock: Clock, deadline: int)
    returns (r: Result<(seq<BarRow>, Stats), Failure>)
    requires connection.received == 0
    modifies connection`received, connection`sent, clock
    ensures var first := old(clock.used);
            var feed := Feed(connection.script, connection.refuses, (i: nat) => clock.readings(first + i) > deadline);
            var o := ReadFrom(reader, feed, 0, "", Progress([], NO_STATS, old(connection.sent)));
            connection.sent == o.progress.sent
            && r == if o.Completed? then Ok((o.progress.table, o.progress.stats)) else Err(o.failure)
    ensures connection.received <= Fuel(0, 0) + 1
  {
    hide Decode, HandleAll, Fuel, Budget, ReadFrom;
    ghost var first := clock.used;
    ghost var feed := Feed(connection.script, connection.refuses, (i: nat) => clock.readings(first + i) > deadline);
    ghost var whole := ReadFrom(reader, feed, 0, "", Progress([], NO_STATS, connection.sent));
    var progress, buffer := Progress([], NO_STATS, connection.sent), "";
    while true
      invariant |buffer| <= MAX_REMAINDER
      invariant connection.received + Fuel(progress.stats.messages, |buffer|) <= Fuel(0, 0)
      invariant clock.used == first + connection.received
      invariant progress.sent == connection.sent
      invariant ReadFrom(reader, feed, connection.received, buffer, progress) == whole
      decreases Fuel(progress.stats.messages, |buffer|)
    {
      ReadOnce(reader, feed, connection.received, buffer, progress);
      if progress.stats.messages >= MAX_MESSAGES {
        return Err(ProtocolFault);
      }
      var now := clock.Read();
      if now > deadline {
        return Err(TimedOut);
      }
      var received := ReceiveText(connection, clock, deadline);
      if received.Err? {
        return Err(received.error);
      }
      var decoded := DecodeFrames(buffer + received.value);
      if decoded.Malformed? {
        return Err(FramingFault);
      }
      var o := HandlePackets(reader, connection, decoded.remainder, progress, decoded.payloads);
      if o.Completed? {
        return Ok((o.progress.table, o.progress.stats));
      }
      if o.Failed? {
        return Err(o.failure);
      }
      ReceiveSpendsFuel(reader, connection.refuses, progress, buffer, received.value);
      buffer, progress := decoded.remainder, o.progress;
    }
  }
}
