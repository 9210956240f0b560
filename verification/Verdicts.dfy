/** How a reading ends, told from what its payloads say: the payload that decides,
    the receive it comes in, and the clock. */
module Verdicts {
  import opened Options
  import opened Failures
  import opened Messages
  import opened WireCodec
  import opened Session
  import opened Packets
  import opened Escapes
  import opened MarketSource
  import opened Candles

  // ----- one payload -----------------------------------------------------------

  predicate IsHeartbeat(payload: string) {
    "~h~" <= payload
  }

  /** An update of either kind. */
  predicate SaysUpdate(reader: Reader, payload: string) {
    Says(reader.parse, payload, "timescale_update") || Says(reader.parse, payload, "du")
  }

  /** The rows it carries for the series. */
  function RowsSaid(reader: Reader, payload: string): seq<Row> {
    ExtractRows(Classify(reader.parse, payload), reader.series)
  }

  /** The first unusable row has too few fields. */
  ghost predicate HasShortRow(rows: seq<Row>) {
    exists i :: 0 <= i < |rows| && FirstUnusable(rows, i) && |rows[i]| < 5
  }

  /** The payload, read with so many frames sent before, ends the reading in this way. */
  ghost predicate FailsWith(reader: Reader, refuses: nat -> bool, tail: string, sent: nat, payload: string, failure: Failure) {
    match failure
    case ConnectionFailed => IsHeartbeat(payload) && refuses(sent)
    case CriticalFault => Says(reader.parse, payload, "critical_error")
    case ProtocolFault => Says(reader.parse, payload, "protocol_error")
    case CandleFault => SaysUpdate(reader, payload) && HasShortRow(RowsSaid(reader, payload))
    case UnhashableKey => SaysUpdate(reader, payload) && HasUnhashableKey(RowsSaid(reader, payload))
    case FramingFault => Says(reader.parse, payload, "series_completed") && tail != ""
    case _ => false
  }

  ghost predicate CompletesAt(reader: Reader, tail: string, payload: string) {
    Says(reader.parse, payload, "series_completed") && tail == ""
  }

  /** Nothing in the payload ends the reading. */
  ghost predicate GoesOn(reader: Reader, refuses: nat -> bool, sent: nat, payload: string) {
    && !(IsHeartbeat(payload) && refuses(sent))
    && !Says(reader.parse, payload, "critical_error")
    && !Says(reader.parse, payload, "protocol_error")
    && !Says(reader.parse, payload, "series_completed")
    && (SaysUpdate(reader, payload) ==> AllUsable(RowsSaid(reader, payload)))
  }

  /** Counted as unreadable: no heartbeat, and no name under its "m". */
  ghost predicate Unreadable(reader: Reader, payload: string) {
    !IsHeartbeat(payload) && forall name :: !Says(reader.parse, payload, name)
  }

  /** An unusable list of rows fails in one of two ways. */
  lemma UnusableRows(table: seq<BarRow>, rows: seq<Row>)
    ensures Collect(table, rows) == Err(CandleFault) <==> HasShortRow(rows)
    ensures Collect(table, rows) == Err(UnhashableKey) <==> HasUnhashableKey(rows)
    ensures Collect(table, rows).Ok? <==> AllUsable(rows)
  {
    CollectedRows(table, rows);
    UnhashableExactly(table, rows);
    if !AllUsable(rows) {
      var i := SomeFirstUnusable(rows);
      CollectFailsAt(table, rows, i);
      forall j | 0 <= j < |rows| && FirstUnusable(rows, j)
        ensures j == i
      {
        OneFirstUnusable(rows, i, j);
      }
    }
  }

  /** What each payload does, told from its text, the value it parses to, the frames
      sent before and the text behind its packet. */
  lemma PayloadVerdict(reader: Reader, refuses: nat -> bool, tail: string, p: Progress, payload: string)
    ensures var o := HandleOne(reader, refuses, tail, p, payload);
            && (forall failure :: (o.Failed? && o.failure == failure)
                                  <==> FailsWith(reader, refuses, tail, |p.sent|, payload, failure))
            && (o.Completed? <==> CompletesAt(reader, tail, payload))
            && (o.Going? <==> GoesOn(reader, refuses, |p.sent|, payload))
  {
    hide Classify, ExtractRows, Collect, Says, HasShortRow, HasUnhashableKey, AllUsable, EncodeFrame;
    KindExactly(reader.parse, payload);
    OneKind(reader, payload);
    UnusableRows(p.table, RowsSaid(reader, payload));
    CollectFailures(p.table, RowsSaid(reader, payload));
    CollectFailsInTwoWays(p.table, RowsSaid(reader, payload));
  }

  lemma {:induction false} CollectFailsInTwoWays(table: seq<BarRow>, rows: seq<Row>)
    ensures Collect(table, rows).Err? ==> Collect(table, rows).error in {CandleFault, UnhashableKey}
    decreases |rows|
  {
    if rows != [] && Usable(rows[0]) {
      CollectFailsInTwoWays(Put(table, rows[0]), rows[1..]);
    }
  }

  /** No payload says two things, and a heartbeat says nothing. */
  lemma OneKind(reader: Reader, payload: string)
    ensures forall a, b | Says(reader.parse, payload, a) && Says(reader.parse, payload, b) :: a == b
    ensures IsHeartbeat(payload) ==> forall name :: !Says(reader.parse, payload, name)
  {
  }

  /** Every payload is counted, and counted as unreadable or as a heartbeat exactly
      when it is; a heartbeat is echoed as it came, and nothing else is sent. */
  lemma PayloadCounts(reader: Reader, refuses: nat -> bool, tail: string, p: Progress, payload: string)
    ensures var q := HandleOne(reader, refuses, tail, p, payload).progress;
            && q.stats.messages == p.stats.messages + 1
            && q.stats.unparseable == p.stats.unparseable + (if Unreadable(reader, payload) then 1 else 0)
            && q.stats.heartbeats == p.stats.heartbeats + (if IsHeartbeat(payload) && !refuses(|p.sent|) then 1 else 0)
            && q.sent == p.sent + EchoOf(payload)
  {
    hide Classify, ExtractRows, Collect, Says, EncodeFrame;
    KindExactly(reader.parse, payload);
    assert p.sent + [] == p.sent;
  }

  // ----- one packet ------------------------------------------------------------

  /** So many of the payloads are heartbeats. */
  function Heartbeats(payloads: seq<string>): nat {
    if payloads == [] then 0 else (if IsHeartbeat(payloads[0]) then 1 else 0) + Heartbeats(payloads[1..])
  }

  /** None of the payloads ends the reading. */
  ghost predicate AllGoOn(reader: Reader, refuses: nat -> bool, sent: nat, payloads: seq<string>) {
    forall i | 0 <= i < |payloads| :: GoesOn(reader, refuses, sent + Heartbeats(payloads[..i]), payloads[i])
  }

  /** The payloads before the i-th go on, and that one fails in this way. */
  ghost predicate FailsAt(reader: Reader, refuses: nat -> bool, tail: string, sent: nat,
                          payloads: seq<string>, i: nat, failure: Failure)
    requires i < |payloads|
  {
    AllGoOn(reader, refuses, sent, payloads[..i])
    && FailsWith(reader, refuses, tail, sent + Heartbeats(payloads[..i]), payloads[i], failure)
  }

  ghost predicate SomeFails(reader: Reader, refuses: nat -> bool, tail: string, sent: nat,
                            payloads: seq<string>, failure: Failure) {
    exists i :: 0 <= i < |payloads| && FailsAt(reader, refuses, tail, sent, payloads, i, failure)
  }

  /** The payloads before the i-th go on, and that one completes. */
  ghost predicate CompletesIn(reader: Reader, refuses: nat -> bool, tail: string, sent: nat, payloads: seq<string>, i: nat)
    requires i < |payloads|
  {
    AllGoOn(reader, refuses, sent, payloads[..i]) && CompletesAt(reader, tail, payloads[i])
  }

  ghost predicate SomeCompletes(reader: Reader, refuses: nat -> bool, tail: string, sent: nat, payloads: seq<string>) {
    exists i :: 0 <= i < |payloads| && CompletesIn(reader, refuses, tail, sent, payloads, i)
  }

  lemma HeartbeatsStep(payloads: seq<string>, i: nat)
    requires 0 < i <= |payloads|
    ensures Heartbeats(payloads[..i]) == (if IsHeartbeat(payloads[0]) then 1 else 0) + Heartbeats(payloads[1..][..i - 1])
  {
    assert payloads[..i][0] == payloads[0] && payloads[..i][1..] == payloads[1..][..i - 1];
  }

  /** Whether all go on: the first does, and with the echo it may have sent, the rest. */
  lemma GoOnStep(reader: Reader, refuses: nat -> bool, sent: nat, payloads: seq<string>)
    requires payloads != []
    ensures AllGoOn(reader, refuses, sent, payloads)
       <==> GoesOn(reader, refuses, sent, payloads[0])
            && AllGoOn(reader, refuses, sent + (if IsHeartbeat(payloads[0]) then 1 else 0), payloads[1..])
  {
    hide GoesOn, IsHeartbeat;
    var rest, after := payloads[1..], sent + if IsHeartbeat(payloads[0]) then 1 else 0;
    assert payloads[..0] == [] && Heartbeats(payloads[..0]) == 0;
    forall i | 0 < i < |payloads|
      ensures GoesOn(reader, refuses, sent + Heartbeats(payloads[..i]), payloads[i])
         <==> GoesOn(reader, refuses, after + Heartbeats(rest[..i - 1]), rest[i - 1])
    {
      HeartbeatsStep(payloads, i);
    }
    if AllGoOn(reader, refuses, sent, payloads) {
      assert GoesOn(reader, refuses, sent + Heartbeats(payloads[..0]), payloads[0]);
      forall j | 0 <= j < |rest|
        ensures GoesOn(reader, refuses, after + Heartbeats(rest[..j]), rest[j])
      {
        assert GoesOn(reader, refuses, sent + Heartbeats(payloads[..j + 1]), payloads[j + 1]);
      }
    }
  }

  lemma PrefixGoOnStep(reader: Reader, refuses: nat -> bool, sent: nat, payloads: seq<string>, i: nat)
    requires 0 < i <= |payloads|
    ensures AllGoOn(reader, refuses, sent, payloads[..i])
       <==> GoesOn(reader, refuses, sent, payloads[0])
            && AllGoOn(reader, refuses, sent + (if IsHeartbeat(payloads[0]) then 1 else 0), payloads[1..][..i - 1])
  {
    hide GoesOn, IsHeartbeat, AllGoOn;
    GoOnStep(reader, refuses, sent, payloads[..i]);
    assert payloads[..i][0] == payloads[0] && payloads[..i][1..] == payloads[1..][..i - 1];
  }

  lemma FailsStep(reader: Reader, refuses: nat -> bool, tail: string, sent: nat, payloads: seq<string>, failure: Failure)
    requires payloads != []
    ensures SomeFails(reader, refuses, tail, sent, payloads, failure)
       <==> FailsWith(reader, refuses, tail, sent, payloads[0], failure)
            || (GoesOn(reader, refuses, sent, payloads[0])
                && SomeFails(reader, refuses, tail, sent + (if IsHeartbeat(payloads[0]) then 1 else 0), payloads[1..], failure))
  {
    hide GoesOn, IsHeartbeat, AllGoOn, FailsWith;
    var rest, after := payloads[1..], sent + if IsHeartbeat(payloads[0]) then 1 else 0;
    NoneGoOn(reader, refuses, sent);
    assert payloads[..0] == [];
    assert FailsAt(reader, refuses, tail, sent, payloads, 0, failure) <==> FailsWith(reader, refuses, tail, sent, payloads[0], failure);
    forall i | 0 < i < |payloads|
      ensures FailsAt(reader, refuses, tail, sent, payloads, i, failure)
         <==> GoesOn(reader, refuses, sent, payloads[0]) && FailsAt(reader, refuses, tail, after, rest, i - 1, failure)
    {
      PrefixGoOnStep(reader, refuses, sent, payloads, i);
      HeartbeatsStep(payloads, i);
    }
    if GoesOn(reader, refuses, sent, payloads[0]) && SomeFails(reader, refuses, tail, after, rest, failure) {
      var j :| 0 <= j < |rest| && FailsAt(reader, refuses, tail, after, rest, j, failure);
      assert FailsAt(reader, refuses, tail, sent, payloads, j + 1, failure);
    }
  }

  lemma CompletesStep(reader: Reader, refuses: nat -> bool, tail: string, sent: nat, payloads: seq<string>)
    requires payloads != []
    ensures SomeCompletes(reader, refuses, tail, sent, payloads)
       <==> CompletesAt(reader, tail, payloads[0])
            || (GoesOn(reader, refuses, sent, payloads[0])
                && SomeCompletes(reader, refuses, tail, sent + (if IsHeartbeat(payloads[0]) then 1 else 0), payloads[1..]))
  {
    hide GoesOn, IsHeartbeat, AllGoOn, CompletesAt;
    var rest, after := payloads[1..], sent + if IsHeartbeat(payloads[0]) then 1 else 0;
    NoneGoOn(reader, refuses, sent);
    assert payloads[..0] == [];
    assert CompletesIn(reader, refuses, tail, sent, payloads, 0) <==> CompletesAt(reader, tail, payloads[0]);
    forall i | 0 < i < |payloads|
      ensures CompletesIn(reader, refuses, tail, sent, payloads, i)
         <==> GoesOn(reader, refuses, sent, payloads[0]) && CompletesIn(reader, refuses, tail, after, rest, i - 1)
    {
      PrefixGoOnStep(reader, refuses, sent, payloads, i);
    }
    if GoesOn(reader, refuses, sent, payloads[0]) && SomeCompletes(reader, refuses, tail, after, rest) {
      var j :| 0 <= j < |rest| && CompletesIn(reader, refuses, tail, after, rest, j);
      assert CompletesIn(reader, refuses, tail, sent, payloads, j + 1);
    }
  }

  lemma NoneGoOn(reader: Reader, refuses: nat -> bool, sent: nat)
    ensures AllGoOn(reader, refuses, sent, []) && Heartbeats([]) == 0
  {
  }

  /** A packet fails in a given way exactly when some payload does and those before it
      go on; it completes exactly when some payload says so and those before it go on;
      otherwise all of them go on. So what a completed packet says before its
      completion is neither a protocol nor a critical error. */
  lemma {:induction false} PacketVerdict(reader: Reader, refuses: nat -> bool, tail: string, p: Progress, payloads: seq<string>)
    ensures var o := HandleAll(reader, refuses, tail, p, payloads);
            && (forall failure :: (o.Failed? && o.failure == failure)
                                  <==> SomeFails(reader, refuses, tail, |p.sent|, payloads, failure))
            && (o.Completed? <==> SomeCompletes(reader, refuses, tail, |p.sent|, payloads))
            && (o.Going? <==> AllGoOn(reader, refuses, |p.sent|, payloads))
    decreases |payloads|
  {
    hide HandleOne, GoesOn, FailsWith, CompletesAt, AllGoOn, SomeFails, SomeCompletes;
    if payloads == [] {
      NothingEnds(reader, refuses, tail, |p.sent|);
    } else {
      var o := HandleOne(reader, refuses, tail, p, payloads[0]);
      PayloadVerdict(reader, refuses, tail, p, payloads[0]);
      GoOnStep(reader, refuses, |p.sent|, payloads);
      CompletesStep(reader, refuses, tail, |p.sent|, payloads);
      forall failure
        ensures SomeFails(reader, refuses, tail, |p.sent|, payloads, failure)
           <==> FailsWith(reader, refuses, tail, |p.sent|, payloads[0], failure)
                || (GoesOn(reader, refuses, |p.sent|, payloads[0])
                    && SomeFails(reader, refuses, tail, |p.sent| + (if IsHeartbeat(payloads[0]) then 1 else 0), payloads[1..], failure))
      {
        FailsStep(reader, refuses, tail, |p.sent|, payloads, failure);
      }
      if o.Going? {
        SentByOne(reader, refuses, tail, p, payloads[0]);
        PacketVerdict(reader, refuses, tail, o.progress, payloads[1..]);
      }
    }
  }

  lemma NothingEnds(reader: Reader, refuses: nat -> bool, tail: string, sent: nat)
    ensures AllGoOn(reader, refuses, sent, []) && !SomeCompletes(reader, refuses, tail, sent, [])
    ensures forall failure :: !SomeFails(reader, refuses, tail, sent, [], failure)
  {
  }

  lemma SentByOne(reader: Reader, refuses: nat -> bool, tail: string, p: Progress, payload: string)
    ensures |HandleOne(reader, refuses, tail, p, payload).progress.sent| == |p.sent| + if IsHeartbeat(payload) then 1 else 0
  {
    PayloadCounts(reader, refuses, tail, p, payload);
  }

  /** So a conversation that completes, at its last payload, says nothing of an error
      anywhere, and exactly once that it completes. */
  lemma CompletedSaysNoError(reader: Reader, refuses: nat -> bool, p: Progress, payloads: seq<string>)
    requires EndsAtLast(reader, refuses, p, payloads) && HandleAll(reader, refuses, "", p, payloads).Completed?
    ensures forall i | 0 <= i < |payloads| ::
              !Says(reader.parse, payloads[i], "critical_error") && !Says(reader.parse, payloads[i], "protocol_error")
    ensures forall i | 0 <= i < |payloads| :: Says(reader.parse, payloads[i], "series_completed") <==> i == |payloads| - 1
  {
    hide HandleAll, Says, FailsWith;
    var front := payloads[..|payloads| - 1];
    PacketVerdict(reader, refuses, "", p, payloads);
    PacketVerdict(reader, refuses, "", p, front);
    var last :| 0 <= last < |payloads| && CompletesIn(reader, refuses, "", |p.sent|, payloads, last);
    forall i | 0 <= i < |front|
      ensures GoesOn(reader, refuses, |p.sent| + Heartbeats(front[..i]), payloads[i])
    {
      assert front[i] == payloads[i];
    }
    assert last == |payloads| - 1;
    OneKind(reader, payloads[last]);
  }

  /** How many of the payloads are unreadable. */
  ghost function UnreadableIn(reader: Reader, payloads: seq<string>): nat {
    if payloads == [] then 0 else (if Unreadable(reader, payloads[0]) then 1 else 0) + UnreadableIn(reader, payloads[1..])
  }

  /** As long as nothing fails, every payload is counted, and the unreadable ones as such. */
  lemma {:induction false} PacketCounts(reader: Reader, refuses: nat -> bool, tail: string, p: Progress, payloads: seq<string>)
    requires HandleAll(reader, refuses, tail, p, payloads).Going?
    ensures var q := HandleAll(reader, refuses, tail, p, payloads).progress;
            q.stats.messages == p.stats.messages + |payloads|
            && q.stats.unparseable == p.stats.unparseable + UnreadableIn(reader, payloads)
    decreases |payloads|
  {
    hide HandleOne, Unreadable;
    if payloads != [] {
      PayloadCounts(reader, refuses, tail, p, payloads[0]);
      PacketCounts(reader, refuses, tail, HandleOne(reader, refuses, tail, p, payloads[0]).progress, payloads[1..]);
    }
  }

  // ----- the reading -----------------------------------------------------------

  /** The reading stops where it stands, in this way: the payload budget is spent, the
      clock is past the deadline before the receive or behind a broken one, the socket
      closed or gave what is no text, the text does not decode, or a payload fails. */
  ghost predicate StopsHere(reader: Reader, feed: Feed, at: Point, failure: Failure) {
    if at.progress.stats.messages >= 4000 then failure == ProtocolFault
    else if feed.late(at.k) then failure == TimedOut
    else
      match feed.script(at.k)
      case Broken => failure == if feed.late(at.k + 1) then TimedOut else ConnectionFailed
      case NotUtf8 => failure == FramingFault
      case Text(text) =>
        if text == "" then failure == ConnectionFailed
        else
          match Decode(at.buffer + text)
          case Malformed(_) => failure == FramingFault
          case Decoded(payloads, tail) => SomeFails(reader, feed.refuses, tail, |at.progress.sent|, payloads, failure)
  }

  ghost predicate CompletesHere(reader: Reader, feed: Feed, at: Point) {
    Decodes(feed, at)
    && var d := Decode(at.buffer + feed.script(at.k).text);
       SomeCompletes(reader, feed.refuses, d.remainder, |at.progress.sent|, d.payloads)
  }

  ghost predicate StopsAfter(reader: Reader, feed: Feed, at: Point, steps: nat, failure: Failure) {
    var reached := After(reader, feed, at, steps);
    reached.Some? && StopsHere(reader, feed, reached.value, failure)
  }

  ghost predicate CompletesAfter(reader: Reader, feed: Feed, at: Point, steps: nat) {
    var reached := After(reader, feed, at, steps);
    reached.Some? && CompletesHere(reader, feed, reached.value)
  }

  ghost predicate Stops(reader: Reader, feed: Feed, at: Point, failure: Failure) {
    exists steps: nat :: StopsAfter(reader, feed, at, steps, failure)
  }

  ghost predicate Completes(reader: Reader, feed: Feed, at: Point) {
    exists steps: nat :: CompletesAfter(reader, feed, at, steps)
  }

  lemma StopStep(reader: Reader, feed: Feed, at: Point, failure: Failure)
    ensures Stops(reader, feed, at, failure)
       <==> StopsHere(reader, feed, at, failure)
            || (Next(reader, feed, at).Some? && Stops(reader, feed, Next(reader, feed, at).value, failure))
  {
    hide Next, StopsHere;
    assert StopsAfter(reader, feed, at, 0, failure) <==> StopsHere(reader, feed, at, failure);
    var next := Next(reader, feed, at);
    if steps: nat :| StopsAfter(reader, feed, at, steps, failure) {
      assert steps > 0 ==> next.Some? && StopsAfter(reader, feed, next.value, steps - 1, failure);
    }
    if next.Some? && Stops(reader, feed, next.value, failure) {
      var steps: nat :| StopsAfter(reader, feed, next.value, steps, failure);
      assert StopsAfter(reader, feed, at, steps + 1, failure);
    }
  }

  lemma CompletionStep(reader: Reader, feed: Feed, at: Point)
    ensures Completes(reader, feed, at)
       <==> CompletesHere(reader, feed, at)
            || (Next(reader, feed, at).Some? && Completes(reader, feed, Next(reader, feed, at).value))
  {
    hide Next, CompletesHere;
    assert CompletesAfter(reader, feed, at, 0) <==> CompletesHere(reader, feed, at);
    var next := Next(reader, feed, at);
    if steps: nat :| CompletesAfter(reader, feed, at, steps) {
      assert steps > 0 ==> next.Some? && CompletesAfter(reader, feed, next.value, steps - 1);
    }
    if next.Some? && Completes(reader, feed, next.value) {
      var steps: nat :| CompletesAfter(reader, feed, next.value, steps);
      assert CompletesAfter(reader, feed, at, steps + 1);
    }
  }

  /** A reading fails in a given way exactly when it goes on to a receive at which it
      stops in that way, and completes exactly when it goes on to a packet that does. */
  lemma {:induction false} ReadingVerdict(reader: Reader, feed: Feed, at: Point)
    requires |at.buffer| <= MAX_REMAINDER
    ensures var o := ReadFrom(reader, feed, at.k, at.buffer, at.progress);
            (forall failure :: (o.Failed? && o.failure == failure) <==> Stops(reader, feed, at, failure))
            && (o.Completed? <==> Completes(reader, feed, at))
    decreases Budget(at.progress.stats.messages), MAX_REMAINDER + 1 - |at.buffer|
  {
    hide Decode, HandleAll, ReadFrom, SomeFails, SomeCompletes, Stops, Completes, StopsHere, CompletesHere, Decodes;
    var o := ReadFrom(reader, feed, at.k, at.buffer, at.progress);
    ReadOnce(reader, feed, at.k, at.buffer, at.progress);
    CompletionStep(reader, feed, at);
    forall failure
      ensures Stops(reader, feed, at, failure)
         <==> StopsHere(reader, feed, at, failure)
              || (Next(reader, feed, at).Some? && Stops(reader, feed, Next(reader, feed, at).value, failure))
    {
      StopStep(reader, feed, at, failure);
    }
    HereVerdict(reader, feed, at);
    if Decodes(feed, at) {
      PointDecodes(feed, at);
      var d := Decode(at.buffer + feed.script(at.k).text);
      if HandleAll(reader, feed.refuses, d.remainder, at.progress, d.payloads).Going? {
        StepsLeft(reader, feed, at);
        ReadingVerdict(reader, feed, Next(reader, feed, at).value);
      }
    }
  }

  /** The receive at hand: if it does not let the reading go on, it decides it. */
  lemma HereVerdict(reader: Reader, feed: Feed, at: Point)
    requires |at.buffer| <= MAX_REMAINDER
    ensures var o := ReadFrom(reader, feed, at.k, at.buffer, at.progress);
            if Next(reader, feed, at).Some? then
              !CompletesHere(reader, feed, at) && forall failure :: !StopsHere(reader, feed, at, failure)
            else
              (forall failure :: (o.Failed? && o.failure == failure) <==> StopsHere(reader, feed, at, failure))
              && (o.Completed? <==> CompletesHere(reader, feed, at))
  {
    hide Decode, HandleAll, ReadFrom, SomeFails, SomeCompletes;
    ReadOnce(reader, feed, at.k, at.buffer, at.progress);
    if Decodes(feed, at) {
      var d := Decode(at.buffer + feed.script(at.k).text);
      PacketVerdict(reader, feed.refuses, d.remainder, at.progress, d.payloads);
    }
  }

  // ----- the fetch -------------------------------------------------------------

  /** The commands go out as frames, in order, up to and with the first that is refused;
      the handshake is done exactly when none is. */
  lemma {:induction false} HandshakeExactly(refuses: nat -> bool, sent: seq<string>, commands: seq<string>)
    ensures var (ready, after) := Handshake(refuses, sent, commands);
            && (ready <==> forall n | |sent| <= n < |sent| + |commands| :: !refuses(n))
            && |sent| <= |after| <= |sent| + |commands| && after[..|sent|] == sent
            && (forall i | |sent| <= i < |after| :: after[i] == EncodeFrame(commands[i - |sent|]))
            && (ready ==> |after| == |sent| + |commands|)
            && (!ready ==> |after| > |sent| && refuses(|after| - 1))
            && (forall i | |sent| <= i < |after| - 1 :: !refuses(i))
    decreases |commands|
  {
    hide EncodeFrame;
    if commands != [] && !refuses(|sent|) {
      var next := sent + [EncodeFrame(commands[0])];
      HandshakeExactly(refuses, next, commands[1..]);
      var (ready, after) := Handshake(refuses, next, commands[1..]);
      assert after[..|sent|] == after[..|next|][..|sent|] == sent;
      assert after[|sent|] == after[..|next|][|sent|] == EncodeFrame(commands[0]);
    }
  }

  lemma AsksExactly(settings: Settings, opening: Opening)
    ensures Asks(settings, opening)
       <==> opening.Connects? && forall i | 0 <= i < |settings.handshake| :: !opening.refuses(i)
  {
    if opening.Connects? {
      HandshakeExactly(opening.refuses, [], settings.handshake);
    }
  }

  /** A fetch that does not come to ask fails as its opening does. */
  lemma FetchNotAsked(settings: Settings, opening: Opening, clocks: Clocks)
    requires settings.Valid() && !Asks(settings, opening)
    ensures FetchOutcome(settings, opening, clocks) == Err(if opening.LibraryMissing? then NotInstalled else ConnectionFailed)
  {
    hide Handshake, ReadFrom, FeedOf, Assess;
  }

  /** The reading of the clock before receive `k` is past the start of the fetch by more
      than the timeout. */
  predicate Overdue(settings: Settings, clocks: Clocks, k: nat) {
    clocks.monotonic(clocks.m + 1 + k) > clocks.monotonic(clocks.m) + settings.timeout
  }

  /** At the receive it has reached, with payloads left to count, the clock is overdue
      before it, or behind it when the socket breaks. */
  ghost predicate OverdueAt(settings: Settings, opening: Opening, clocks: Clocks, at: Point)
    requires opening.Connects?
  {
    at.progress.stats.messages < 4000
    && (Overdue(settings, clocks, at.k) || (opening.script(at.k).Broken? && Overdue(settings, clocks, at.k + 1)))
  }

  ghost predicate OverdueAfter(settings: Settings, opening: Opening, clocks: Clocks, steps: nat)
    requires opening.Connects?
  {
    var reached := After(settings.reader, FeedOf(settings, opening, clocks), Start(settings, opening), steps);
    reached.Some? && OverdueAt(settings, opening, clocks, reached.value)
  }

  /** A fetch times out exactly when its reading goes on to a receive that is overdue. */
  lemma FetchTimesOutExactly(settings: Settings, opening: Opening, clocks: Clocks)
    requires settings.Valid()
    ensures FetchOutcome(settings, opening, clocks) == Err(TimedOut)
       <==> Asks(settings, opening) && exists steps: nat :: OverdueAfter(settings, opening, clocks, steps)
  {
    hide FetchOutcome, Handshake, FeedOf, Assess, Stops, OverdueAfter, Start, Completes;
    if Asks(settings, opening) {
      FetchOfReading(settings, opening, clocks);
      StopsOverdue(settings, opening, clocks);
      var o := Reading(settings, opening, clocks);
      if o.Completed? {
        RowsNeverTimeOut(settings.request, o.progress.table, clocks.now, clocks.n + 2);
      }
    } else {
      FetchNotAsked(settings, opening, clocks);
    }
  }

  /** A fetch that asks is decided by its reading: by its failure, or by its rows. */
  lemma FetchOfReading(settings: Settings, opening: Opening, clocks: Clocks)
    requires settings.Valid() && Asks(settings, opening)
    ensures var o := Reading(settings, opening, clocks);
            && FetchOutcome(settings, opening, clocks) ==
                 (if o.Completed? then Assess(settings.request, o.progress.table, clocks.now, clocks.n + 2) else Err(o.failure))
            && forall failure :: (o.Failed? && o.failure == failure)
                                 <==> Stops(settings.reader, FeedOf(settings, opening, clocks), Start(settings, opening), failure)
  {
    hide Handshake, ReadFrom, FeedOf, Assess, Stops, Completes;
    ReadingVerdict(settings.reader, FeedOf(settings, opening, clocks), Start(settings, opening));
  }

  lemma StopsOverdue(settings: Settings, opening: Opening, clocks: Clocks)
    requires opening.Connects?
    ensures Stops(settings.reader, FeedOf(settings, opening, clocks), Start(settings, opening), TimedOut)
       <==> exists steps: nat :: OverdueAfter(settings, opening, clocks, steps)
  {
    hide After, OverdueAt, StopsHere, FeedOf;
    var feed, start := FeedOf(settings, opening, clocks), Start(settings, opening);
    forall steps: nat
      ensures StopsAfter(settings.reader, feed, start, steps, TimedOut) <==> OverdueAfter(settings, opening, clocks, steps)
    {
      var reached := After(settings.reader, feed, start, steps);
      if reached.Some? {
        StopsForTime(settings, opening, clocks, reached.value);
      }
    }
    if steps: nat :| StopsAfter(settings.reader, feed, start, steps, TimedOut) {
      assert OverdueAfter(settings, opening, clocks, steps);
    }
    if steps: nat :| OverdueAfter(settings, opening, clocks, steps) {
      assert StopsAfter(settings.reader, feed, start, steps, TimedOut);
    }
  }

  lemma StopsForTime(settings: Settings, opening: Opening, clocks: Clocks, at: Point)
    requires opening.Connects?
    ensures StopsHere(settings.reader, FeedOf(settings, opening, clocks), at, TimedOut)
       <==> OverdueAt(settings, opening, clocks, at)
  {
    hide Decode;
    var feed := FeedOf(settings, opening, clocks);
    if feed.script(at.k).Text? && Decode(at.buffer + feed.script(at.k).text).Decoded? {
      var d := Decode(at.buffer + feed.script(at.k).text);
      NoPayloadTimesOut(settings.reader, feed.refuses, d.remainder, |at.progress.sent|, d.payloads);
    }
  }

  lemma NoPayloadTimesOut(reader: Reader, refuses: nat -> bool, tail: string, sent: nat, payloads: seq<string>)
    ensures !SomeFails(reader, refuses, tail, sent, payloads, TimedOut)
  {
  }

  /** Rows are never refused in a way only a reading is. */
  lemma RowsNeverTimeOut(request: Request, rows: seq<BarRow>, now: nat -> int, first: nat)
    requires request.limit >= 1
    ensures Assess(request, rows, now, first).Err?
        ==> Assess(request, rows, now, first).error
            in {CandleFault, DateOutOfRange, DecimalOverflow, TooFewBars, StaleData, PayloadRejected}
  {
    hide ToBars, ToBar, SortByStamp, DistinctStamps, ClosedOnly, IsStale, PositivePrices;
    if ToBars(rows, now, first).Err? {
      var n := SomeStop(rows, now, first);
      RowFailuresAre(rows[n - first], now(n));
    }
  }

  lemma RowFailuresAre(row: BarRow, now: int)
    ensures ToBar(row, now).Err? ==> ToBar(row, now).error in {CandleFault, DateOutOfRange, DecimalOverflow}
  {
    hide CandleAt;
    if UsableSecond(row[0]).Ok? {
      CandleFailures(UsableSecond(row[0]).value, row);
    }
  }

  /** So one whose readings all stay within the timeout never does. */
  lemma TimelyNeverTimesOut(settings: Settings, opening: Opening, clocks: Clocks)
    requires settings.Valid() && forall k: nat :: !Overdue(settings, clocks, k)
    ensures FetchOutcome(settings, opening, clocks) != Err(TimedOut)
  {
    hide FetchOutcome, After, FeedOf, Overdue;
    FetchTimesOutExactly(settings, opening, clocks);
  }

  /** As many candles as asked for, in order, all closed, each that of one of the rows. */
  predicate FetchedFrom(request: Request, rows: seq<BarRow>, bars: seq<Bar>, moment: int) {
    |bars| == request.limit && StrictlyAscending(bars)
    && forall bar | bar in bars :: HasClosed(bar, request.duration, moment) && IsCandleOf(bar, rows)
  }

  /** From the socket to the fields of a candle: what a successful fetch returns are
      candles of the rows its reading collected, the fields of each row in their places. */
  lemma FetchedCandles(settings: Settings, opening: Opening, clocks: Clocks) returns (rows: seq<BarRow>)
    requires settings.Valid() && FetchOutcome(settings, opening, clocks).Ok?
    ensures Reads(settings, opening, clocks, rows)
    ensures FetchedFrom(settings.request, rows, FetchOutcome(settings, opening, clocks).value.bars, clocks.now(clocks.n + 2 + |rows|))
  {
    hide Handshake, FeedOf, Assess, Stops, FetchedFrom, FetchOutcome;
    if !Asks(settings, opening) {
      FetchNotAsked(settings, opening, clocks);
    }
    FetchOfReading(settings, opening, clocks);
    rows := Reading(settings, opening, clocks).progress.table;
    CandlesOfRows(settings.request, rows, clocks.now, clocks.n + 2);
  }

  lemma CandlesOfRows(request: Request, rows: seq<BarRow>, now: nat -> int, first: nat)
    requires request.limit >= 1 && Assess(request, rows, now, first).Ok?
    ensures FetchedFrom(request, rows, Assess(request, rows, now, first).value.bars, now(first + |rows|))
  {
    hide Assess, IsCandleOf, Opens, FromRow, AllStamped, StrictlyAscending;
    SelectionIsNewestClosed(request, rows, now, first);
    ReturnedCandles(request, rows, now, first);
    forall bar | bar in Assess(request, rows, now, first).value.bars
      ensures HasClosed(bar, request.duration, now(first + |rows|))
    {
      assert ClosedBy(bar, request.duration, now(first + |rows|));
    }
  }
}
