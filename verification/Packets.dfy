/** What a reading depends on: the text received, not how it was cut into packets. */
module Packets {
  import opened Options
  import opened Failures
  import opened Messages
  import opened WireCodec
  import opened Session

  // ----- algebra of the payload loop -------------------------------------------

  /** Until the series completes, the undecoded tail plays no part. */
  lemma {:induction false} TailIsIgnoredWhileGoing(
      reader: Reader, refuses: nat -> bool, tail: string, p: Progress, payloads: seq<string>)
    requires HandleAll(reader, refuses, "", p, payloads).Going?
    ensures HandleAll(reader, refuses, tail, p, payloads) == HandleAll(reader, refuses, "", p, payloads)
    decreases |payloads|
  {
    if payloads != [] {
      var next := HandleOne(reader, refuses, "", p, payloads[0]);
      TailIsIgnoredWhileGoing(reader, refuses, tail, next.progress, payloads[1..]);
    }
  }

  lemma {:induction false} HandleInTwoParts(
      reader: Reader, refuses: nat -> bool, tail: string, p: Progress, first: seq<string>, second: seq<string>)
    ensures HandleAll(reader, refuses, tail, p, first + second) ==
              match HandleAll(reader, refuses, tail, p, first)
              case Going(q) => HandleAll(reader, refuses, tail, q, second)
              case ended => ended
    decreases |first|
  {
    if first == [] {
      assert first + second == second;
    } else {
      assert (first + second)[1..] == first[1..] + second;
      match HandleOne(reader, refuses, tail, p, first[0])
      case Going(q) => HandleInTwoParts(reader, refuses, tail, q, first[1..], second);
      case _ =>
    }
  }

  /** The conversation ends at its last payload and not before: there it
      completes, or the feed reports an error, or a row or an echo fails. */
  predicate EndsAtLast(reader: Reader, refuses: nat -> bool, p: Progress, payloads: seq<string>) {
    payloads != []
    && HandleAll(reader, refuses, "", p, payloads[..|payloads| - 1]).Going?
    && !HandleAll(reader, refuses, "", p, payloads).Going?
  }

  lemma EndsInTheRest(reader: Reader, refuses: nat -> bool, p: Progress, first: seq<string>, second: seq<string>)
    requires EndsAtLast(reader, refuses, p, first + second) && second != []
    ensures HandleAll(reader, refuses, "", p, first).Going?
    ensures var q := HandleAll(reader, refuses, "", p, first).progress;
            EndsAtLast(reader, refuses, q, second)
            && HandleAll(reader, refuses, "", p, first + second) == HandleAll(reader, refuses, "", q, second)
  {
    var front := second[..|second| - 1];
    assert (first + second)[..|first + second| - 1] == first + front;
    HandleInTwoParts(reader, refuses, "", p, first, front);
    HandleInTwoParts(reader, refuses, "", p, first, second);
  }

  // ----- packetisation independence --------------------------------------------

  /** From receive `k` on, the socket delivers these packets, all in time. */
  predicate Delivers(feed: Feed, k: nat, packets: seq<string>) {
    forall n | k <= n < k + |packets| ::
      packets[n - k] != "" && feed.script(n) == Text(packets[n - k]) && !feed.late(n)
  }

  lemma DeliversRest(feed: Feed, k: nat, packets: seq<string>)
    requires Delivers(feed, k, packets) && packets != []
    ensures Delivers(feed, k + 1, packets[1..])
  {
    forall n | k + 1 <= n < k + |packets|
      ensures packets[1..][n - (k + 1)] != "" && feed.script(n) == Text(packets[1..][n - (k + 1)]) && !feed.late(n)
    {
      assert packets[n - k] != "" && feed.script(n) == Text(packets[n - k]) && !feed.late(n);
      assert packets[1..][n - (k + 1)] == packets[n - k];
    }
  }

  /** For text that is whole frames, at most 4000 of them, ending the conversation
      at the last: whatever non-empty packets it arrives in, the reading is the
      single pass over its payloads - same rows, counters, echoes and verdict. */
  lemma {:induction false} PacketisationIndependence(
      reader: Reader, feed: Feed, k: nat, buffer: string, p: Progress, packets: seq<string>, payloads: seq<string>)
    requires Decode(buffer) == Decoded([], buffer)
    requires Delivers(feed, k, packets)
    requires Decode(buffer + Join(packets)) == Decoded(payloads, "")
    requires EndsAtLast(reader, feed.refuses, p, payloads)
    requires p.stats.messages + |payloads| <= MAX_MESSAGES
    ensures ReadFrom(reader, feed, k, buffer, p) == HandleAll(reader, feed.refuses, "", p, payloads)
    decreases |packets|
  {
    hide Decode, HandleAll, HandleOne, EndsAtLast;
    if packets == [] {
      assert buffer + Join(packets) == buffer;
      NothingNeverEnds(reader, feed.refuses, p);
    } else {
      var head, later := buffer + packets[0], Join(packets[1..]);
      assert buffer + Join(packets) == head + later;
      assert feed.script(k) == Text(packets[k - k]) && !feed.late(k);
      StreamingEqualsBatch(head, later);
      RemainderIsPending(head);
      var first, tail := Decode(head).payloads, Decode(head).remainder;
      var second := Decode(tail + later).payloads;
      assert payloads == first + second;
      if second == [] {
        assert Decode(tail + later).remainder == tail + later;
        assert tail == "" && later == "";
        assert first + second == first;
        EndsNotGoing(reader, feed.refuses, p, first);
      } else {
        EndsInTheRest(reader, feed.refuses, p, first, second);
        TailIsIgnoredWhileGoing(reader, feed.refuses, tail, p, first);
        var q := HandleAll(reader, feed.refuses, "", p, first).progress;
        DeliversRest(feed, k, packets);
        PacketisationIndependence(reader, feed, k + 1, tail, q, packets[1..], second);
      }
    }
  }

  lemma NothingNeverEnds(reader: Reader, refuses: nat -> bool, p: Progress)
    ensures !EndsAtLast(reader, refuses, p, [])
  {
  }

  lemma EndsNotGoing(reader: Reader, refuses: nat -> bool, p: Progress, payloads: seq<string>)
    requires EndsAtLast(reader, refuses, p, payloads)
    ensures !HandleAll(reader, refuses, "", p, payloads).Going?
  {
  }

  /** Two cuts of one conversation read alike. */
  lemma SameForEverySplit(reader: Reader, a: Feed, b: Feed, p: Progress,
                          cut: seq<string>, cut': seq<string>, payloads: seq<string>)
    requires Delivers(a, 0, cut) && Delivers(b, 0, cut') && a.refuses == b.refuses
    requires Join(cut) == Join(cut') && Decode(Join(cut)) == Decoded(payloads, "")
    requires EndsAtLast(reader, a.refuses, p, payloads) && p.stats.messages + |payloads| <= MAX_MESSAGES
    ensures ReadFrom(reader, a, 0, "", p) == ReadFrom(reader, b, 0, "", p)
  {
    hide Decode, HandleAll, EndsAtLast, ReadFrom;
    DecodeNothing();
    assert "" + Join(cut) == Join(cut);
    PacketisationIndependence(reader, a, 0, "", p, cut, payloads);
    PacketisationIndependence(reader, b, 0, "", p, cut', payloads);
  }

  // ----- where independence stops ------------------------------------------------

  /** Text behind `series_completed` in the packet that brings it, at any receive
      and behind any buffered tail: the reading still completes exactly when that
      text is whole frames, which are never looked at. */
  lemma TextBehindCompletion(reader: Reader, feed: Feed, k: nat, buffer: string, p: Progress,
                             text: string, extra: string, payloads: seq<string>)
    requires Decode(buffer) == Decoded([], buffer)
    requires feed.script(k) == Text(text + extra) && !feed.late(k) && p.stats.messages < MAX_MESSAGES
    requires Decode(buffer + text) == Decoded(payloads, "")
    requires EndsAtLast(reader, feed.refuses, p, payloads)
    requires HandleAll(reader, feed.refuses, "", p, payloads).Completed?
    ensures ReadFrom(reader, feed, k, buffer, p).Completed?
       <==> Decode(extra).Decoded? && Decode(extra).remainder == ""
    ensures var o := ReadFrom(reader, feed, k, buffer, p);
            o.Completed? || (o.Failed? && o.failure == FramingFault)
  {
    hide Decode, HandleAll, ReadFrom, EndsAtLast;
    var data := buffer + (text + extra);
    NeverEmptyAtEnd(reader, feed.refuses, p, payloads);
    FrameBringsText(buffer, text, payloads);
    DecodeBehind(buffer, text, extra, payloads);
    ReadOnce(reader, feed, k, buffer, p);
    if Decode(data).Decoded? {
      VerdictBehind(reader, feed.refuses, Decode(extra).remainder, p, payloads, Decode(extra).payloads);
    }
  }

  lemma NeverEmptyAtEnd(reader: Reader, refuses: nat -> bool, p: Progress, payloads: seq<string>)
    requires EndsAtLast(reader, refuses, p, payloads)
    ensures payloads != []
  {
  }

  /** Whole frames in front come off; the rest decides. */
  lemma DecodeBehind(buffer: string, text: string, extra: string, payloads: seq<string>)
    requires Decode(buffer + text) == Decoded(payloads, "")
    ensures match Decode(extra)
            case Malformed(_) => Decode(buffer + (text + extra)).Malformed?
            case Decoded(more, tail) => Decode(buffer + (text + extra)) == Decoded(payloads + more, tail)
  {
    hide Decode;
    StreamingEqualsBatch(buffer + text, extra);
    assert "" + extra == extra && buffer + (text + extra) == buffer + text + extra;
  }

  /** Payloads behind the completion change nothing, an undecoded tail does. */
  lemma VerdictBehind(reader: Reader, refuses: nat -> bool, tail: string, p: Progress,
                      payloads: seq<string>, more: seq<string>)
    requires EndsAtLast(reader, refuses, p, payloads)
    requires HandleAll(reader, refuses, "", p, payloads).Completed?
    ensures var o := HandleAll(reader, refuses, tail, p, payloads + more);
            if tail == "" then o.Completed? else o.Failed? && o.failure == FramingFault
  {
    hide HandleAll, EndsAtLast;
    CompletionWithTail(reader, refuses, tail, p, payloads);
    HandleInTwoParts(reader, refuses, tail, p, payloads, more);
  }

  lemma FrameBringsText(buffer: string, text: string, payloads: seq<string>)
    requires Decode(buffer) == Decoded([], buffer) && Decode(buffer + text) == Decoded(payloads, "") && payloads != []
    ensures text != ""
  {
    hide Decode;
    assert text == "" ==> buffer + text == buffer;
  }

  /** The same where the conversation ends in a failure of its own, at its last
      payload: with whole frames behind it, or an unfinished one, that failure is the
      verdict; with a bad frame the framing is, and nothing of the packet is handled. */
  lemma TextBehindFailure(reader: Reader, feed: Feed, k: nat, buffer: string, p: Progress,
                          text: string, extra: string, payloads: seq<string>)
    requires Decode(buffer) == Decoded([], buffer)
    requires feed.script(k) == Text(text + extra) && !feed.late(k) && p.stats.messages < MAX_MESSAGES
    requires Decode(buffer + text) == Decoded(payloads, "")
    requires EndsAtLast(reader, feed.refuses, p, payloads)
    requires HandleAll(reader, feed.refuses, "", p, payloads).Failed?
    ensures ReadFrom(reader, feed, k, buffer, p)
         == if Decode(extra).Decoded? then HandleAll(reader, feed.refuses, "", p, payloads) else Failed(FramingFault, p)
  {
    hide Decode, HandleAll, ReadFrom, EndsAtLast;
    NeverEmptyAtEnd(reader, feed.refuses, p, payloads);
    FrameBringsText(buffer, text, payloads);
    DecodeBehind(buffer, text, extra, payloads);
    ReadOnce(reader, feed, k, buffer, p);
    if Decode(extra).Decoded? {
      FailedWithAnyTail(reader, feed.refuses, Decode(extra).remainder, p, payloads);
      HandleInTwoParts(reader, feed.refuses, Decode(extra).remainder, p, payloads, Decode(extra).payloads);
    }
  }

  lemma {:induction false} FailedWithAnyTail(reader: Reader, refuses: nat -> bool, tail: string, p: Progress, payloads: seq<string>)
    requires HandleAll(reader, refuses, "", p, payloads).Failed?
    ensures HandleAll(reader, refuses, tail, p, payloads) == HandleAll(reader, refuses, "", p, payloads)
    decreases |payloads|
  {
    var next := HandleOne(reader, refuses, "", p, payloads[0]);
    if next.Going? {
      FailedWithAnyTail(reader, refuses, tail, next.progress, payloads[1..]);
    }
  }

  lemma CompletionWithTail(reader: Reader, refuses: nat -> bool, tail: string, p: Progress, payloads: seq<string>)
    requires EndsAtLast(reader, refuses, p, payloads)
    requires HandleAll(reader, refuses, "", p, payloads).Completed?
    ensures var o := HandleAll(reader, refuses, tail, p, payloads);
            if tail == "" then o.Completed? else o.Failed? && o.failure == FramingFault
  {
    hide HandleOne, HandleAll;
    var front, last := payloads[..|payloads| - 1], payloads[|payloads| - 1];
    assert payloads == front + [last];
    TailIsIgnoredWhileGoing(reader, refuses, tail, p, front);
    HandleInTwoParts(reader, refuses, "", p, front, [last]);
    HandleInTwoParts(reader, refuses, tail, p, front, [last]);
    var q := HandleAll(reader, refuses, "", p, front).progress;
    LastOnly(reader, refuses, "", q, last);
    LastOnly(reader, refuses, tail, q, last);
    CompletionNeedsNoTail(reader, refuses, tail, q, last);
  }

  lemma CompletionNeedsNoTail(reader: Reader, refuses: nat -> bool, tail: string, p: Progress, payload: string)
    requires HandleOne(reader, refuses, "", p, payload).Completed?
    ensures var o := HandleOne(reader, refuses, tail, p, payload);
            if tail == "" then o.Completed? else o.Failed? && o.failure == FramingFault
  {
  }

  lemma LastOnly(reader: Reader, refuses: nat -> bool, tail: string, p: Progress, payload: string)
    ensures HandleAll(reader, refuses, tail, p, [payload]) == HandleOne(reader, refuses, tail, p, payload)
  {
    var o := HandleOne(reader, refuses, tail, p, payload);
    if o.Going? {
      assert HandleAll(reader, refuses, tail, o.progress, []) == o;
    }
  }

  /** A bad frame discards the good frames in front of it in its packet: whatever
      they say, nothing of the packet is handled. */
  lemma BadFrameDiscardsItsPacket(reader: Reader, feed: Feed, k: nat, buffer: string, p: Progress, good: string, bad: string)
    requires Decode(buffer) == Decoded([], buffer)
    requires feed.script(k) == Text(good + bad) && !feed.late(k) && p.stats.messages < MAX_MESSAGES
    requires Decode(buffer + good).Decoded? && Decode(buffer + good).remainder == "" && Decode(bad).Malformed?
    ensures ReadFrom(reader, feed, k, buffer, p) == Failed(FramingFault, p)
  {
    hide Decode, HandleAll, ReadFrom;
    DecodeNothing();
    assert bad != "";
    DecodeBehind(buffer, good, bad, Decode(buffer + good).payloads);
    ReadOnce(reader, feed, k, buffer, p);
  }

  /** Delivered apart, the good frames are handled first. So the verdict is another
      exactly when they end the reading, or use up its budget. */
  lemma BadFrameApart(reader: Reader, feed: Feed, k: nat, buffer: string, p: Progress, good: string, bad: string)
    requires Decode(buffer) == Decoded([], buffer)
    requires Delivers(feed, k, [good, bad]) && p.stats.messages < MAX_MESSAGES
    requires Decode(buffer + good).Decoded? && Decode(buffer + good).remainder == "" && Decode(bad).Malformed?
    ensures ReadFrom(reader, feed, k, buffer, p) ==
              match HandleAll(reader, feed.refuses, "", p, Decode(buffer + good).payloads)
              case Going(q) => Failed(if q.stats.messages < MAX_MESSAGES then FramingFault else ProtocolFault, q)
              case ended => ended
  {
    hide Decode, HandleAll, ReadFrom;
    var packets := [good, bad];
    assert feed.script(k) == Text(packets[k - k]) && !feed.late(k) && good != "";
    assert feed.script(k + 1) == Text(packets[k + 1 - k]) && !feed.late(k + 1) && bad != "";
    ReadOnce(reader, feed, k, buffer, p);
    var o := HandleAll(reader, feed.refuses, "", p, Decode(buffer + good).payloads);
    if o.Going? {
      assert "" + bad == bad;
      ReadOnce(reader, feed, k + 1, "", o.progress);
    }
  }

  // ----- what a completed reading means ------------------------------------------

  /** The text of receives `k` up to `n`. */
  function Received(feed: Feed, k: nat, n: nat): string
    requires k <= n
    decreases n - k
  {
    if k == n then ""
    else (match feed.script(k) case Text(text) => text case _ => "") + Received(feed, k + 1, n)
  }

  /** In every run at all, a completed reading is the single pass over the frames
      of the text received, which has no unfinished frame at its end. */
  lemma {:induction false} CompletedIsBatch(reader: Reader, feed: Feed, k: nat, buffer: string, p: Progress)
    returns (n: nat, payloads: seq<string>)
    requires Decode(buffer) == Decoded([], buffer)
    requires ReadFrom(reader, feed, k, buffer, p).Completed?
    ensures k < n && Decode(buffer + Received(feed, k, n)) == Decoded(payloads, "")
    ensures HandleAll(reader, feed.refuses, "", p, payloads) == ReadFrom(reader, feed, k, buffer, p)
    decreases Budget(p.stats.messages), MAX_REMAINDER + 1 - |buffer|
  {
    hide Decode, HandleAll;
    var head := buffer + feed.script(k).text;
    var first, tail := Decode(head).payloads, Decode(head).remainder;
    var o := HandleAll(reader, feed.refuses, tail, p, first);
    RemainderIsPending(head);
    if o.Going? {
      GoingWithAnyTail(reader, feed.refuses, tail, p, first);
      var second;
      n, second := CompletedIsBatch(reader, feed, k + 1, tail, o.progress);
      var later := Received(feed, k + 1, n);
      assert buffer + Received(feed, k, n) == head + later;
      StreamingEqualsBatch(head, later);
      HandleInTwoParts(reader, feed.refuses, "", p, first, second);
      payloads := first + second;
    } else {
      n, payloads := k + 1, first;
      assert Received(feed, k + 1, k + 1) == "";
      assert buffer + Received(feed, k, n) == head;
      CompletedWithoutTail(reader, feed.refuses, tail, p, first);
    }
  }

  lemma {:induction false} GoingWithAnyTail(reader: Reader, refuses: nat -> bool, tail: string, p: Progress, payloads: seq<string>)
    requires HandleAll(reader, refuses, tail, p, payloads).Going?
    ensures HandleAll(reader, refuses, "", p, payloads) == HandleAll(reader, refuses, tail, p, payloads)
    decreases |payloads|
  {
    if payloads != [] {
      var next := HandleOne(reader, refuses, tail, p, payloads[0]);
      GoingWithAnyTail(reader, refuses, tail, next.progress, payloads[1..]);
    }
  }

  lemma {:induction false} CompletedWithoutTail(reader: Reader, refuses: nat -> bool, tail: string, p: Progress, payloads: seq<string>)
    requires HandleAll(reader, refuses, tail, p, payloads).Completed?
    ensures tail == ""
    decreases |payloads|
  {
    var next := HandleOne(reader, refuses, tail, p, payloads[0]);
    if next.Going? {
      CompletedWithoutTail(reader, refuses, tail, next.progress, payloads[1..]);
    }
  }

  /** The candle rows one payload carries for the series. */
  function RowsFrom(reader: Reader, payload: string): seq<Row> {
    var message := Classify(reader.parse, payload);
    if message.kind in {TimescaleUpdate, DataUpdate} then ExtractRows(message, reader.series) else []
  }

  function RowsOf(reader: Reader, payloads: seq<string>): seq<Row> {
    if payloads == [] then [] else RowsFrom(reader, payloads[0]) + RowsOf(reader, payloads[1..])
  }

  /** The frame owed in answer to one payload, if it is a heartbeat. */
  function EchoOf(payload: string): seq<string> {
    if HEARTBEAT_PREFIX <= payload then [EncodeFrame(payload)] else []
  }

  function EchoesOf(payloads: seq<string>): seq<string> {
    if payloads == [] then [] else EchoOf(payloads[0]) + EchoesOf(payloads[1..])
  }

  predicate AllUsable(rows: seq<Row>) {
    forall i | 0 <= i < |rows| :: Usable(rows[i])
  }

  lemma {:induction false} CollectedRows(table: seq<BarRow>, rows: seq<Row>)
    ensures Collect(table, rows).Ok? <==> AllUsable(rows)
    ensures AllUsable(rows) ==> Collect(table, rows) == Ok(PutAll(table, rows))
    decreases |rows|
  {
    if rows != [] && Usable(rows[0]) {
      CollectedRows(Put(table, rows[0]), rows[1..]);
      if AllUsable(rows[1..]) {
        assert rows == [rows[0]] + rows[1..];
        PutAllAppend(table, [rows[0]], rows[1..]);
        assert PutAll(table, [rows[0]]) == Put(table, rows[0]) by {
          assert [rows[0]][..0] == [] && PutAll(table, []) == table;
        }
      }
    }
  }

  /** From `p` to `q` over these payloads: every row carried is collected by key,
      every heartbeat echoed in order and counted. */
  predicate ReadingEffect(reader: Reader, p: Progress, q: Progress, payloads: seq<string>) {
    var rows, echoes := RowsOf(reader, payloads), EchoesOf(payloads);
    AllUsable(rows) && q.table == PutAll(p.table, rows)
    && q.sent == p.sent + echoes
    && q.stats.heartbeats == p.stats.heartbeats + |echoes|
  }

  lemma EffectsCompose(reader: Reader, p: Progress, q: Progress, r: Progress, first: seq<string>, second: seq<string>)
    requires ReadingEffect(reader, p, q, first) && ReadingEffect(reader, q, r, second)
    ensures ReadingEffect(reader, p, r, first + second)
  {
    RowsInTwoParts(reader, first, second);
    hide RowsOf, EchoesOf, PutAll;
    PutAllAppend(p.table, RowsOf(reader, first), RowsOf(reader, second));
    assert p.sent + (EchoesOf(first) + EchoesOf(second)) == p.sent + EchoesOf(first) + EchoesOf(second);
  }

  lemma NoEffect(reader: Reader, p: Progress)
    ensures ReadingEffect(reader, p, p, [])
  {
    assert p.sent + [] == p.sent;
  }

  /** As long as nothing fails, the reading has that effect. */
  lemma {:induction false} ReadingMeaning(reader: Reader, refuses: nat -> bool, p: Progress, payloads: seq<string>)
    requires HandleAll(reader, refuses, "", p, payloads).Going?
    ensures ReadingEffect(reader, p, HandleAll(reader, refuses, "", p, payloads).progress, payloads)
    decreases |payloads|
  {
    hide HandleOne, ReadingEffect;
    if payloads == [] {
      NoEffect(reader, p);
    } else {
      var next := HandleOne(reader, refuses, "", p, payloads[0]).progress;
      ReadingMeaning(reader, refuses, next, payloads[1..]);
      OnePayloadMeaning(reader, refuses, p, payloads[0]);
      EffectsCompose(reader, p, next, HandleAll(reader, refuses, "", p, payloads).progress, [payloads[0]], payloads[1..]);
      assert [payloads[0]] + payloads[1..] == payloads;
    }
  }

  lemma OnePayloadMeaning(reader: Reader, refuses: nat -> bool, p: Progress, payload: string)
    requires HandleOne(reader, refuses, "", p, payload).Going?
    ensures ReadingEffect(reader, p, HandleOne(reader, refuses, "", p, payload).progress, [payload])
  {
    CollectedRows(p.table, RowsFrom(reader, payload));
    assert RowsOf(reader, [payload]) == RowsFrom(reader, payload) + [] == RowsFrom(reader, payload);
    assert EchoesOf([payload]) == EchoOf(payload) + [] == EchoOf(payload);
  }

  lemma CompletionCarriesNothing(reader: Reader, refuses: nat -> bool, p: Progress, payload: string)
    requires HandleOne(reader, refuses, "", p, payload).Completed?
    ensures RowsFrom(reader, payload) == [] && EchoOf(payload) == []
    ensures HandleOne(reader, refuses, "", p, payload).progress
         == p.(stats := p.stats.(messages := p.stats.messages + 1))
  {
  }

  /** A completed conversation: its last payload is the completion, and what comes
      out is one row a key, the last restatement of each. */
  lemma CompletedMeaning(reader: Reader, refuses: nat -> bool, payloads: seq<string>, sent: seq<string>)
    requires var p := Progress([], NO_STATS, sent);
             EndsAtLast(reader, refuses, p, payloads) && HandleAll(reader, refuses, "", p, payloads).Completed?
    ensures var q := HandleAll(reader, refuses, "", Progress([], NO_STATS, sent), payloads).progress;
            var rows := RowsOf(reader, payloads);
            AllUsable(rows)
            && q.sent == sent + EchoesOf(payloads) && q.stats.messages == |payloads|
            && q.stats.heartbeats == |EchoesOf(payloads)|
            && DistinctKeys(q.table)
            && (forall r | r in q.table :: HasKey(rows, KeyOf(r)) && r == LastRow(rows, KeyOf(r)))
            && (forall i | 0 <= i < |rows| :: HasKey(q.table, KeyOf(rows[i])))
  {
    var p := Progress([], NO_STATS, sent);
    var front, last := payloads[..|payloads| - 1], payloads[|payloads| - 1];
    assert payloads == front + [last];
    HandleInTwoParts(reader, refuses, "", p, front, [last]);
    hide HandleAll, HandleOne, RowsFrom, EchoOf;
    var before := HandleAll(reader, refuses, "", p, front).progress;
    LastOnly(reader, refuses, "", before, last);
    ReadingMeaning(reader, refuses, p, front);
    CompletionCarriesNothing(reader, refuses, before, last);
    RowsInTwoParts(reader, front, [last]);
    assert RowsOf(reader, [last]) == [] && EchoesOf([last]) == [];
    var rows := RowsOf(reader, payloads);
    assert rows == RowsOf(reader, front) && EchoesOf(payloads) == EchoesOf(front);
    CollectionKeepsLast(rows);
    assert forall i | 0 <= i < |rows| :: rows[i] in rows;
  }

  lemma {:induction false} RowsInTwoParts(reader: Reader, first: seq<string>, second: seq<string>)
    ensures RowsOf(reader, first + second) == RowsOf(reader, first) + RowsOf(reader, second)
    ensures EchoesOf(first + second) == EchoesOf(first) + EchoesOf(second)
    decreases |first|
  {
    hide RowsFrom, EchoOf;
    if first == [] {
      assert first + second == second;
    } else {
      var later := first[1..];
      assert first + second == [first[0]] + (later + second) && (first + second)[1..] == later + second;
      RowsInTwoParts(reader, later, second);
      Associate(RowsFrom(reader, first[0]), RowsOf(reader, later), RowsOf(reader, second));
      Associate(EchoOf(first[0]), EchoesOf(later), EchoesOf(second));
    }
  }

  lemma Associate<T>(a: seq<T>, b: seq<T>, c: seq<T>)
    ensures a + (b + c) == a + b + c
  {
  }
}
