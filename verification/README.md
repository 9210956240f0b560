# Market-data pipeline: verified model

A Dafny model of the parts of the gold analysis pipeline in which a wrong step would be hard to
see: the streaming codec and session reader, the path from raw rows to closed candles, the
multi-timeframe observation, the channel preview parser, the retry loops, run ids, and the offline
feeds that stand in for the real ones. Code that updates state is modelled by classes and loops,
proved against functions; what the functions mean is proved as lemmas over all inputs.

Verify the project with `dafny verify dfyconfig.toml`.

## Layout

| file | models |
|---|---|
| `Options`, `Numerals`, `Failures` | option and result types, decimal text and its order, the failures of a fetch |
| `WireCodec` | the length-prefixed frames `~m~<length>~m~<payload>` |
| `Messages`, `Session`, `Packets` | message classes and rows; the packet loop; what its result depends on and means |
| `Prices` | exact decimals, half-even quantization, the OHLC order |
| `Calendar`, `Stamps`, `RunIds` | civil dates, fixed-width timestamps (the UTC form of RFC 3339 section 5.6), run identifiers |
| `Timeframes`, `Candles` | durations; rows to candles, order, closed-candle proof, selection, freshness |
| `Escapes` | exactly when a fetch fails with an untyped exception |
| `Verdicts` | how a reading and a fetch end, told from what the payloads say and what the clock reads |
| `MarketSource` | one fetch over a socket, and the retrying, caching load |
| `Snapshots`, `Observation` | the frozen series, and several fetches at one clock reading |
| `PreviewParser` | the channel preview parser as a machine over parser events |
| `ChatClient` | the chat completion client's attempt loop and failure classification |
| `Terminal` | the terminal source: slice, sort, closed-candle proof |
| `OfflineFeeds` | generated series and scripted conversation, from socket to candles |

A connection, connector, transport or terminal is a scripted object: receive number k yields
`script(k)`, send number n fails where the script says so. A clock is an arbitrary sequence of
readings, in microseconds. The JSON reader is an arbitrary function from text to value. So a
statement over all scripts, readings and readers is a statement over all runs.

## Where the code does less than its documentation says

- Run ids are documented as sorting in creation order. Where `%Y` is left to a C library that
  does not pad it (CPython 3.12.0 on glibc, for one), a moment's ids sort before those of every
  later moment exactly from year 1000 on (`RunIds.SortsBeforeLaterExactly`), and earlier ids are
  not valid (`RunIds.IdRoundTrip`). Where it is padded, both hold for every year
  (`RunIds.PaddedIdRoundTrip`, `RunIds.IdsSortByCreation`).
- A comment says keyed collection makes timestamps unique. Keys that differ below the second
  truncate to one timestamp; the series is then refused, never duplicated
  (`Candles.HalfSecondApart`, `Candles.RefusedExactlyForSharedSecond`).
- A fetch is not independent of packets in general: what stands behind the end of the conversation
  in its last packet can decide the verdict (`Packets.TextBehindCompletion`,
  `Packets.TextBehindFailure`), and a bad frame takes the good frames of its packet with it
  (`Packets.BadFrameDiscardsItsPacket`, `Packets.BadFrameApart`).
- Four of the failures modelled escape a fetch untyped: a price of 10^28 or more, a timestamp past
  year 9999, a row keyed by a list or an object, and a payload the schema refuses, which a price of
  at most 0.000000005 makes it do because it becomes zero. `Escapes` says exactly when a
  fetch ends in each.
- A header is refused only when it is complete or cannot become one: digits past the ceiling, and
  zeros without room for another digit, are held back although no continuation can yield a payload
  (`WireCodec.HeldHeaderExactly`). Leading zeros are accepted.
- A later fetch of an observation takes its newest bars at its own instant, so bars that closed
  since the observation push older ones out of the window (`Observation.LateFetchShortens`).
- The terminal source compares against its age limit without the allowance for the bar duration, so
  on a live market a timeframe longer than the limit is refused at times, and no other
  (`Terminal.NeverStaleExactly`).
- A `<br/>` whose end event fires too costs one level of depth wherever it stands. The capture of a
  message's text lasts until the level of its element is used up, so text behind that point is
  lost, and text before it is not (`PreviewParser.ClosedBreaksEndCapture`). A text element within
  a text element starts at level one again, so text behind its end is lost up to the next text
  start (`PreviewParser.TextElementBySegments`, `PreviewParser.NestedTextElements`).

## Model

| member | source | states |
|---|---|---|
| `WireCodec.MatchHeaderExact` | `src/goldpipeline/adapters/tradingview_protocol.py:55-62` | A text starts with the header of a length exactly when that length is the one the header match finds; no text starts with two different headers. |
| `WireCodec.PartialHeader` | `src/goldpipeline/adapters/tradingview_protocol.py:198-223` | The counting loop answers true exactly when the text agrees, as far as both go, with `~m~` + one to nine digits + `~m~`; where no header matches yet, that is being a proper prefix of one. |
| `WireCodec.RejectedHeaderIsHopeless` | `src/goldpipeline/adapters/tradingview_protocol.py:166-176` | A text is refused for its header shape if and only if no continuation whatsoever would ever match a header. |
| `WireCodec.Decode` | `src/goldpipeline/adapters/tradingview_protocol.py:144-195` | A held-back remainder is no longer than the data and never longer than one maximal frame less a character (ceiling + 14); a decode without payloads keeps the whole data. |
| `WireCodec.DecodeFrames` | `src/goldpipeline/adapters/tradingview_protocol.py:144-195` | The cursor loop computes the recursive decode: same payloads, remainder, and refusal with its offset. |
| `WireCodec.ScanIsStable` | `src/goldpipeline/adapters/tradingview_protocol.py:161-195` | Once the head of a stream is a frame or a fault, more text never changes that verdict. |
| `WireCodec.StreamingEqualsBatch` | `src/goldpipeline/adapters/tradingview_protocol.py:144-195` | For all texts a, b: decoding a, then its remainder with b appended, gives the payloads, the remainder and the refusals of decoding a + b. |
| `WireCodec.AnyChunking` | `src/goldpipeline/adapters/tradingview_protocol.py:144-195` | By induction the same for every list of chunks: incremental decoding with a carried remainder is decoding the whole. |
| `WireCodec.RemainderIsPending` | `src/goldpipeline/adapters/tradingview_protocol.py:160-195` | What a decode holds back is held back again, whole, when decoded alone. |
| `WireCodec.DecodeExact` | `src/goldpipeline/adapters/tradingview_protocol.py:144-195` | A decode yields these payloads and this remainder if and only if the data is well-formed frames around exactly those payloads followed by a pending tail equal to that remainder. |
| `WireCodec.FrameRoundTrip` | `src/goldpipeline/adapters/tradingview_protocol.py:126-195` | For every list of payloads of acceptable length, delimiters inside them included, decoding their encodings returns the list; a pending tail behind them is the remainder. |
| `WireCodec.UnacceptableLengthRefused` | `src/goldpipeline/adapters/tradingview_protocol.py:177-188` | A frame around an empty payload, or one past the ceiling, is refused as soon as its header is complete. |
| `WireCodec.EncodedExactly` | `src/goldpipeline/adapters/tradingview_protocol.py:126-132` | A frame is the delimiter, the length of the payload in digits without leading zeros, the delimiter and the payload. |
| `WireCodec.RefusedExactly` | `src/goldpipeline/adapters/tradingview_protocol.py:161-188` | A decode is refused in a given way at a given offset if and only if the data is a run of well-formed frames and behind it, at that offset, text that starts no header and never will, or a header whose length is zero or past the ceiling. |
| `WireCodec.HeldHeaderExactly` | `src/goldpipeline/adapters/tradingview_protocol.py:161-188` | A header still without its second delimiter is held back whatever its digits; some continuation yields a payload if and only if the digits name a length up to the ceiling and are not zero, or are zeros, fewer than nine, with nothing of the delimiter behind them. |
| `Messages.KindExactly` | `src/goldpipeline/adapters/tradingview_protocol.py:101-107` | What a payload counts as, told from its first characters and the name under its "m": heartbeat, the two updates, completion, protocol and critical error, or, exactly when it has no such name, unreadable. |
| `Messages.SeriesRoundTrip` | `src/goldpipeline/adapters/tradingview_protocol.py:294-324` | An update written for a series reads back row by row and in order for it, and as nothing for every other series. |
| `Messages.RowsExactly` | `src/goldpipeline/adapters/tradingview_protocol.py:294-324` | The rows of a message come from the items under its second parameter, the series and "s", and from nowhere else; its parameters are the list under its "p" or none. |
| `Messages.ItemsInTwoParts` | `src/goldpipeline/adapters/tradingview_protocol.py:313-324` | Items are read in order; one with a list under its "v" yields that list, any other yields nothing. |
| `Messages.SameKeyExactly` | `src/goldpipeline/adapters/tradingview_market.py:556-565` | Two rows share a key if and only if their first fields count as the same number, true and false as one and zero, or are the same otherwise. |
| `Messages.PutEffect` | `src/goldpipeline/adapters/tradingview_market.py:556-565` | One dictionary assignment: the new row is in, rows of other keys stay, the old row of the key is gone, keys stay distinct. |
| `Messages.LastRow` | `src/goldpipeline/adapters/tradingview_market.py:496-499` | The row a key keeps is one of the rows received and carries that key. |
| `Messages.CollectionKeepsLast` | `src/goldpipeline/adapters/tradingview_market.py:556-565` | Over the whole message sequence: one row per key that ever arrived, each the last restatement of its key, none lost, none invented. |
| `Session.HandleAll` | `src/goldpipeline/adapters/tradingview_market.py:524-554` | A packet that does not end the reading counts every one of its payloads. |
| `Session.ReceiveSpendsFuel` | `src/goldpipeline/adapters/tradingview_market.py:505-522` | Each receive that does not end the reading strictly lowers (payload budget, room left in the buffer), so the loop ends without any help from the clock. |
| `Session.ReadFrom` | `src/goldpipeline/adapters/tradingview_market.py:491-554` | The reading ends, by the lexicographic measure (4000 - payloads counted, room in the buffer) and without a clock; it never ends undecided. |
| `Session.ReceiveText` | `src/goldpipeline/adapters/tradingview_market.py:567-601` | One receive; a broken socket is a timeout past the deadline and a connection failure before it. |
| `Session.HandlePackets` | `src/goldpipeline/adapters/tradingview_market.py:524-554` | The payload loop that updates table, counters and socket computes the specification of a packet, and the frames sent are the echoes it names. |
| `Session.ReadSeries` | `src/goldpipeline/adapters/tradingview_market.py:491-554` | The packet loop returns what the specified reading returns, sends exactly its echoes, and makes a bounded number of receives whatever the socket and the clock do. |
| `Packets.TailIsIgnoredWhileGoing` | `src/goldpipeline/adapters/tradingview_market.py:545-554` | Until the series completes, the undecoded tail plays no part in handling a packet. |
| `Packets.PacketisationIndependence` | `src/goldpipeline/adapters/tradingview_market.py:491-565` | For every well-framed conversation within the budget that ends at its last payload, every cut into non-empty timely packets gives the result of one pass over its payloads: rows, counters, echoes, verdict. |
| `Packets.SameForEverySplit` | `src/goldpipeline/adapters/tradingview_market.py:491-565` | Any two such cuts of one conversation read alike. |
| `Packets.TextBehindCompletion` | `src/goldpipeline/adapters/tradingview_market.py:545-554` | At any receive and behind any buffered tail: with more text behind `series_completed` in the packet that brings it, the reading still completes if and only if that text is itself whole frames; otherwise it is a framing failure. |
| `Packets.TextBehindFailure` | `src/goldpipeline/adapters/tradingview_market.py:521-544` | At any receive and behind any buffered tail: where the conversation ends in a failure of its own, that failure is the verdict with whole or unfinished frames behind it in the packet, and a framing failure with nothing handled if what is behind is malformed. |
| `Packets.BadFrameDiscardsItsPacket` | `src/goldpipeline/adapters/tradingview_market.py:521-525` | At any receive and behind any buffered tail, good frames in front of a bad one in the same packet are not handled at all, whatever they say. |
| `Packets.BadFrameApart` | `src/goldpipeline/adapters/tradingview_market.py:505-554` | With the bad frame in a packet of its own the good ones are handled first: what ends the reading in them is the verdict, and only otherwise the framing failure, or the exhausted budget. |
| `Packets.CompletedIsBatch` | `src/goldpipeline/adapters/tradingview_market.py:491-554` | In every run at all, a completed reading is the single pass over the frames of the text received up to then, with nothing unfinished. |
| `Packets.CollectedRows` | `src/goldpipeline/adapters/tradingview_market.py:556-565` | Collecting succeeds if and only if every row has five fields and a hashable key, and then it is keyed assignment of them all. |
| `Packets.ReadingMeaning` | `src/goldpipeline/adapters/tradingview_market.py:524-565` | As long as nothing fails, a run of payloads collects every row it carries by key, echoes every heartbeat once and in order, and counts them. |
| `Packets.CompletedMeaning` | `src/goldpipeline/adapters/tradingview_market.py:491-565` | A completed conversation yields one row per key, the last restatement of each; echoes every heartbeat frame back in order; and counts all payloads and heartbeats. |
| `Verdicts.PayloadVerdict` | `src/goldpipeline/adapters/tradingview_market.py:524-565` | For every payload, told from its text and the value it parses to: it ends the reading as critical or protocol error if and only if its "m" says so, as connection failure if and only if its echo is refused, as candle fault or untyped failure if and only if its first unusable row is short or has an unhashable key, as framing failure or success if and only if it says the series completed with or without text behind; otherwise the reading goes on. |
| `Verdicts.PayloadCounts` | `src/goldpipeline/adapters/tradingview_market.py:524-537` | Every payload is counted, as unreadable if and only if it is, and a heartbeat is echoed as it came; nothing else is sent. |
| `Verdicts.PacketVerdict` | `src/goldpipeline/adapters/tradingview_market.py:524-565` | A packet fails in a given way, or completes, if and only if some payload does and all before it go on, both told from what the payloads say. |
| `Verdicts.CompletedSaysNoError` | `src/goldpipeline/adapters/tradingview_market.py:533-543` | A conversation that completes at its last payload says critical or protocol error nowhere, and that it completes nowhere before. |
| `Verdicts.PacketCounts` | `src/goldpipeline/adapters/tradingview_market.py:524-530` | As long as nothing fails all payloads are counted, and the unreadable ones among them as such. |
| `Verdicts.ReadingVerdict` | `src/goldpipeline/adapters/tradingview_market.py:505-601` | A reading fails in a given way if and only if it goes on to a receive at which the budget is spent, the deadline past, the socket broken or closed, the text undecodable or a payload failing in that way; it completes if and only if it goes on to a packet that does. |
| `Prices.RescaledIsNearest` | `src/goldpipeline/adapters/tradingview_market.py:659-698` | Integer half-even division is rounding of the exact value to the nearest unit of the last place, ties to even. |
| `Prices.QuantizeRounds` | `src/goldpipeline/adapters/tradingview_market.py:659-698` | A quantized price is written with the places asked for and is the value so rounded. |
| `Prices.FeedPriceRounds` | `src/goldpipeline/adapters/tradingview_market.py:659-698` | Whatever precision a price came with, its form is its value rounded half-even to the eighth decimal; with at most eight decimals it is the value itself. |
| `Prices.FeedPriceError` | `src/goldpipeline/adapters/tradingview_market.py:659-698` | The error is at most half a unit of the eighth decimal. |
| `Prices.FeedPriceIdempotent` | `src/goldpipeline/adapters/tradingview_market.py:659-698` | Quantizing a quantized price changes neither value nor form. |
| `Prices.FeedPriceMonotone` | `src/goldpipeline/adapters/tradingview_market.py:659-698` | Order survives, also between prices written with different precisions. |
| `Prices.FeedPricePositive` | `src/goldpipeline/adapters/tradingview_market.py:659-698` | A positive price stays positive if and only if it exceeds 0.000000005; otherwise it becomes zero. |
| `Prices.FeedPriceFails` | `src/goldpipeline/adapters/tradingview_market.py:659-698` | The conversion fails, with the decimal library's own error, if and only if the price is at least 10^28. |
| `Prices.ConversionKeepsCandleOrder` | `src/goldpipeline/adapters/tradingview_market.py:715-742` | A candle whose raw prices satisfy the OHLC relationships passes the OHLC check after conversion. |
| `Prices.TerminalPriceMonotone` | `src/goldpipeline/adapters/mt5_market.py:421-433` | At one stated precision the terminal form keeps order and writes exactly that many places, between 0 and 8. |
| `Prices.TerminalPriceRounds` | `src/goldpipeline/adapters/mt5_market.py:421-433` | The terminal form is the value rounded half-even to the stated precision, or its own where none is stated, held between none and eight places. |
| `Calendar.FromSeconds` | `src/goldpipeline/adapters/tradingview_market.py:640-657` | The moment a second converts to is a valid date and time, and denotes that second. |
| `Calendar.FromSecondsInverts` | `src/goldpipeline/domain/run_id.py:48-57` | Every valid moment of years 1 to 9999 is the moment of its own second. |
| `Calendar.CalendarMonotone` | `src/goldpipeline/domain/run_id.py:30-40` | Leap years and month lengths included, moments compare field by field as their instants do. |
| `Calendar.EpochIsZero` | `src/goldpipeline/domain/run_id.py:48-57` | Seconds count from the first of 1970. |
| `Calendar.NextDate` | `src/goldpipeline/domain/run_id.py:48-57` | 86400 seconds after the midnight of a date is the midnight of the next: months have their civil lengths, and leap years are those divisible by four but not a hundred, or by four hundred. |
| `Stamps.FieldOrder` | `src/goldpipeline/domain/run_id.py:30-40` | Fixed-width text of any layout, with anything behind it, compares as its field values do, and by what follows when they are equal. |
| `Stamps.FieldRoundTrip` | `src/goldpipeline/domain/run_id.py:48-57` | Reading such text back returns its fields and what follows them. |
| `Stamps.FieldsReadAreText` | `src/goldpipeline/domain/run_id.py:24-24` | Whatever reads back as fields is exactly their fixed-width text. |
| `Stamps.IsoRoundTrip` | `src/goldpipeline/adapters/tradingview_market.py:891-892` | A whole UTC second survives being written as ISO text and read back. |
| `Stamps.IsoOrder` | `src/goldpipeline/adapters/mt5_market.py:184-184` | ISO text of whole UTC seconds orders exactly as the instants, so sorting by the string is chronological. |
| `Stamps.IsoLayout` | `src/goldpipeline/adapters/tradingview_market.py:891-892` | The text is four digits of year and two each of month, day, hour, minute and second, with hyphens, T, colons and Z between and behind. |
| `Stamps.FromIsoExactly` | `src/goldpipeline/adapters/tradingview_market.py:757-758` | A text reads as a second if and only if it is the timestamp of that second. |
| `RunIds.IdRoundTrip` | `src/goldpipeline/domain/run_id.py:30-57` | The id of a moment reads back to its second whatever the suffix, if and only if its year has four digits; an earlier year gives an id that is not valid. |
| `RunIds.IdsSortByCreation` | `src/goldpipeline/domain/run_id.py:9-11` | Of any two valid ids the one created in an earlier second sorts first. |
| `RunIds.SortsBeforeLaterExactly` | `src/goldpipeline/domain/run_id.py:9-11` | The ids of a moment sort before the ids of every later moment, whatever the suffixes, if and only if its year has four digits. |
| `RunIds.EarlyYearsSortLast` | `src/goldpipeline/domain/run_id.py:9-11` | Every id of a year before 1000 sorts after every id of the first day of year 1000. |
| `RunIds.PaddedIdRoundTrip` | `src/goldpipeline/domain/run_id.py:30-57` | Where the year is printed in four digits whatever its size, the id of every moment is valid and reads back; from year 1000 on both forms of the id are one. |
| `RunIds.IdLayout` | `src/goldpipeline/domain/run_id.py:30-40` | An id is year, month and day, an underscore, hour, minute and second, an underscore and the suffix, padded but for the year where the platform leaves it. |
| `RunIds.CreatedAtExactly` | `src/goldpipeline/domain/run_id.py:24-57` | A text is a valid id of a second if and only if it is the padded id of a moment of that second with six lower-case hexadecimal characters behind. |
| `Timeframes.Duration` | `src/goldpipeline/schemas/common.py:89-117` | A fixed duration is a positive whole number of minutes; months have none. |
| `Timeframes.NameSaysDuration` | `src/goldpipeline/schemas/common.py:89-117` | The duration of a timeframe is what its name says: so many minutes, hours, days or weeks; months have none. |
| `Candles.SecondIsTruncation` | `src/goldpipeline/adapters/tradingview_market.py:640-657` | A timestamp names a second if and only if it is a number that truncates to that second, from the earliest accepted one to the end of year 9999. |
| `Candles.CandleOfRow` | `src/goldpipeline/adapters/tradingview_market.py:622-638` | For every accepted row: open, high, low and close are its second to fifth field rounded half-even to eight places, the volume is its sixth where that is a number not below zero, and the opening second is its first, truncated. |
| `Candles.RowAcceptedExactly` | `src/goldpipeline/adapters/tradingview_market.py:622-742` | A row is accepted if and only if its first field truncates to a usable second at most two days ahead of the clock, its prices are positive numbers the decimal context can hold, and rounded they are in OHLC order. |
| `Candles.StampOrder` | `src/goldpipeline/adapters/tradingview_market.py:612-614` | Candle timestamps compare as text exactly as their opening seconds compare. |
| `Candles.SortIsChronological` | `src/goldpipeline/adapters/tradingview_market.py:612-612` | The sort by timestamp text permutes the candles into chronological order. |
| `Candles.NormaliseMeaning` | `src/goldpipeline/adapters/tradingview_market.py:603-620` | A normalised series is strictly ascending and holds exactly one candle for every row. |
| `Candles.RefusedExactlyForSharedSecond` | `src/goldpipeline/adapters/tradingview_market.py:603-620` | With every row acceptable on its own, the series is refused if and only if two rows truncate to one second; there is never a duplicate. |
| `Candles.HalfSecondApart` | `src/goldpipeline/adapters/tradingview_market.py:614-619` | Distinct keys do not prevent that: rows of a second and of half a second later are two entries, and with sound prices, not too far ahead of the clock, are refused together. |
| `Candles.ClosedIsPrefix` | `src/goldpipeline/adapters/tradingview_market.py:744-759` | In a series in order, the closed candles are exactly a prefix. |
| `Candles.ChoiceIsNewestClosed` | `src/goldpipeline/adapters/tradingview_market.py:391-405` | What is selected is the contiguous run of `limit` candles ending where the closed prefix ends. |
| `Candles.SelectionIsNewestClosed` | `src/goldpipeline/adapters/tradingview_market.py:389-407` | Every successful fetch returns exactly `limit` candles, strictly ascending, each closed at the closing reading of the clock and made from a received row; every received closed candle not among them opens earlier than all of them. |
| `Candles.ReturnedCandles` | `src/goldpipeline/adapters/tradingview_market.py:389-407` | Every candle returned is that of a received row, each field in its place. |
| `Candles.ChoiceVerdict` | `src/goldpipeline/adapters/tradingview_market.py:391-426` | Of a series in order: too few if and only if the `limit`-th has not closed; stale if and only if the newest closed one closed longer ago than the limit; otherwise the candles end with that one, and the counts are those received and those not closed. |
| `Candles.AtMostTwoForming` | `src/goldpipeline/adapters/tradingview_market.py:149-157` | Candles spaced at least one duration apart, none opening later than one duration from now: at most two have not closed. |
| `Candles.MarginSuffices` | `src/goldpipeline/adapters/tradingview_market.py:391-405` | So `limit` + 2 such candles never fail the fetch for lack of closed ones. |
| `Candles.StalenessIsLateness` | `src/goldpipeline/adapters/tradingview_market.py:761-790` | With a budget of minutes plus one bar duration, a series is refused if and only if the bar due next should have closed more than the budget ago. |
| `Candles.LiveFeedIsFresh` | `src/goldpipeline/adapters/tradingview_market.py:761-790` | A live feed, whose forming candle follows the newest closed one, is never refused as stale on any timeframe and whatever gaps lie further back, as long as the freshness reading comes within the budget of the closing one. |
| `Escapes.CollectFailsAt` | `src/goldpipeline/adapters/tradingview_market.py:556-565` | The first row that cannot be collected decides: too few fields is a candle fault, a list or an object for a key the untyped failure. |
| `Escapes.UnhashableExactly` | `src/goldpipeline/adapters/tradingview_market.py:556-565` | Collecting fails over an unhashable key if and only if the first unusable row has fields enough and a list or an object for its key. |
| `Escapes.FirstFailureDecides` | `src/goldpipeline/adapters/tradingview_market.py:611-611` | Conversion fails in a given way if and only if the first row that makes no candle fails in that way. |
| `Escapes.OutOfRangeExactly` | `src/goldpipeline/adapters/tradingview_market.py:640-657` | The rows are refused over a date no datetime holds if and only if the first row that makes no candle is stamped past year 9999. |
| `Escapes.OverflowExactly` | `src/goldpipeline/adapters/tradingview_market.py:659-698` | They fail in the decimal library if and only if the first row that makes no candle passes every check up to a price of at least 10^28. |
| `Escapes.RejectedExactly` | `src/goldpipeline/adapters/tradingview_market.py:405-410` | The payload schema refuses over a price if and only if the series is long and fresh enough and a row behind one of the chosen candles has a price of at most 0.000000005. |
| `Escapes.ReadingFailures` | `src/goldpipeline/adapters/tradingview_market.py:491-565` | A reading fails in no other way than by a timeout, a connection, framing, protocol, critical or candle failure, or an unhashable key; and in the last if and only if it goes on up to a packet that reaches an update whose first unusable row has such a key. |
| `Escapes.FetchUnhashableExactly` | `src/goldpipeline/adapters/tradingview_market.py:374-387` | A fetch fails over an unhashable key if and only if its socket opens, its commands all go, and its reading goes on up to such an update. |
| `Escapes.FetchOutOfRangeExactly` | `src/goldpipeline/adapters/tradingview_market.py:374-410` | A fetch fails over a date if and only if its reading completes with rows of which the first that makes no candle is stamped past year 9999. |
| `Escapes.FetchOverflowExactly` | `src/goldpipeline/adapters/tradingview_market.py:374-410` | A fetch fails in the decimal library if and only if its reading completes with rows of which the first that makes no candle passes every check up to a price of at least 10^28. |
| `Escapes.FetchRejectedExactly` | `src/goldpipeline/adapters/tradingview_market.py:374-410` | The payload of a fetch is refused over a price if and only if its reading completes with a series long and fresh enough and a row behind one of the chosen candles has a price of at most 0.000000005. |
| `MarketSource.StreamingSource.OpenSeries` | `src/goldpipeline/adapters/tradingview_market.py:446-489` | The commands go out in order, one frame each, up to the first that fails. |
| `MarketSource.StreamingSource.ConvertRows` | `src/goldpipeline/adapters/tradingview_market.py:611-611` | Rows are converted in turn, each at its own reading of the clock, up to the first unusable one. |
| `MarketSource.StreamingSource.NormaliseRows` | `src/goldpipeline/adapters/tradingview_market.py:603-620` | Conversion, sort and duplicate check together are the normalisation the lemmas of Candles speak of. |
| `MarketSource.StreamingSource.Converse` | `src/goldpipeline/adapters/tradingview_market.py:382-384` | The handshake, then the specified reading of the socket. |
| `MarketSource.StreamingSource.SelectCandles` | `src/goldpipeline/adapters/tradingview_market.py:389-410` | Normalising, closing, counting, choosing, freshness and schema, in this order, each time-dependent decision at its own clock reading. |
| `MarketSource.StreamingSource.Fetch` | `src/goldpipeline/adapters/tradingview_market.py:374-410` | One attempt returns what the opening and the clock readings determine; it opens at most one socket, and every socket opened so far has been closed exactly once on whatever path it ended. |
| `MarketSource.StreamingSource.Attempt` | `src/goldpipeline/adapters/tradingview_market.py:362-366` | A success is cached, a failure is not; the log of fetches grows by this one and no socket opened earlier leaves the list of sockets. |
| `MarketSource.StreamingSource.Load` | `src/goldpipeline/adapters/tradingview_market.py:333-370` | Over any run of calls: there is one socket for every call that connected, none is ever forgotten, and each has been closed exactly once; one call makes at most `max_retries` + 1 attempts, all before the last transport failures; after a success nothing is fetched or opened again. |
| `Verdicts.HandshakeExactly` | `src/goldpipeline/adapters/tradingview_market.py:446-489` | The commands go out as frames, in order, up to and with the first refused; the handshake is done if and only if none is. |
| `Verdicts.FetchNotAsked` | `src/goldpipeline/adapters/tradingview_market.py:374-382` | A fetch whose socket does not open or whose commands do not all go fails as not installed or as a connection failure. |
| `Verdicts.FetchTimesOutExactly` | `src/goldpipeline/adapters/tradingview_market.py:374-387` | A fetch times out if and only if, at the receive its reading has reached, the clock before it, or behind it when the socket breaks, is past the start of the fetch by more than the timeout. |
| `Verdicts.TimelyNeverTimesOut` | `src/goldpipeline/adapters/tradingview_market.py:374-387` | A fetch whose readings all stay within the timeout never times out. |
| `Verdicts.FetchedCandles` | `src/goldpipeline/adapters/tradingview_market.py:374-407` | From socket to fields: what a successful fetch returns are `limit` closed candles in order, each that of a row its reading collected, every field in its place. |
| `MarketSource.LegalRunIsUnique` | `src/goldpipeline/adapters/tradingview_market.py:357-370` | For one sequence of attempt outcomes only one run satisfies that description. |
| `MarketSource.FetchIgnoresPackets` | `src/goldpipeline/adapters/tradingview_market.py:374-407` | However a well-framed conversation is cut into packets, the whole fetch gives the same candles or the same failure. |
| `Snapshots.BuildTimeframeSnapshot` | `src/goldpipeline/schemas/ict.py:212-243` | What is built satisfies the series validator. |
| `Snapshots.BuiltExactly` | `src/goldpipeline/schemas/ict.py:212-243` | A snapshot is built if and only if the timeframe has a fixed duration, some bars had closed, and those ascend; it holds exactly those bars; each refusal is told from the first of these that fails. |
| `Snapshots.ValidatedHoldsOnlyClosed` | `src/goldpipeline/schemas/ict.py:80-125` | Whatever passes the two validators holds no bar, in any timeframe, that closes after the observation, though only each newest close is compared. |
| `Snapshots.FilterComposes` | `src/goldpipeline/schemas/ict.py:228-231` | Keeping what closed by t1 and then by t2 <= t1 is keeping what closed by t2. |
| `Snapshots.RebuildEqualsDirect` | `src/goldpipeline/schemas/ict.py:212-243` | A snapshot rebuilt at the same or an earlier instant is the snapshot taken directly at that instant. |
| `Snapshots.LaterBarsDoNotMatter` | `src/goldpipeline/schemas/ict.py:228-231` | Bars closing after the instant may be inserted, removed or replaced anywhere: the series stays alike up to the instant. |
| `Observation.AllowanceMeasuresLateness` | `src/goldpipeline/adapters/mtf_market.py:155-177` | With the allowance of a timeframe, its series is refused if and only if the next bar is more than the configured budget late. |
| `Observation.MultiTimeframeSource.Take` | `src/goldpipeline/adapters/mtf_market.py:199-296` | The fetch loop computes the specified observation and reads the clock once. |
| `Observation.ObservationMeaning` | `src/goldpipeline/adapters/mtf_market.py:199-296` | A successful observation has one part for each timeframe asked for, equal to the snapshot of that fetch alone at the one instant, all of one instrument and no timeframe twice, and no bar anywhere closes after the instant. |
| `Observation.ObservesExactly` | `src/goldpipeline/adapters/mtf_market.py:199-296` | An observation succeeds if and only if every answer is a non-empty series of the first one's symbol, of fixed duration, with closed bars that ascend, and no timeframe repeats; it then holds exactly the closed bars, the market of the first answer and a true record of each fetch. Otherwise the first timeframe that is not so decides, with the error its answer tells. |
| `Observation.NoLookAhead` | `src/goldpipeline/adapters/mtf_market.py:199-296` | If every fetched series is changed only in bars closing after the instant, snapshot, error and fetch records are the same, but for the count of bars received. |
| `Observation.KeepIsPrefix` | `src/goldpipeline/schemas/ict.py:228-231` | In a series in order, the bars closed by an instant are exactly a prefix. |
| `Observation.LateFetchShortens` | `src/goldpipeline/adapters/mtf_market.py:211-251` | How the timing of a fetch does show: each candle closing between the instant and the fetch pushes one older candle out of its window; what remains is exactly the window less those, and nothing once `limit` have closed. |
| `PreviewParser.Parser.HandleStartTag` | `src/goldpipeline/adapters/telegram_preview.py:181-202` | A start tag: flush at a message id, time, start of text, depth, line break. |
| `PreviewParser.Parser.HandleEndTag` | `src/goldpipeline/adapters/telegram_preview.py:204-206` | An end tag leaves one level. |
| `PreviewParser.Parser.HandleData` | `src/goldpipeline/adapters/telegram_preview.py:208-210` | Text counts only inside a text element. |
| `PreviewParser.Parser.FlushMessage` | `src/goldpipeline/adapters/telegram_preview.py:214-233` | A new id is emitted with what was captured, a repeated or missing one is dropped with its chunks. |
| `PreviewParser.ParsePage` | `src/goldpipeline/adapters/telegram_preview.py:240-258` | The messages of the event loop, or an error for a page that has none. |
| `PreviewParser.ParserReadsStretches` | `src/goldpipeline/adapters/telegram_preview.py:155-237` | For every event stream the machine emits what the page says stretch by stretch: each message is read off the events between its own `data-post` and the next, at the text depth carried into it. |
| `PreviewParser.FirstAppearancesMeaning` | `src/goldpipeline/adapters/telegram_preview.py:218-221` | The list of first appearances has the same values, each once. |
| `PreviewParser.FirstTimeExactly` | `src/goldpipeline/adapters/telegram_preview.py:190-191` | The time of a message is that of the first time tag of its stretch that parses, or none. |
| `PreviewParser.EmittedOnceInOrder` | `src/goldpipeline/adapters/telegram_preview.py:214-233` | For every event stream the emitted ids are exactly its positive ids, each once, in order of first appearance. |
| `PreviewParser.BalancedCapture` | `src/goldpipeline/adapters/telegram_preview.py:193-210` | Inside a text element, balanced content is captured whole and leaves the depth as it was. |
| `PreviewParser.TextElementCapture` | `src/goldpipeline/adapters/telegram_preview.py:193-210` | A whole text element gives exactly the text of its subtree, and capturing is over when it closes. |
| `PreviewParser.MessageTextIsSubtreeText` | `src/goldpipeline/adapters/telegram_preview.py:155-237` | A message with one text element of balanced content has exactly that subtree's text, whatever surrounds it. |
| `PreviewParser.CaptureUpToCut` | `src/goldpipeline/adapters/telegram_preview.py:193-210` | For any run of content without text starts: the depth is the starting depth plus the elements open less the closed breaks passed, until that is used up, and the capture is exactly the text up to there. |
| `PreviewParser.CutIsWhereLevelEnds` | `src/goldpipeline/adapters/telegram_preview.py:193-206` | That point is the first at which starting depth, open elements and closed breaks cancel out, or the end. |
| `PreviewParser.ClosedBreaksEndCapture` | `src/goldpipeline/adapters/telegram_preview.py:193-210` | A text element without others within, with any number of `<br/>` that fire an end event, at any depth: each costs one level, the capture is the text before the level is used up, and it is whole if and only if nothing with text lies behind that point. |
| `PreviewParser.TextSeenIsWhole` | `src/goldpipeline/adapters/telegram_preview.py:193-210` | The text seen of a text element is all of it if and only if none is lost behind a cut; plain content is always seen whole. |
| `PreviewParser.PartsSeenAreWhole` | `src/goldpipeline/adapters/telegram_preview.py:155-237` | A message text made of several text elements is whole if and only if none of them loses any. |
| `PreviewParser.SelfClosingBreakEndsCapture` | `src/goldpipeline/adapters/telegram_preview.py:197-206` | The shortest case: one such break directly inside the text element ends the capture there. |
| `PreviewParser.PageOfBlocks` | `src/goldpipeline/adapters/telegram_preview.py:155-258` | A page of messages, each with any number of text elements and anything without text starts around them, is parsed to one message per new positive id, in order: that id, the first readable time, and the text seen in its elements, one after another. |
| `PreviewParser.CaptureBySegments` | `src/goldpipeline/adapters/telegram_preview.py:193-210` | For content of any kind, balanced or not: every text start begins a segment at level one, and the capture is the sum of the segments' texts, each up to the point where its own level is used up. |
| `PreviewParser.StreamBySegments` | `src/goldpipeline/adapters/telegram_preview.py:193-210` | The same for every stream of parser events whatsoever, started at any depth. |
| `PreviewParser.SeenIsAll` | `src/goldpipeline/adapters/telegram_preview.py:193-210` | The capture is all the text there is if and only if no segment has text behind that point. |
| `PreviewParser.TextElementBySegments` | `src/goldpipeline/adapters/telegram_preview.py:193-210` | A text element with closed breaks and further text elements within, at any depth and in any number: the capture is the text of its segments up to their cuts, whole if and only if nothing with text lies behind any of them, and is over when the element closes. |
| `PreviewParser.NestedTextElements` | `src/goldpipeline/adapters/telegram_preview.py:193-202` | With plain content, any number of text elements directly within one are captured along with what precedes the first; what stands behind one up to the next is lost, so the text is whole if and only if nothing with text stands there. |
| `PreviewParser.NestedTextElementEndsCapture` | `src/goldpipeline/adapters/telegram_preview.py:193-202` | The shortest case: plain content behind a single inner text element is lost. |
| `ChatClient.RetriesExactlyMomentary` | `src/goldpipeline/adapters/deepseek_client.py:242-276` | For both stages and every outcome: the failure is retryable, as judged by error code and status, if and only if the outcome was an unreachable host or one of the six statuses; never a timeout, redirect, refusal or unreadable answer. |
| `ChatClient.Complete` | `src/goldpipeline/adapters/deepseek_client.py:176-196` | The attempt loop makes at most `max_retries` + 1 posts and at most four, and returns the specified result; with no attempt configured it posts nothing and fails. |
| `ChatClient.CompleteMeaning` | `src/goldpipeline/adapters/deepseek_client.py:176-196` | For every outcome sequence: between 1 and min(`max_retries` + 1, 4) posts, the result is that of the last one, every earlier one was momentary, and stopping early takes an outcome that is not. |
| `ChatClient.AttemptExactly` | `src/goldpipeline/adapters/deepseek_client.py:200-276` | One post returns a content if and only if it is answered 2xx with that content; otherwise it is refused as timeout, provider, configuration or response failure by what it met, with the status where there is one. |
| `ChatClient.CompleteExactly` | `src/goldpipeline/adapters/deepseek_client.py:176-196` | The whole returns a content if and only if its last post delivers it, else refuses as that post is refused; all earlier posts were momentary failures, and stopping early takes one that is not. |
| `Terminal.RatesMeaning` | `src/goldpipeline/adapters/mt5_market.py:297-325` | Every converted row carries the ISO text of its own opening second. |
| `Terminal.ReturnedRatesAreClosed` | `src/goldpipeline/adapters/mt5_market.py:183-187` | Whatever is returned is the converted rows, permuted into chronological order; checking the newest bar proves every one closed, give or take the five-second tolerance. |
| `Terminal.BarOfRate` | `src/goldpipeline/adapters/mt5_market.py:297-325` | Every converted row keeps its time and its prices, each in its place and rounded to the precision, and its real volume where reported and not zero, else its tick volume. |
| `Terminal.RatesVerdict` | `src/goldpipeline/adapters/mt5_market.py:183-187` | Of rows that convert: forming if and only if the newest closes more than five seconds ahead, stale if and only if it closed longer ago than the limit; otherwise every row has its bar, in order, or the schema refuses them. |
| `Terminal.NeverStaleExactly` | `src/goldpipeline/adapters/mt5_market.py:327-364` | Rows whose newest bar is followed by the forming one are never refused as stale, at any instant of that bar, if and only if the bar duration is within the age limit. |
| `Terminal.TerminalSource.Fetch` | `src/goldpipeline/adapters/mt5_market.py:162-206` | Symbol, rates, conversion, sort, proof and schema in this order; every successful initialize is matched by one shutdown on every path. |
| `Terminal.FetchExactly` | `src/goldpipeline/adapters/mt5_market.py:162-295` | Told from the terminal, in this order: not reached, symbol missing, hidden and not selected, history failing, too few rows behind the first, else the verdict on the rows from position one on. |
| `Terminal.TerminalSource.Load` | `src/goldpipeline/adapters/mt5_market.py:144-160` | A success is kept and the terminal not asked again; a failure is the fetch's own, and not kept. |
| `OfflineFeeds.MakeRates` | `src/goldpipeline/adapters/fake_mt5.py:53-92` | Row i opens i periods before the current boundary and carries the candle around the closing price i steps down, to two decimals, and its volumes. |
| `OfflineFeeds.OnlyIndexZeroForms` | `src/goldpipeline/adapters/fake_mt5.py:53-92` | At the generating instant, sub-second part or not, all rows have opened and exactly index 0 has not closed, if and only if the boundary is not behind the instant; from 1970 on it never is. |
| `OfflineFeeds.BoundaryInTime` | `src/goldpipeline/adapters/fake_mt5.py:71-75` | The boundary is behind the instant only for an instant before 1970 with a sub-second part, less than a second before a boundary. |
| `OfflineFeeds.SliceFromOneIsClosed` | `src/goldpipeline/adapters/mt5_market.py:327-350` | A slice from position 1 is never refused as forming, and is refused as stale if and only if the current period began longer ago than the age limit. |
| `OfflineFeeds.MakeSeries` | `src/goldpipeline/adapters/fake_tradingview.py:45-84` | Oldest first, each row a period after the one before, the last at the current boundary, with the candle around its closing price to five decimals and its volume. |
| `OfflineFeeds.QuoteIsAround` | `src/goldpipeline/adapters/fake_tradingview.py:69-83` | A generated candle opens half a step below its closing price and reaches one step to either side, each to half a unit of its last decimal. |
| `OfflineFeeds.GeneratedPrices` | `src/goldpipeline/adapters/fake_tradingview.py:69-83` | The prices of the generated feeds: two decimals for rates and five for series, around a closing price that falls a step with every bar into the past. |
| `OfflineFeeds.SeriesIsSound` | `src/goldpipeline/adapters/fake_tradingview.py:69-83` | As long as the lowest low stays above half a unit of the fifth decimal, every generated candle is in order and converts to positive prices. |
| `OfflineFeeds.DefaultSeriesIsSound` | `src/goldpipeline/adapters/fake_tradingview.py:45-52` | With the default prices that holds for every number of candles a source may ask for. |
| `OfflineFeeds.GeneratedNormalises` | `src/goldpipeline/adapters/fake_tradingview.py:45-84` | Read by a clock that has not run behind the instant, a generated series normalises. |
| `OfflineFeeds.AllButLastClosed` | `src/goldpipeline/adapters/fake_tradingview.py:45-84` | All its bars but the last have closed. |
| `OfflineFeeds.LastTwoBars` | `src/goldpipeline/adapters/fake_tradingview.py:45-84` | Its last two candles open at the current boundary and one period before. |
| `OfflineFeeds.GeneratedSeriesIsEnough` | `src/goldpipeline/cli.py:1652-1654` | With any age limit or none: rows of `limit` + 2 generated bars give exactly the newest `limit` closed candles, at most one dropped, or `StaleData`, and the latter if and only if the newest closed one closed longer before the freshness reading than the limit. |
| `OfflineFeeds.AllowedSeriesIsFresh` | `src/goldpipeline/cli.py:1751-1763` | With the allowance of its timeframe it is refused if and only if the bar due next is later than the budget; never up to the budget after the end of the bar the instant falls inside. |
| `OfflineFeeds.ConversationReads` | `src/goldpipeline/adapters/fake_tradingview.py:132-147` | The scripted conversation, with any chatter and heartbeats in front or none, completes at its last payload and yields its rows unchanged. |
| `OfflineFeeds.ScriptedFetchSucceeds` | `src/goldpipeline/cli.py:1652-1654` | Socket to candles: that conversation, cut into packets in any way and read by a clock never behind the generating instant, gives exactly `limit` closed candles, or `StaleData` if and only if the newest closed one is older than the configured age. |
| `OfflineFeeds.ScriptedFetchCandles` | `src/goldpipeline/cli.py:1652-1654` | What it returns are the newest closed candles of the generated series, one period apart up to the newest close, each with the prices of its own quote. |
| `OfflineFeeds.ScriptedFetchWithAllowance` | `src/goldpipeline/cli.py:1751-1763` | With the allowance of its timeframe the fetch succeeds whenever the freshness check comes no later than the budget after the end of the bar the instant falls inside. |

## Left out

- Real sockets, HTTP, the terminal's own calls and SDK errors: scripted outcomes take their place.
- JSON and HTML tokenizing: the JSON reader is a parameter, and the preview parser's input is an event stream.
- The whitespace cleanup of a message's text: the captured text is modelled before it.
- Conversion between floats and text: prices are exact decimals; NaN, infinities and the overflow of huge integers are not modelled, and the freshness division and the prices of the generated feeds are taken exactly.
- Digits outside ASCII in headers and run ids.
- The text of the opening commands: the handshake is a list of payloads, its order and framing are modelled.
- The normaliser between source and snapshot: it answers with some bars or fails; naive timestamps and their zone are not modelled. The snapshot builder and its validators check the order themselves.
- Payload limits of the schemas other than positive prices and the OHLC order.
- Configuration checks of symbol, timeframe, limit and age; credentials, settings, logging, error texts and provenance records. An observation over no timeframes is excluded by a precondition, as its constructor refuses it.
- The candidate listing and timeframe constants of the terminal, and rows it returns with missing columns.
- The body checks of a chat completion: an answer has a usable visible text or not; the retry-after header is only reported.
- The orchestrator, publisher, ledger, inbox, retry store and gates, and everything behind the command line.
