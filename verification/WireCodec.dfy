/** The length-prefixed wire format: `~m~<length>~m~<payload>`, encoded and
    incrementally decoded. */
module WireCodec {
  import opened Numerals

  const DELIMITER := "~m~"
  const MAX_FRAME_LENGTH: nat := 4 * 1024 * 1024

  /** The longest tail a decode can hold back: a nine-digit header and all but
      the last character of the longest body. */
  const MAX_REMAINDER: nat := MAX_FRAME_LENGTH + 14

  datatype Fault =
    | NoHeader(offset: nat)
    | ZeroLength(offset: nat)
    | PastCeiling(declared: nat)

  datatype Decoding =
    | Decoded(payloads: seq<string>, remainder: string)
    | Malformed(fault: Fault)

  function EncodeFrame(payload: string): string {
    DELIMITER + Decimal(|payload|) + DELIMITER + payload
  }

  function Join(parts: seq<string>): string {
    if parts == [] then "" else parts[0] + Join(parts[1..])
  }

  // ----- headers -------------------------------------------------------------

  /** What may stand between the two delimiters: one to nine digits. */
  predicate IsLength(digits: string) {
    1 <= |digits| <= 9 && AllDigits(digits)
  }

  function HeaderText(digits: string): string {
    DELIMITER + digits + DELIMITER
  }

  /** `rest` and the header of some length agree as far as both of them go: it
      starts with that header, or is still a prefix of it. */
  ghost predicate AgreesWithHeader(rest: string) {
    exists digits :: IsLength(digits) && (HeaderText(digits) <= rest || rest <= HeaderText(digits))
  }

  function DigitRun(s: string): (n: nat)
    ensures n <= |s| && AllDigits(s[..n]) && (n < |s| ==> !IsDigit(s[n]))
  {
    if s == "" || !IsDigit(s[0]) then 0 else 1 + DigitRun(s[1..])
  }

  /** The length digits of the header `rest` starts with, or "" for no match. */
  function MatchHeader(rest: string): (digits: string)
    ensures digits != "" ==> IsLength(digits) && |digits| + 6 <= |rest|
  {
    if !(DELIMITER <= rest) then ""
    else
      var digits := rest[3..][..DigitRun(rest[3..])];
      if IsLength(digits) && HeaderText(digits) <= rest then digits else ""
  }

  /** At most one header matches, and it is the one found. */
  lemma MatchHeaderExact(rest: string, digits: string)
    requires IsLength(digits)
    ensures HeaderText(digits) <= rest <==> MatchHeader(rest) == digits
  {
    if HeaderText(digits) <= rest {
      assert DELIMITER <= HeaderText(digits) <= rest;
      HeaderDigitsAreTheRun(rest, digits);
    }
  }

  lemma MatchHeaderAgrees(rest: string)
    requires MatchHeader(rest) != ""
    ensures AgreesWithHeader(rest)
  {
    MatchHeaderExact(rest, MatchHeader(rest));
  }

  lemma PartialHeaderIsShort(rest: string)
    requires AgreesWithHeader(rest) && MatchHeader(rest) == ""
    ensures |rest| <= 14
  {
    var d :| IsLength(d) && (HeaderText(d) <= rest || rest <= HeaderText(d));
    MatchHeaderExact(rest, d);
    assert rest < HeaderText(d);
  }

  lemma HeaderDigitsAreTheRun(rest: string, digits: string)
    requires IsLength(digits) && HeaderText(digits) <= rest
    ensures digits == rest[3..][..DigitRun(rest[3..])]
  {
    var tail := rest[3..];
    assert forall i | 0 <= i <= |digits| :: tail[i] == HeaderText(digits)[3 + i];
    RunLength(tail, |digits|);
    assert digits == tail[..|digits|];
  }

  lemma RunLength(s: string, n: nat)
    requires n <= |s| && AllDigits(s[..n]) && (n < |s| ==> !IsDigit(s[n]))
    ensures DigitRun(s) == n
  {
    if n > 0 {
      assert s[0] == s[..n][0];
      assert s[1..][..n - 1] == s[..n][1..];
      RunLength(s[1..], n - 1);
    }
  }

  /** Whether `rest` could still become a header, by the counting loop. Where no
      header matches yet the answer is exact: true just for the proper prefixes
      of a header. */
  method PartialHeader(rest: string) returns (partial: bool)
    ensures partial <==> AgreesWithHeader(rest)
  {
    if |rest| < 3 {
      partial := rest <= DELIMITER;
      ShortHeader(rest);
      return;
    }
    if !(DELIMITER <= rest) {
      ShortHeader(rest);
      return false;
    }
    var tail := rest[3..];
    var digits := tail[..if |tail| < 9 then |tail| else 9];
    if digits == "" {
      assert rest == DELIMITER;
      assert IsLength("0") && rest <= HeaderText("0");
      return true;
    }
    var consumed := 0;
    while consumed < |digits|
      invariant 0 <= consumed <= |digits|
      invariant AllDigits(digits[..consumed])
    {
      if !IsDigit(digits[consumed]) {
        break;
      }
      consumed := consumed + 1;
    }
    assert digits[..consumed] == tail[..consumed];
    if consumed == 0 {
      OpenHeader(rest, 0);
      return false;
    }
    var slice := tail[consumed..if consumed + 3 <= |tail| then consumed + 3 else |tail|];
    partial := slice <= DELIMITER;
    var open := tail[consumed..];
    assert slice == open[..if |open| < 3 then |open| else 3];
    OpenHeader(rest, consumed);
  }

  lemma ShortHeader(rest: string)
    requires |rest| < 3 || !(DELIMITER <= rest)
    ensures AgreesWithHeader(rest) <==> rest <= DELIMITER
  {
    if rest <= DELIMITER {
      assert IsLength("0") && rest <= HeaderText("0");
    }
    if d :| IsLength(d) && (HeaderText(d) <= rest || rest <= HeaderText(d)) {
      assert forall i | 0 <= i < |rest| && i < 3 :: rest[i] == HeaderText(d)[i] == DELIMITER[i];
    }
  }

  /** After the opening delimiter and `consumed` digits. */
  lemma OpenHeader(rest: string, consumed: nat)
    requires DELIMITER <= rest && consumed <= |rest| - 3 && consumed <= 9 && |rest| > 3
    requires AllDigits(rest[3..][..consumed])
    requires consumed == |rest| - 3 || consumed == 9 || !IsDigit(rest[3 + consumed])
    ensures AgreesWithHeader(rest) <==> consumed > 0 && ClosesWith(rest[3..][consumed..])
  {
    var tail := rest[3..];
    if consumed > 0 && ClosesWith(tail[consumed..]) {
      var d := tail[..consumed];
      assert rest == DELIMITER + d + tail[consumed..];
      if DELIMITER <= tail[consumed..] {
        assert rest == HeaderText(d) + tail[consumed..][3..];
      }
      assert IsLength(d) && (HeaderText(d) <= rest || rest <= HeaderText(d));
    }
    if d :| IsLength(d) && (HeaderText(d) <= rest || rest <= HeaderText(d)) {
      AgreeingHeaderCloses(rest, consumed, d);
    }
  }

  predicate ClosesWith(s: string) {
    s[..if |s| < 3 then |s| else 3] <= DELIMITER
  }

  lemma AgreeingHeaderCloses(rest: string, consumed: nat, d: string)
    requires DELIMITER <= rest && consumed <= |rest| - 3 && consumed <= 9 && |rest| > 3
    requires AllDigits(rest[3..][..consumed])
    requires consumed == |rest| - 3 || consumed == 9 || !IsDigit(rest[3 + consumed])
    requires IsLength(d) && (HeaderText(d) <= rest || rest <= HeaderText(d))
    ensures consumed > 0 && ClosesWith(rest[3..][consumed..])
  {
    var tail, shape := rest[3..], d + DELIMITER;
    assert forall i | 0 <= i < |tail| && i < |shape| :: tail[i] == rest[3 + i] == HeaderText(d)[3 + i] == shape[i];
    assert IsDigit(tail[0]);
    if consumed < |tail| {
      assert forall i | 0 <= i < |tail| && i < |d| :: IsDigit(tail[i]);
      assert |d| < |tail| ==> !IsDigit(tail[|d|]);
      assert forall i | 0 <= i < consumed :: IsDigit(tail[..consumed][i]) && tail[i] == tail[..consumed][i];
      assert forall i | 0 <= i < 3 && consumed + i < |tail| :: tail[consumed..][i] == shape[consumed + i] == DELIMITER[i];
    }
  }

  /** No continuation of `rest` ever matches a header exactly when no header
      matches and `rest` is not a partial one: the case the decoder refuses. */
  lemma RejectedHeaderIsHopeless(rest: string)
    ensures !AgreesWithHeader(rest) <==> forall more :: MatchHeader(rest + more) == ""
  {
    if AgreesWithHeader(rest) {
      var d :| IsLength(d) && (HeaderText(d) <= rest || rest <= HeaderText(d));
      var more := if rest <= HeaderText(d) then HeaderText(d)[|rest|..] else "";
      assert HeaderText(d) <= rest + more;
      MatchHeaderExact(rest + more, d);
    } else {
      forall more
        ensures MatchHeader(rest + more) == ""
      {
        if MatchHeader(rest + more) != "" {
          MatchHeaderAgrees(rest + more);
          AgreesEarlier(rest, more);
        }
      }
    }
  }

  lemma AgreesEarlier(rest: string, more: string)
    requires AgreesWithHeader(rest + more)
    ensures AgreesWithHeader(rest)
  {
    var d :| IsLength(d) && (HeaderText(d) <= rest + more || rest + more <= HeaderText(d));
    assert forall i | 0 <= i < |rest| && i < |HeaderText(d)| :: rest[i] == (rest + more)[i] == HeaderText(d)[i];
    assert HeaderText(d) <= rest || rest <= HeaderText(d);
  }

  // ----- decoding ------------------------------------------------------------

  datatype Scan = Waiting | Bad(fault: Fault) | Frame(start: nat, end: nat)

  /** What the decoder makes of text that must start a frame. */
  ghost function ScanFrame(rest: string): (s: Scan)
    ensures s.Waiting? ==> |rest| <= MAX_REMAINDER
    ensures s.Frame? ==> s.start < s.end <= |rest|
  {
    var digits := MatchHeader(rest);
    if digits == "" then
      if AgreesWithHeader(rest) then
        PartialHeaderIsShort(rest);
        Waiting
      else Bad(NoHeader(0))
    else
      var declared := NumberOf(digits);
      if declared == 0 then Bad(ZeroLength(0))
      else if declared > MAX_FRAME_LENGTH then Bad(PastCeiling(declared))
      else
        var start := |HeaderText(digits)|;
        if start + declared > |rest| then Waiting else Frame(start, start + declared)
  }

  /** A fault found `past` characters into a longer text. */
  function Shift(fault: Fault, past: nat): Fault {
    match fault
    case NoHeader(offset) => NoHeader(offset + past)
    case ZeroLength(offset) => ZeroLength(offset + past)
    case PastCeiling(_) => fault
  }

  /** Put payloads decoded from the first `past` characters before a later decoding. */
  function Prepend(payloads: seq<string>, past: nat, later: Decoding): Decoding {
    match later
    case Decoded(more, remainder) => Decoded(payloads + more, remainder)
    case Malformed(fault) => Malformed(Shift(fault, past))
  }

  ghost function Decode(data: string): (d: Decoding)
    ensures d.Decoded? ==> |d.remainder| <= |data| && |d.remainder| <= MAX_REMAINDER
    ensures d.Decoded? && d.payloads == [] ==> d.remainder == data
    decreases |data|
  {
    if data == "" then Decoded([], "")
    else
      match ScanFrame(data)
      case Waiting => Decoded([], data)
      case Bad(fault) => Malformed(fault)
      case Frame(start, end) => Prepend([data[start..end]], end, Decode(data[end..]))
  }

  method DecodeFrames(data: string) returns (d: Decoding)
    ensures d == Decode(data)
  {
    hide Decode, MatchHeader, NumberOf, AgreesWithHeader;
    var payloads: seq<string> := [];
    var cursor := 0;
    PrependNothing(Decode(data));
    assert data[0..] == data;
    while cursor < |data|
      invariant cursor <= |data|
      invariant Decode(data) == Prepend(payloads, cursor, Decode(data[cursor..]))
    {
      var rest := data[cursor..];
      var digits := MatchHeader(rest);
      if digits == "" {
        var partial := PartialHeader(rest);
        DecodeHead(rest);
        assert payloads + [] == payloads;
        if partial {
          return Decoded(payloads, rest);
        }
        return Malformed(NoHeader(cursor));
      }
      var declared := NumberOf(digits);
      DecodeHead(rest);
      if declared == 0 {
        return Malformed(ZeroLength(cursor));
      }
      if declared > MAX_FRAME_LENGTH {
        return Malformed(PastCeiling(declared));
      }
      var start := cursor + |HeaderText(digits)|;
      var end := start + declared;
      if end > |data| {
        assert payloads + [] == payloads;
        return Decoded(payloads, rest);
      }
      assert rest[end - cursor..] == data[end..] && rest[start - cursor..end - cursor] == data[start..end];
      PrependTwice(payloads, cursor, [data[start..end]], end - cursor, Decode(data[end..]));
      payloads := payloads + [data[start..end]];
      cursor := end;
    }
    assert data[cursor..] == "" && payloads + [] == payloads;
    DecodeNothing();
    return Decoded(payloads, "");
  }

  lemma DecodeNothing()
    ensures Decode("") == Decoded([], "")
  {
  }

  /** One step of the decoder, on text that is not empty. */
  lemma DecodeHead(data: string)
    requires data != ""
    ensures var digits := MatchHeader(data);
            if digits == "" then
              Decode(data) == if AgreesWithHeader(data) then Decoded([], data) else Malformed(NoHeader(0))
            else
              var declared, start := NumberOf(digits), |HeaderText(digits)|;
              Decode(data) ==
                if declared == 0 then Malformed(ZeroLength(0))
                else if declared > MAX_FRAME_LENGTH then Malformed(PastCeiling(declared))
                else if start + declared > |data| then Decoded([], data)
                else Prepend([data[start..start + declared]], start + declared, Decode(data[start + declared..]))
  {
    hide MatchHeader, NumberOf, AgreesWithHeader;
  }

  lemma PrependTwice(first: seq<string>, past: nat, second: seq<string>, past': nat, d: Decoding)
    ensures Prepend(first, past, Prepend(second, past', d)) == Prepend(first + second, past + past', d)
  {
    if d.Decoded? {
      assert first + (second + d.payloads) == first + second + d.payloads;
    }
  }

  // ----- streaming equals batch ----------------------------------------------

  /** A verdict on the head of the stream never changes when more text arrives. */
  lemma ScanIsStable(head: string, more: string)
    requires !ScanFrame(head).Waiting?
    ensures ScanFrame(head + more) == ScanFrame(head)
  {
    var digits := MatchHeader(head);
    if digits == "" {
      if AgreesWithHeader(head + more) {
        AgreesEarlier(head, more);
      }
      if MatchHeader(head + more) != "" {
        MatchHeaderAgrees(head + more);
      }
    } else {
      MatchHeaderExact(head, digits);
      MatchHeaderExact(head + more, digits);
    }
  }

  lemma DecodeFirstFrame(data: string)
    requires data != "" && ScanFrame(data).Frame?
    ensures var f := ScanFrame(data); Decode(data) == Prepend([data[f.start..f.end]], f.end, Decode(data[f.end..]))
  {
  }

  lemma FirstFrameStays(a: string, b: string)
    requires a != "" && ScanFrame(a).Frame?
    ensures var f := ScanFrame(a);
            Decode(a + b) == Prepend([a[f.start..f.end]], f.end, Decode(a[f.end..] + b))
  {
    hide ScanFrame;
    var f := ScanFrame(a);
    ScanIsStable(a, b);
    DecodeFirstFrame(a + b);
    assert (a + b)[f.end..] == a[f.end..] + b && (a + b)[f.start..f.end] == a[f.start..f.end];
  }

  /** Decoding `a`, keeping its remainder and decoding that with `b` appended is
      decoding `a + b`: the same payloads, remainder and refusals, the offset of
      a refusal counted from where the remainder starts. */
  lemma {:induction false} StreamingEqualsBatch(a: string, b: string)
    ensures match Decode(a)
            case Malformed(fault) => Decode(a + b) == Malformed(fault)
            case Decoded(payloads, remainder) =>
              Decode(a + b) == Prepend(payloads, |a| - |remainder|, Decode(remainder + b))
    decreases |a|
  {
    hide ScanFrame;
    if a == "" {
      assert a + b == b;
      PrependNothing(Decode(b));
    } else if ScanFrame(a).Waiting? {
      PrependNothing(Decode(a + b));
    } else if ScanFrame(a).Bad? {
      ScanIsStable(a, b);
    } else {
      var f := ScanFrame(a);
      var tail, payload := a[f.end..], a[f.start..f.end];
      FirstFrameStays(a, b);
      DecodeFirstFrame(a);
      StreamingEqualsBatch(tail, b);
      var rest := Decode(tail);
      if rest.Decoded? {
        PrependTwice([payload], f.end, rest.payloads, |tail| - |rest.remainder|, Decode(rest.remainder + b));
      }
    }
  }

  lemma PrependNothing(d: Decoding)
    ensures Prepend([], 0, d) == d
  {
    if d.Decoded? {
      assert [] + d.payloads == d.payloads;
    }
  }

  /** Decode chunk by chunk, carrying the remainder, as a reader of a stream does.
      `buffered` is the remainder of the `seen` characters decoded so far. */
  ghost function DecodeChunks(buffered: string, seen: nat, chunks: seq<string>): Decoding
    requires |buffered| <= seen
    decreases |chunks|
  {
    if chunks == [] then Decoded([], buffered)
    else
      var now := Decode(buffered + chunks[0]);
      var reached := seen + |chunks[0]|;
      if now.Malformed? then Malformed(Shift(now.fault, seen - |buffered|))
      else
        match DecodeChunks(now.remainder, reached, chunks[1..])
        case Decoded(more, remainder) => Decoded(now.payloads + more, remainder)
        case Malformed(fault) => Malformed(fault)
  }

  /** However a stream is cut into chunks, decoding it incrementally gives what
      decoding it whole gives. */
  lemma {:induction false} AnyChunking(buffered: string, seen: nat, chunks: seq<string>)
    requires |buffered| <= seen
    requires Decode(buffered) == Decoded([], buffered)
    ensures DecodeChunks(buffered, seen, chunks) == Prepend([], seen - |buffered|, Decode(buffered + Join(chunks)))
    decreases |chunks|
  {
    hide Decode;
    if chunks == [] {
      assert buffered + Join(chunks) == buffered;
    } else {
      var head, tail := buffered + chunks[0], Join(chunks[1..]);
      assert head + tail == buffered + Join(chunks);
      StreamingEqualsBatch(head, tail);
      var now := Decode(head);
      if now.Decoded? {
        RemainderIsPending(head);
        AnyChunking(now.remainder, seen + |chunks[0]|, chunks[1..]);
      }
    }
  }

  /** What a decode holds back is held back again, whole, when decoded alone. */
  lemma {:induction false} RemainderIsPending(data: string)
    requires Decode(data).Decoded?
    ensures Decode(Decode(data).remainder) == Decoded([], Decode(data).remainder)
    decreases |data|
  {
    if data != "" && ScanFrame(data).Frame? {
      RemainderIsPending(data[ScanFrame(data).end..]);
    }
  }

  // ----- what a decode means -------------------------------------------------

  /** `text` is one well-formed frame around `payload`. Leading zeros in the
      length are as good as none. */
  ghost predicate IsFrame(text: string, payload: string) {
    1 <= |payload| <= MAX_FRAME_LENGTH
    && exists digits :: IsLength(digits) && NumberOf(digits) == |payload| && text == HeaderText(digits) + payload
  }

  /** `tail` is nothing, an unfinished header, or an acceptable header whose body
      has not all arrived. */
  ghost predicate Pending(tail: string) {
    tail == ""
    || exists digits :: IsLength(digits)
         && (tail < HeaderText(digits)
             || (HeaderText(digits) <= tail
                 && 1 <= NumberOf(digits) <= MAX_FRAME_LENGTH
                 && |tail| < |HeaderText(digits)| + NumberOf(digits)))
  }

  /** `data` is a run of frames carrying exactly `payloads`, then `remainder`. */
  ghost predicate Splits(data: string, payloads: seq<string>, remainder: string) {
    Pending(remainder)
    && exists frames: seq<string> ::
         |frames| == |payloads|
         && data == Join(frames) + remainder
         && forall i | 0 <= i < |frames| :: IsFrame(frames[i], payloads[i])
  }

  /** A decode succeeds with these payloads and this remainder exactly when the
      text is frames around those payloads followed by that remainder. */
  lemma DecodeExact(data: string, payloads: seq<string>, remainder: string)
    ensures Decode(data) == Decoded(payloads, remainder) <==> Splits(data, payloads, remainder)
  {
    hide Decode, Pending;
    if Splits(data, payloads, remainder) {
      var frames: seq<string> :| |frames| == |payloads| && data == Join(frames) + remainder
        && forall i | 0 <= i < |frames| :: IsFrame(frames[i], payloads[i]);
      FramesDecode(frames, payloads, remainder);
    }
    if Decode(data) == Decoded(payloads, remainder) {
      DecodedSplits(data);
    }
  }

  lemma {:induction false} FramesDecode(frames: seq<string>, payloads: seq<string>, remainder: string)
    requires |frames| == |payloads| && Pending(remainder)
    requires forall i | 0 <= i < |frames| :: IsFrame(frames[i], payloads[i])
    ensures Decode(Join(frames) + remainder) == Decoded(payloads, remainder)
    decreases |frames|
  {
    hide Decode, Pending, IsFrame;
    if frames == [] {
      assert Join(frames) + remainder == remainder;
      PendingIsHeld(remainder);
    } else {
      var later := Join(frames[1..]) + remainder;
      assert Join(frames) + remainder == frames[0] + later;
      FramesDecode(frames[1..], payloads[1..], remainder);
      FrameDecodes(frames[0], payloads[0], later);
      assert [payloads[0]] + payloads[1..] == payloads;
    }
  }

  lemma FrameDecodes(frame: string, payload: string, later: string)
    requires IsFrame(frame, payload)
    ensures Decode(frame + later) == Prepend([payload], |frame|, Decode(later))
  {
    hide Decode;
    var digits :| IsLength(digits) && NumberOf(digits) == |payload| && frame == HeaderText(digits) + payload;
    var data := frame + later;
    assert HeaderText(digits) <= data;
    MatchHeaderExact(data, digits);
    DecodeHead(data);
    assert data[|HeaderText(digits)|..|frame|] == payload && data[|frame|..] == later;
  }

  lemma PendingIsHeld(tail: string)
    requires Pending(tail)
    ensures Decode(tail) == Decoded([], tail)
  {
    if tail != "" {
      var digits :| IsLength(digits)
        && (tail < HeaderText(digits)
            || (HeaderText(digits) <= tail
                && 1 <= NumberOf(digits) <= MAX_FRAME_LENGTH
                && |tail| < |HeaderText(digits)| + NumberOf(digits)));
      hide Decode;
      if tail < HeaderText(digits) {
        ProperPrefixOfHeader(tail, digits);
      } else {
        MatchHeaderExact(tail, digits);
      }
      DecodeHead(tail);
    }
  }

  lemma ProperPrefixOfHeader(tail: string, digits: string)
    requires IsLength(digits) && tail < HeaderText(digits)
    ensures MatchHeader(tail) == "" && AgreesWithHeader(tail)
  {
    var found := MatchHeader(tail);
    if found != "" {
      MatchHeaderExact(tail, found);
      assert HeaderText(found) <= HeaderText(digits);
      MatchHeaderExact(HeaderText(digits), found);
      MatchHeaderExact(HeaderText(digits), digits);
    }
  }

  lemma {:induction false} DecodedSplits(data: string)
    requires Decode(data).Decoded?
    ensures Splits(data, Decode(data).payloads, Decode(data).remainder)
    decreases |data|
  {
    hide Decode, MatchHeader, NumberOf, Pending, IsFrame, Splits;
    DecodeNothing();
    HeldIsPending(data);
    if data == "" || Decode(data).payloads == [] {
      NoFrames(data);
    } else {
      var end := |HeaderText(MatchHeader(data))| + NumberOf(MatchHeader(data));
      FirstFrameOf(data);
      DecodedSplits(data[end..]);
      OneMoreFrame(data[..end], Decode(data).payloads[0], data[end..], Decode(data).payloads[1..], Decode(data).remainder);
      assert data == data[..end] + data[end..];
      assert Decode(data).payloads == [Decode(data).payloads[0]] + Decode(data).payloads[1..];
    }
  }

  lemma NoFrames(data: string)
    requires Pending(data)
    ensures Splits(data, [], data)
  {
    var none: seq<string> := [];
    assert data == Join(none) + data;
  }

  lemma OneMoreFrame(frame: string, payload: string, later: string, payloads: seq<string>, remainder: string)
    requires IsFrame(frame, payload) && Splits(later, payloads, remainder)
    ensures Splits(frame + later, [payload] + payloads, remainder)
  {
    hide IsFrame, Pending;
    var frames: seq<string> :| |frames| == |payloads| && later == Join(frames) + remainder
      && forall i | 0 <= i < |frames| :: IsFrame(frames[i], payloads[i]);
    var all := [frame] + frames;
    assert all[1..] == frames;
    assert frame + later == Join(all) + remainder;
    assert forall i | 0 <= i < |all| :: IsFrame(all[i], ([payload] + payloads)[i]);
  }

  lemma FirstFrameOf(data: string)
    requires data != "" && Decode(data).Decoded? && Decode(data).payloads != []
    ensures MatchHeader(data) != ""
    ensures var end := |HeaderText(MatchHeader(data))| + NumberOf(MatchHeader(data));
            end <= |data|
            && IsFrame(data[..end], Decode(data).payloads[0])
            && Decode(data[end..]) == Decoded(Decode(data).payloads[1..], Decode(data).remainder)
  {
    hide Decode, NumberOf;
    DecodeHead(data);
    var digits := MatchHeader(data);
    MatchHeaderExact(data, digits);
    var start := |HeaderText(digits)|;
    var end := start + NumberOf(digits);
    assert data[..end] == HeaderText(digits) + data[start..end];
    assert Decode(data).payloads == [data[start..end]] + Decode(data[end..]).payloads;
  }

  /** Text held back whole. */
  lemma HeldIsPending(data: string)
    ensures Decode(data).Decoded? && Decode(data).payloads == [] ==> Pending(data)
  {
    hide Decode;
    if data == "" {
      return;
    }
    DecodeHead(data);
    var digits := MatchHeader(data);
    if digits != "" {
      MatchHeaderExact(data, digits);
    } else if AgreesWithHeader(data) {
      var d :| IsLength(d) && (HeaderText(d) <= data || data <= HeaderText(d));
      MatchHeaderExact(data, d);
      assert data < HeaderText(d);
    }
  }

  // ----- the round trip ------------------------------------------------------

  function EncodeFrames(payloads: seq<string>): string {
    if payloads == [] then "" else EncodeFrame(payloads[0]) + EncodeFrames(payloads[1..])
  }

  lemma EncodedIsFrame(payload: string)
    requires 1 <= |payload| <= MAX_FRAME_LENGTH
    ensures IsFrame(EncodeFrame(payload), payload)
  {
    DecimalRoundTrip(|payload|);
    DecimalWidth(|payload|, 7);
    assert IsLength(Decimal(|payload|));
    assert EncodeFrame(payload) == HeaderText(Decimal(|payload|)) + payload;
  }

  /** The frame of a payload, written out: its length in digits, without leading zeros,
      between the delimiters. */
  lemma EncodedExactly(payload: string) returns (digits: string)
    ensures EncodeFrame(payload) == "~m~" + digits + "~m~" + payload
    ensures AllDigits(digits) && NumberOf(digits) == |payload|
    ensures |payload| > 0 ==> digits[..1] != "0"
  {
    digits := Decimal(|payload|);
    DecimalRoundTrip(|payload|);
    if |payload| > 0 {
      LeadingDigit(|payload|);
    }
  }

  /** Payloads of any acceptable length, delimiters inside them or not, come back
      as they went in, whatever pending tail follows. */
  lemma {:induction false} FrameRoundTrip(payloads: seq<string>, tail: string)
    requires forall p | p in payloads :: 1 <= |p| <= MAX_FRAME_LENGTH
    requires Pending(tail)
    ensures Decode(EncodeFrames(payloads) + tail) == Decoded(payloads, tail)
  {
    hide Decode, Pending, EncodeFrame;
    if payloads == [] {
      assert EncodeFrames(payloads) + tail == tail;
      PendingIsHeld(tail);
    } else {
      var later := EncodeFrames(payloads[1..]) + tail;
      assert EncodeFrames(payloads) + tail == EncodeFrame(payloads[0]) + later;
      FrameRoundTrip(payloads[1..], tail);
      EncodedIsFrame(payloads[0]);
      FrameDecodes(EncodeFrame(payloads[0]), payloads[0], later);
      assert [payloads[0]] + payloads[1..] == payloads;
    }
  }

  /** A frame outside the acceptable lengths is refused on the way back in. */
  lemma UnacceptableLengthRefused(payload: string, later: string)
    requires |payload| == 0 || MAX_FRAME_LENGTH < |payload| < 1_000_000_000
    ensures Decode(EncodeFrame(payload) + later)
         == Malformed(if |payload| == 0 then ZeroLength(0) else PastCeiling(|payload|))
  {
    hide Decode;
    var digits := Decimal(|payload|);
    DecimalRoundTrip(|payload|);
    assert Pow10(9) == 1_000_000_000;
    DecimalWidth(|payload|, 9);
    assert IsLength(digits);
    var data := EncodeFrame(payload) + later;
    assert data == HeaderText(digits) + (payload + later);
    MatchHeaderExact(data, digits);
    DecodeHead(data);
  }

  /** Decoding the text yields at least one payload. */
  ghost predicate YieldsPayload(text: string) {
    Decode(text).Decoded? && Decode(text).payloads != []
  }

  /** A header still without its second delimiter is held back whatever its digits,
      but some continuation yields a payload exactly when the digits so far name an
      acceptable length, or are only zeros with room for another digit and nothing of
      the delimiter behind them. */
  lemma HeldHeaderExactly(digits: string, tail: string)
    requires IsLength(digits) && tail < DELIMITER
    ensures var head := DELIMITER + digits + tail;
            Decode(head) == Decoded([], head)
            && ((exists more :: YieldsPayload(head + more))
                <==> NumberOf(digits) <= MAX_FRAME_LENGTH && (NumberOf(digits) >= 1 || (tail == "" && |digits| < 9)))
  {
    hide Decode, NumberOf, YieldsPayload, HeaderText;
    var head := DELIMITER + digits + tail;
    HeaderIsHeld(digits, tail);
    if more :| YieldsPayload(head + more) {
      PayloadNeedsLength(digits, tail, more);
    }
    if 1 <= NumberOf(digits) <= MAX_FRAME_LENGTH {
      RestOfHeader(digits, tail);
      LengthYields(digits, head, DELIMITER[|tail|..]);
    } else if NumberOf(digits) == 0 && tail == "" && |digits| < 9 {
      OneBehindZeros(digits);
      RestOfLongerHeader(digits);
      assert head == DELIMITER + digits;
      LengthYields(digits + "1", head, "1" + DELIMITER);
    }
  }

  lemma RestOfHeader(digits: string, tail: string)
    requires tail < DELIMITER
    ensures HeaderText(digits) == DELIMITER + digits + tail + DELIMITER[|tail|..]
  {
    assert DELIMITER == tail + DELIMITER[|tail|..];
    assert DELIMITER + digits + DELIMITER == DELIMITER + digits + tail + DELIMITER[|tail|..];
  }

  lemma RestOfLongerHeader(digits: string)
    ensures HeaderText(digits + "1") == DELIMITER + digits + ("1" + DELIMITER)
  {
    assert DELIMITER + (digits + "1") + DELIMITER == DELIMITER + digits + ("1" + DELIMITER);
  }

  lemma HeaderIsHeld(digits: string, tail: string)
    requires IsLength(digits) && tail < DELIMITER
    ensures var head := DELIMITER + digits + tail; Decode(head) == Decoded([], head)
  {
    hide Decode, NumberOf;
    var head := DELIMITER + digits + tail;
    RestOfHeader(digits, tail);
    assert head < HeaderText(digits);
    ProperPrefixOfHeader(head, digits);
    DecodeHead(head);
  }

  /** A complete acceptable header, and enough text for its body. */
  lemma LengthYields(digits: string, head: string, rest: string)
    requires IsLength(digits) && 1 <= NumberOf(digits) <= MAX_FRAME_LENGTH && HeaderText(digits) == head + rest
    ensures exists more :: YieldsPayload(head + more)
  {
    hide Decode, NumberOf;
    var payload := seq(NumberOf(digits), i => 'x');
    var frame := HeaderText(digits) + payload;
    assert IsFrame(frame, payload);
    FrameDecodes(frame, payload, "");
    DecodeNothing();
    assert frame + "" == frame && frame == head + (rest + payload);
    assert YieldsPayload(head + (rest + payload));
  }

  lemma OneBehindZeros(digits: string)
    requires AllDigits(digits) && NumberOf(digits) == 0
    ensures AllDigits(digits + "1") && NumberOf(digits + "1") == 1
  {
    assert (digits + "1")[..|digits|] == digits;
  }

  /** What a payload shows of the header it came behind. */
  lemma PayloadNeedsLength(digits: string, tail: string, more: string)
    requires IsLength(digits) && tail < DELIMITER && YieldsPayload(DELIMITER + digits + tail + more)
    ensures NumberOf(digits) <= MAX_FRAME_LENGTH && (NumberOf(digits) >= 1 || (tail == "" && |digits| < 9))
  {
    hide Decode, NumberOf, MatchHeader;
    var text := DELIMITER + digits + tail + more;
    DecodeHead(text);
    var found := MatchHeader(text);
    assert found != "" && 1 <= NumberOf(found) <= MAX_FRAME_LENGTH;
    FoundExtends(digits, tail, more);
    PrefixIsNoGreater(digits, found);
    assert |found| <= |digits| ==> found == digits;
  }

  /** The digits of the header extend the digits already there, and are those if the
      delimiter behind them has begun. */
  lemma FoundExtends(digits: string, tail: string, more: string)
    requires IsLength(digits) && tail < DELIMITER && MatchHeader(DELIMITER + digits + tail + more) != ""
    ensures var found := MatchHeader(DELIMITER + digits + tail + more);
            digits <= found && (tail != "" ==> found == digits)
  {
    var text := DELIMITER + digits + tail + more;
    var found := MatchHeader(text);
    MatchHeaderExact(text, found);
    var shape := HeaderText(found);
    assert forall i | 0 <= i < |digits| :: text[3 + i] == digits[i] && IsDigit(digits[i]);
    assert shape[3 + |found|] == '~' == text[3 + |found|];
    assert forall i | 0 <= i < |found| :: found[i] == shape[3 + i] == text[3 + i];
    assert tail != "" ==> text[3 + |digits|] == tail[0] == DELIMITER[0];
  }

  lemma {:induction false} PrefixIsNoGreater(digits: string, longer: string)
    requires AllDigits(longer) && digits <= longer
    ensures AllDigits(digits) && NumberOf(digits) <= NumberOf(longer)
    decreases |longer|
  {
    if |digits| < |longer| {
      PrefixIsNoGreater(digits, longer[..|longer| - 1]);
    } else {
      assert digits == longer;
    }
  }

  // ----- refusals ------------------------------------------------------------

  /** What is wrong with text that must start a frame: it starts with no header and
      never will, or with the header of a length that is not acceptable. */
  ghost predicate IsFault(rest: string, offset: nat, fault: Fault) {
    match fault
    case NoHeader(at) => at == offset && !AgreesWithHeader(rest)
    case ZeroLength(at) =>
      at == offset && exists digits :: IsLength(digits) && HeaderText(digits) <= rest && NumberOf(digits) == 0
    case PastCeiling(declared) =>
      declared > 4_194_304 && exists digits :: IsLength(digits) && HeaderText(digits) <= rest && NumberOf(digits) == declared
  }

  /** A run of frames, and behind it text that has this fault. */
  ghost predicate Breaks(data: string, fault: Fault) {
    exists frames: seq<string>, payloads: seq<string>, rest: string ::
      BreaksBehind(data, fault, frames, payloads, rest)
  }

  ghost predicate BreaksBehind(data: string, fault: Fault, frames: seq<string>, payloads: seq<string>, rest: string) {
    |frames| == |payloads| && data == Join(frames) + rest && rest != ""
    && (forall i | 0 <= i < |frames| :: IsFrame(frames[i], payloads[i]))
    && IsFault(rest, |Join(frames)|, fault)
  }

  /** A decode is refused in a given way, at a given offset, exactly when the data is a
      run of frames and behind it, at that offset, text with that fault. */
  lemma RefusedExactly(data: string, fault: Fault)
    ensures Decode(data) == Malformed(fault) <==> Breaks(data, fault)
  {
    if Breaks(data, fault) {
      var frames, payloads, rest :| BreaksBehind(data, fault, frames, payloads, rest);
      FramesRefused(frames, payloads, rest, fault);
    }
    if Decode(data) == Malformed(fault) {
      RefusedBreaks(data, fault);
    }
  }

  lemma {:induction false} FramesRefused(frames: seq<string>, payloads: seq<string>, rest: string, fault: Fault)
    requires |frames| == |payloads| && rest != "" && (forall i | 0 <= i < |frames| :: IsFrame(frames[i], payloads[i]))
    requires IsFault(rest, |Join(frames)|, fault)
    ensures Decode(Join(frames) + rest) == Malformed(fault)
    decreases |frames|
  {
    hide Decode, IsFrame, IsFault;
    if frames == [] {
      assert Join(frames) + rest == rest;
      FaultIsRefused(rest, fault);
    } else {
      var later := Join(frames[1..]) + rest;
      assert Join(frames) + rest == frames[0] + later;
      var before := FaultBefore(rest, |Join(frames[1..])|, |frames[0]|, fault);
      FramesRefused(frames[1..], payloads[1..], rest, before);
      FrameDecodes(frames[0], payloads[0], later);
    }
  }

  /** A fault counted from further back. */
  lemma FaultBefore(rest: string, offset: nat, past: nat, fault: Fault) returns (before: Fault)
    requires IsFault(rest, offset + past, fault)
    ensures IsFault(rest, offset, before) && Shift(before, past) == fault
  {
    before := match fault
      case NoHeader(_) => NoHeader(offset)
      case ZeroLength(_) => ZeroLength(offset)
      case PastCeiling(_) => fault;
  }

  lemma FaultIsRefused(rest: string, fault: Fault)
    requires rest != ""
    ensures IsFault(rest, 0, fault) <==> ScanFrame(rest) == Bad(fault)
    ensures IsFault(rest, 0, fault) ==> Decode(rest) == Malformed(fault)
  {
    hide NumberOf, AgreesWithHeader;
    var found := MatchHeader(rest);
    if found != "" {
      MatchHeaderExact(rest, found);
      MatchHeaderAgrees(rest);
    }
    forall digits | IsLength(digits) && HeaderText(digits) <= rest
      ensures digits == found
    {
      MatchHeaderExact(rest, digits);
    }
  }

  lemma {:induction false} RefusedBreaks(data: string, fault: Fault)
    requires Decode(data) == Malformed(fault)
    ensures Breaks(data, fault)
    decreases |data|
  {
    hide IsFrame, IsFault, ScanFrame, BreaksBehind;
    if ScanFrame(data).Bad? {
      FaultIsRefused(data, fault);
      NothingBefore(data, fault);
    } else {
      var f := ScanFrame(data);
      DecodeFirstFrame(data);
      var later := Decode(data[f.end..]).fault;
      RefusedBreaks(data[f.end..], later);
      var frames, payloads, rest :| BreaksBehind(data[f.end..], later, frames, payloads, rest);
      ScannedIsFrame(data);
      OneMoreBefore(data[..f.end], data[f.start..f.end], data[f.end..], later, frames, payloads, rest);
      assert data == data[..f.end] + data[f.end..];
    }
  }

  lemma NothingBefore(data: string, fault: Fault)
    requires data != "" && IsFault(data, 0, fault)
    ensures Breaks(data, fault)
  {
    hide IsFrame, IsFault;
    assert Join([]) + data == data;
    assert BreaksBehind(data, fault, [], [], data);
  }

  lemma ScannedIsFrame(data: string)
    requires ScanFrame(data).Frame?
    ensures IsFrame(data[..ScanFrame(data).end], data[ScanFrame(data).start..ScanFrame(data).end])
  {
    hide NumberOf;
    var f, digits := ScanFrame(data), MatchHeader(data);
    MatchHeaderExact(data, digits);
    assert data[..f.end] == HeaderText(digits) + data[f.start..f.end];
  }

  lemma OneMoreBefore(frame: string, payload: string, data: string, fault: Fault,
                      frames: seq<string>, payloads: seq<string>, rest: string)
    requires IsFrame(frame, payload) && BreaksBehind(data, fault, frames, payloads, rest)
    ensures Breaks(frame + data, Shift(fault, |frame|))
  {
    hide IsFrame, AgreesWithHeader, NumberOf;
    var all, contents := [frame] + frames, [payload] + payloads;
    assert all[1..] == frames;
    assert Join(all) + rest == frame + (Join(frames) + rest);
    assert IsFault(rest, |Join(all)|, Shift(fault, |frame|));
    assert BreaksBehind(frame + data, Shift(fault, |frame|), all, contents, rest);
  }
}
