/** The channel preview parser: an event-driven machine over HTML tokens. */
module PreviewParser {
  import opened Options
  import opened WireCodec

  /** A `data-post` attribute with a slash in it, and the number behind its last
      slash if that reads as one. */
  datatype Post = NoPost | PostNumber(number: Option<int>)

  /** What the parser looks at in a start tag. `stamp` is a `datetime` attribute
      and the UTC instant it parses to, if it does; `isText` says some class
      starts with the message-text class name. */
  datatype Event =
    | StartTag(tag: string, post: Post, stamp: Option<Option<int>>, isText: bool)
    | EndTag
    | Data(text: string)

  /** `text` is the captured text before whitespace cleanup. */
  datatype RawMessage = RawMessage(id: int, publishedAt: Option<int>, text: string)

  function MessageId(number: Option<int>): Option<int> {
    if number.Some? && number.value > 0 then number else None
  }

  // ----- the machine -------------------------------------------------------------

  datatype State = State(
    messages: seq<RawMessage>, currentId: Option<int>, currentTime: Option<int>,
    textDepth: nat, chunks: seq<string>, seenIds: set<int>)

  const INITIAL := State([], None, None, 0, [], {})

  function Flush(s: State): State {
    if s.currentId.None? then s.(chunks := [])
    else if s.currentId.value in s.seenIds then s.(chunks := [], currentId := None)
    else
      s.(seenIds := s.seenIds + {s.currentId.value},
         messages := s.messages + [RawMessage(s.currentId.value, s.currentTime, Join(s.chunks))],
         chunks := [], currentId := None)
  }

  function AtPost(s: State, post: Post): State {
    match post
    case NoPost => s
    case PostNumber(number) => Flush(s).(currentId := MessageId(number), currentTime := None)
  }

  function AtTime(s: State, tag: string, stamp: Option<Option<int>>): State {
    if tag == "time" && stamp.Some? && s.currentTime.None? then s.(currentTime := stamp.value) else s
  }

  function Step(s: State, e: Event): State {
    match e
    case StartTag(tag, post, stamp, isText) =>
      var t := AtTime(AtPost(s, post), tag, stamp);
      if isText then t.(textDepth := 1)
      else if t.textDepth > 0 then
        (if tag == "br" then t.(chunks := t.chunks + ["\n"]) else t.(textDepth := t.textDepth + 1))
      else t
    case EndTag => if s.textDepth > 0 then s.(textDepth := s.textDepth - 1) else s
    case Data(text) => if s.textDepth > 0 then s.(chunks := s.chunks + [text]) else s
  }

  function Run(s: State, events: seq<Event>): State
    decreases |events|
  {
    if events == [] then s else Run(Step(s, events[0]), events[1..])
  }

  datatype PageError = NoMessages

  class Parser {
    var messages: seq<RawMessage>
    var currentId: Option<int>
    var currentTime: Option<int>
    var textDepth: nat
    var chunks: seq<string>
    var seenIds: set<int>

    function Now(): State
      reads this
    {
      State(messages, currentId, currentTime, textDepth, chunks, seenIds)
    }

    constructor ()
      ensures Now() == INITIAL
    {
      messages, currentId, currentTime, textDepth, chunks, seenIds := [], None, None, 0, [], {};
    }

    method HandleStartTag(tag: string, post: Post, stamp: Option<Option<int>>, isText: bool)
      modifies this
      ensures Now() == Step(old(Now()), StartTag(tag, post, stamp, isText))
    {
      if post.PostNumber? {
        FlushMessage();
        currentId := MessageId(post.number);
        currentTime := None;
      }
      if tag == "time" && stamp.Some? && currentTime.None? {
        currentTime := stamp.value;
      }
      if isText {
        textDepth := 1;
        return;
      }
      if textDepth > 0 {
        textDepth := textDepth + 1;
        if tag == "br" {
          chunks := chunks + ["\n"];
          textDepth := textDepth - 1;
        }
      }
    }

    method HandleEndTag()
      modifies this
      ensures Now() == Step(old(Now()), EndTag)
    {
      if textDepth > 0 {
        textDepth := textDepth - 1;
      }
    }

    method HandleData(text: string)
      modifies this
      ensures Now() == Step(old(Now()), Data(text))
    {
      if textDepth > 0 {
        chunks := chunks + [text];
      }
    }

    method FlushMessage()
      modifies this
      ensures Now() == Flush(old(Now()))
    {
      if currentId.None? {
        chunks := [];
        return;
      }
      if currentId.value in seenIds {
        chunks := [];
        currentId := None;
        return;
      }
      seenIds := seenIds + {currentId.value};
      messages := messages + [RawMessage(currentId.value, currentTime, Join(chunks))];
      chunks := [];
      currentId := None;
    }
  }

  method ParsePage(events: seq<Event>) returns (r: Result<seq<RawMessage>, PageError>)
    ensures var messages := Flush(Run(INITIAL, events)).messages;
            r == if messages == [] then Err(NoMessages) else Ok(messages)
  {
    var parser := new Parser();
    var i := 0;
    assert events[0..] == events;
    while i < |events|
      invariant 0 <= i <= |events|
      invariant Run(parser.Now(), events[i..]) == Run(INITIAL, events)
    {
      assert events[i..][1..] == events[i + 1..];
      match events[i] {
        case StartTag(tag, post, stamp, isText) => parser.HandleStartTag(tag, post, stamp, isText);
        case EndTag => parser.HandleEndTag();
        case Data(text) => parser.HandleData(text);
      }
      i := i + 1;
    }
    parser.FlushMessage();
    r := if parser.messages == [] then Err(NoMessages) else Ok(parser.messages);
  }

  // ----- what a page says, without the machine ------------------------------------

  predicate IsPost(e: Event) {
    e.StartTag? && e.post.PostNumber?
  }

  function DepthAfter(depth: nat, e: Event): nat {
    match e
    case StartTag(tag, _, _, isText) =>
      if isText then 1 else if depth > 0 && tag != "br" then depth + 1 else depth
    case EndTag => if depth > 0 then depth - 1 else 0
    case Data(_) => depth
  }

  /** The text one event contributes when it comes at this depth. */
  function Contribution(depth: nat, e: Event): string {
    match e
    case StartTag(tag, _, _, isText) => if !isText && depth > 0 && tag == "br" then "\n" else ""
    case EndTag => ""
    case Data(text) => if depth > 0 then text else ""
  }

  function DepthAfterAll(depth: nat, events: seq<Event>): nat
    decreases |events|
  {
    if events == [] then depth else DepthAfterAll(DepthAfter(depth, events[0]), events[1..])
  }

  function Captured(depth: nat, events: seq<Event>): string
    decreases |events|
  {
    if events == [] then ""
    else Contribution(depth, events[0]) + Captured(DepthAfter(depth, events[0]), events[1..])
  }

  /** The first time tag whose stamp parses. */
  function FirstTime(events: seq<Event>): Option<int> {
    if events == [] then None
    else
      var e := events[0];
      if e.StartTag? && e.tag == "time" && e.stamp.Some? && e.stamp.value.Some? then e.stamp.value
      else FirstTime(events[1..])
  }

  /** The event is a time tag that parses. */
  predicate HasStamp(e: Event) {
    e.StartTag? && e.tag == "time" && e.stamp.Some? && e.stamp.value.Some?
  }

  /** The i-th event is the first time tag that parses. */
  predicate FirstStampAt(events: seq<Event>, i: nat) {
    i < |events| && HasStamp(events[i]) && forall j | 0 <= j < i :: !HasStamp(events[j])
  }

  /** The time of a stretch is that of its first time tag that parses, or none. */
  lemma {:induction false} FirstTimeExactly(events: seq<Event>)
    ensures forall i: nat | FirstStampAt(events, i) :: FirstTime(events) == events[i].stamp.value
    ensures FirstTime(events) == None <==> forall j | 0 <= j < |events| :: !HasStamp(events[j])
  {
    if events != [] {
      var rest := events[1..];
      FirstTimeExactly(rest);
      assert forall j | 0 < j < |events| :: events[j] == rest[j - 1];
      assert forall j | 0 <= j < |rest| :: rest[j] == events[j + 1];
      forall i: nat | FirstStampAt(events, i)
        ensures FirstTime(events) == events[i].stamp.value
      {
        assert i > 0 ==> !HasStamp(events[0]) && FirstStampAt(rest, i - 1);
      }
    }
  }

  /** Where the next `data-post` is, or the end. */
  function NextPost(events: seq<Event>): (n: nat)
    ensures n <= |events| && (forall i | 0 <= i < n :: !IsPost(events[i])) && (n < |events| ==> IsPost(events[n]))
  {
    if events == [] || IsPost(events[0]) then 0 else 1 + NextPost(events[1..])
  }

  /** From one `data-post` up to the next: a message's own stretch of the page. */
  datatype Stretch = Stretch(id: Option<int>, depth: nat, events: seq<Event>)

  function Stretches(depth: nat, events: seq<Event>): seq<Stretch>
    requires events != [] ==> IsPost(events[0])
    decreases |events|
  {
    if events == [] then []
    else
      var n := 1 + NextPost(events[1..]);
      [Stretch(MessageId(events[0].post.number), depth, events[..n])]
      + Stretches(DepthAfterAll(depth, events[..n]), events[n..])
  }

  /** One message for each stretch with an id not met before, read off that stretch alone. */
  function MessagesOf(stretches: seq<Stretch>, seen: set<int>): seq<RawMessage> {
    if stretches == [] then []
    else
      var s := stretches[0];
      if s.id.None? || s.id.value in seen then MessagesOf(stretches[1..], seen)
      else [RawMessage(s.id.value, FirstTime(s.events), Captured(s.depth, s.events))]
           + MessagesOf(stretches[1..], seen + {s.id.value})
  }

  function PageMessages(events: seq<Event>): seq<RawMessage> {
    var lead := NextPost(events);
    MessagesOf(Stretches(DepthAfterAll(0, events[..lead]), events[lead..]), {})
  }

  // ----- the machine computes exactly that ------------------------------------------

  lemma {:induction false} JoinLast(parts: seq<string>, last: string)
    ensures Join(parts + [last]) == Join(parts) + last
  {
    if parts == [] {
      assert [] + [last] == [last];
      assert Join([last]) == last + Join([]);
    } else {
      assert (parts + [last])[1..] == parts[1..] + [last];
      JoinLast(parts[1..], last);
      assert parts[0] + (Join(parts[1..]) + last) == parts[0] + Join(parts[1..]) + last;
    }
  }

  /** The state after events without a `data-post`, up to how the text is chunked. */
  lemma {:induction false} RunWithinStretch(s: State, events: seq<Event>)
    requires forall i | 0 <= i < |events| :: !IsPost(events[i])
    ensures var t := Run(s, events);
            t.messages == s.messages && t.seenIds == s.seenIds && t.currentId == s.currentId
            && t.textDepth == DepthAfterAll(s.textDepth, events)
            && Join(t.chunks) == Join(s.chunks) + Captured(s.textDepth, events)
            && t.currentTime == if s.currentTime.Some? then s.currentTime else FirstTime(events)
    decreases |events|
  {
    hide Step, DepthAfter, Contribution;
    if events == [] {
      assert Join(s.chunks) + "" == Join(s.chunks);
    } else {
      var e, t := events[0], Step(s, events[0]);
      StepWithinStretch(s, e);
      RunWithinStretch(t, events[1..]);
      assert Join(s.chunks) + (Contribution(s.textDepth, e) + Captured(t.textDepth, events[1..]))
          == Join(s.chunks) + Contribution(s.textDepth, e) + Captured(t.textDepth, events[1..]);
    }
  }

  lemma StepWithinStretch(s: State, e: Event)
    requires !IsPost(e)
    ensures var t := Step(s, e);
            t.messages == s.messages && t.seenIds == s.seenIds && t.currentId == s.currentId
            && t.textDepth == DepthAfter(s.textDepth, e)
            && Join(t.chunks) == Join(s.chunks) + Contribution(s.textDepth, e)
            && t.currentTime == if s.currentTime.Some? then s.currentTime else FirstTime([e])
  {
    if s.textDepth > 0 {
      JoinLast(s.chunks, Contribution(s.textDepth, e));
    }
    assert Join(s.chunks) + "" == Join(s.chunks);
  }

  /** A `data-post` is a flush, and then the start of a fresh stretch. */
  lemma StepAtPost(s: State, e: Event)
    requires IsPost(e)
    ensures var begun := Flush(s).(currentId := MessageId(e.post.number), currentTime := None);
            Step(s, e) == Step(begun, e.(post := NoPost))
  {
  }

  lemma {:induction false} RunInTwoParts(s: State, first: seq<Event>, second: seq<Event>)
    ensures Run(s, first + second) == Run(Run(s, first), second)
    decreases |first|
  {
    if first == [] {
      assert first + second == second;
    } else {
      assert (first + second)[1..] == first[1..] + second;
      RunInTwoParts(Step(s, first[0]), first[1..], second);
    }
  }

  /** One stretch, from the state its `data-post` finds. */
  lemma RunStretch(s: State, events: seq<Event>)
    requires events != [] && IsPost(events[0]) && forall i | 1 <= i < |events| :: !IsPost(events[i])
    ensures var t := Run(s, events);
            t.messages == Flush(s).messages && t.seenIds == Flush(s).seenIds
            && t.currentId == MessageId(events[0].post.number)
            && t.textDepth == DepthAfterAll(s.textDepth, events)
            && Join(t.chunks) == Captured(s.textDepth, events)
            && t.currentTime == FirstTime(events)
  {
    var e := events[0];
    var begun := Flush(s).(currentId := MessageId(e.post.number), currentTime := None);
    var plain := [e.(post := NoPost)] + events[1..];
    StepAtPost(s, e);
    assert plain[1..] == events[1..];
    RunWithinStretch(begun, plain);
    assert "" + Captured(s.textDepth, plain) == Captured(s.textDepth, plain);
  }

  /** What flushing the end of a stretch adds is what its stretch says. */
  lemma FlushStretch(t: State, stretch: Stretch, later: seq<Stretch>)
    requires t.currentId == stretch.id && t.currentTime == FirstTime(stretch.events)
    requires Join(t.chunks) == Captured(stretch.depth, stretch.events)
    ensures t.messages + MessagesOf([stretch] + later, t.seenIds)
         == Flush(t).messages + MessagesOf(later, Flush(t).seenIds)
  {
    assert ([stretch] + later)[1..] == later;
    if stretch.id.Some? && stretch.id.value !in t.seenIds {
      var m := RawMessage(stretch.id.value, FirstTime(stretch.events), Captured(stretch.depth, stretch.events));
      var more := MessagesOf(later, t.seenIds + {stretch.id.value});
      assert t.messages + ([m] + more) == t.messages + [m] + more;
    }
  }

  lemma {:induction false} RunStretches(s: State, events: seq<Event>)
    requires events != [] ==> IsPost(events[0])
    ensures Flush(Run(s, events)).messages
         == Flush(s).messages + MessagesOf(Stretches(s.textDepth, events), Flush(s).seenIds)
    decreases |events|
  {
    if events == [] {
      assert Flush(s).messages + [] == Flush(s).messages;
    } else {
      hide Flush, FirstTime, Captured, DepthAfterAll, MessagesOf, Join;
      var n := 1 + NextPost(events[1..]);
      var here, later := events[..n], events[n..];
      assert forall i | 1 <= i < n :: here[i] == events[1..][i - 1];
      assert events == here + later;
      assert later != [] ==> later[0] == events[1..][n - 1];
      var t := Run(s, here);
      RunStretch(s, here);
      RunInTwoParts(s, here, later);
      RunStretches(t, later);
      FlushStretch(t, Stretch(MessageId(events[0].post.number), s.textDepth, here), Stretches(t.textDepth, later));
    }
  }

  /** For every stream of events, the parser's messages are the page's messages:
      each read off its own stretch, from its `data-post` to the next. */
  lemma ParserReadsStretches(events: seq<Event>)
    ensures Flush(Run(INITIAL, events)).messages == PageMessages(events)
  {
    var lead := NextPost(events);
    var front, rest := events[..lead], events[lead..];
    assert events == front + rest;
    RunInTwoParts(INITIAL, front, rest);
    RunWithinStretch(INITIAL, front);
    RunStretches(Run(INITIAL, front), rest);
  }

  // ----- the ids --------------------------------------------------------------------

  /** The readable, positive ids of the `data-post` attributes, in order, repeats included. */
  function Ids(events: seq<Event>): seq<int> {
    if events == [] then []
    else
      (if IsPost(events[0]) && events[0].post.number.Some? && events[0].post.number.value > 0
       then [events[0].post.number.value] else [])
      + Ids(events[1..])
  }

  function StretchIds(stretches: seq<Stretch>): seq<int> {
    if stretches == [] then []
    else (if stretches[0].id.Some? then [stretches[0].id.value] else []) + StretchIds(stretches[1..])
  }

  /** Each value once, where it first appears. */
  function FirstAppearances(ids: seq<int>): seq<int> {
    if ids == [] then []
    else
      var front, last := ids[..|ids| - 1], ids[|ids| - 1];
      if last in front then FirstAppearances(front) else FirstAppearances(front) + [last]
  }

  lemma {:induction false} FirstAppearancesMeaning(ids: seq<int>)
    ensures var once := FirstAppearances(ids);
            (forall id :: id in once <==> id in ids) && (forall i, j | 0 <= i < j < |once| :: once[i] != once[j])
  {
    if ids != [] {
      var front, last := ids[..|ids| - 1], ids[|ids| - 1];
      FirstAppearancesMeaning(front);
      assert ids == front + [last];
    }
  }

  function MessageIds(messages: seq<RawMessage>): seq<int> {
    seq(|messages|, i requires 0 <= i < |messages| => messages[i].id)
  }

  lemma {:induction false} EmittedIds(stretches: seq<Stretch>, before: seq<int>, seen: set<int>)
    requires forall id :: id in seen <==> id in before
    ensures FirstAppearances(before) + MessageIds(MessagesOf(stretches, seen))
         == FirstAppearances(before + StretchIds(stretches))
    decreases |stretches|
  {
    if stretches == [] {
      assert before + [] == before;
      assert FirstAppearances(before) + [] == FirstAppearances(before);
    } else {
      var id, rest := stretches[0].id, StretchIds(stretches[1..]);
      if id.None? {
        assert before + StretchIds(stretches) == before + rest;
        EmittedIds(stretches[1..], before, seen);
      } else {
        var after := before + [id.value];
        assert before + StretchIds(stretches) == after + rest;
        EmittedIds(stretches[1..], after, seen + {id.value});
        OneMoreId(stretches, before, seen);
      }
    }
  }

  lemma OneMoreId(stretches: seq<Stretch>, before: seq<int>, seen: set<int>)
    requires stretches != [] && stretches[0].id.Some? && forall id :: id in seen <==> id in before
    ensures FirstAppearances(before) + MessageIds(MessagesOf(stretches, seen))
         == FirstAppearances(before + [stretches[0].id.value])
            + MessageIds(MessagesOf(stretches[1..], seen + {stretches[0].id.value}))
  {
    var id := stretches[0].id.value;
    var later := MessagesOf(stretches[1..], seen + {id});
    assert (before + [id])[..|before|] == before;
    if id in seen {
      assert seen + {id} == seen;
    } else {
      assert MessageIds(MessagesOf(stretches, seen)) == [id] + MessageIds(later);
      assert FirstAppearances(before) + ([id] + MessageIds(later)) == FirstAppearances(before) + [id] + MessageIds(later);
    }
  }

  lemma {:induction false} IdsOfStretches(depth: nat, events: seq<Event>)
    requires events != [] ==> IsPost(events[0])
    ensures StretchIds(Stretches(depth, events)) == Ids(events)
    decreases |events|
  {
    if events != [] {
      var n := 1 + NextPost(events[1..]);
      var later := events[n..];
      assert later != [] ==> later[0] == events[1..][n - 1];
      IdsOfStretches(DepthAfterAll(depth, events[..n]), later);
      SkipToPost(events[1..]);
      assert events[1..][n - 1..] == later;
    }
  }

  lemma {:induction false} SkipToPost(events: seq<Event>)
    ensures Ids(events) == Ids(events[NextPost(events)..])
  {
    if events != [] && !IsPost(events[0]) {
      SkipToPost(events[1..]);
      assert events[1..][NextPost(events[1..])..] == events[NextPost(events)..];
    } else {
      assert events[0..] == events;
    }
  }

  /** The ids a page emits are its positive ids, each once, in the order in which
      they first appear. */
  lemma EmittedOnceInOrder(events: seq<Event>)
    ensures MessageIds(PageMessages(events)) == FirstAppearances(Ids(events))
    ensures forall i | 0 <= i < |PageMessages(events)| :: PageMessages(events)[i].id > 0
  {
    EmittedIdsOfPage(events);
    hide PageMessages, FirstAppearances, Ids;
    FirstAppearancesMeaning(Ids(events));
    forall i | 0 <= i < |PageMessages(events)|
      ensures PageMessages(events)[i].id > 0
    {
      assert MessageIds(PageMessages(events))[i] in FirstAppearances(Ids(events));
      IdsArePositive(events, PageMessages(events)[i].id);
    }
  }

  lemma EmittedIdsOfPage(events: seq<Event>)
    ensures MessageIds(PageMessages(events)) == FirstAppearances(Ids(events))
  {
    var lead := NextPost(events);
    var depth, rest := DepthAfterAll(0, events[..lead]), events[lead..];
    EmittedIds(Stretches(depth, rest), [], {});
    NoAppearances();
    hide Stretches, Ids, FirstAppearances, MessagesOf, StretchIds, DepthAfterAll, MessageIds;
    IdsOfStretches(depth, rest);
    SkipToPost(events);
    assert [] + StretchIds(Stretches(depth, rest)) == Ids(events);
    assert [] + MessageIds(PageMessages(events)) == MessageIds(PageMessages(events));
  }

  lemma NoAppearances()
    ensures FirstAppearances([]) == []
  {
  }

  lemma {:induction false} IdsArePositive(events: seq<Event>, id: int)
    requires id in Ids(events)
    ensures id > 0
  {
    if id in Ids(events[1..]) {
      IdsArePositive(events[1..], id);
    }
  }

  // ----- the extent of the text -------------------------------------------------------

  /** Content of a page: text, line breaks without an end event, line breaks closed
      in their own tag, which fire one, elements, and text elements within. */
  datatype Node =
    | Text(text: string)
    | LineBreak
    | ClosedBreak
    | Element(tag: string, children: seq<Node>)
    | TextElement(tag: string, children: seq<Node>)

  /** No element is a bare `br` in disguise. */
  predicate WellTagged(nodes: seq<Node>) {
    forall node | node in nodes ::
      (node.Element? ==> node.tag != "br" && WellTagged(node.children))
      && (node.TextElement? ==> WellTagged(node.children))
  }

  /** No text element is within, at any depth. */
  predicate Unnested(nodes: seq<Node>) {
    forall node | node in nodes :: !node.TextElement? && (node.Element? ==> Unnested(node.children))
  }

  /** Besides, every end event has its start: no break closes itself, at any depth. */
  predicate Plain(nodes: seq<Node>) {
    forall node | node in nodes ::
      !node.TextElement? && !node.ClosedBreak? && (node.Element? ==> node.tag != "br" && Plain(node.children))
  }

  function Open(tag: string): Event {
    StartTag(tag, NoPost, None, false)
  }

  function OpenText(tag: string): Event {
    StartTag(tag, NoPost, None, true)
  }

  function Events(nodes: seq<Node>): seq<Event> {
    if nodes == [] then []
    else
      (match nodes[0]
       case Text(text) => [Data(text)]
       case LineBreak => [Open("br")]
       case ClosedBreak => [Open("br"), EndTag]
       case Element(tag, children) => [Open(tag)] + Events(children) + [EndTag]
       case TextElement(tag, children) => [OpenText(tag)] + Events(children) + [EndTag])
      + Events(nodes[1..])
  }

  function TextOf(nodes: seq<Node>): string {
    if nodes == [] then ""
    else
      (match nodes[0]
       case Text(text) => text
       case LineBreak => "\n"
       case ClosedBreak => "\n"
       case Element(_, children) => TextOf(children)
       case TextElement(_, children) => TextOf(children))
      + TextOf(nodes[1..])
  }

  lemma {:induction false} CaptureInTwoParts(depth: nat, first: seq<Event>, second: seq<Event>)
    ensures DepthAfterAll(depth, first + second) == DepthAfterAll(DepthAfterAll(depth, first), second)
    ensures Captured(depth, first + second) == Captured(depth, first) + Captured(DepthAfterAll(depth, first), second)
    decreases |first|
  {
    if first == [] {
      assert first + second == second;
      assert "" + Captured(depth, second) == Captured(depth, second);
    } else {
      var next := DepthAfter(depth, first[0]);
      assert (first + second)[1..] == first[1..] + second;
      CaptureInTwoParts(next, first[1..], second);
      var a, b, c := Contribution(depth, first[0]), Captured(next, first[1..]), Captured(DepthAfterAll(depth, first), second);
      assert a + (b + c) == a + b + c;
    }
  }

  lemma CaptureOne(depth: nat, e: Event)
    ensures DepthAfterAll(depth, [e]) == DepthAfter(depth, e) && Captured(depth, [e]) == Contribution(depth, e)
  {
    assert [e][1..] == [];
    assert Contribution(depth, e) + "" == Contribution(depth, e);
  }

  /** Inside a text element, balanced content is captured whole and leaves the depth. */
  lemma {:induction false} BalancedCapture(depth: nat, nodes: seq<Node>)
    requires depth >= 1 && Plain(nodes)
    ensures Captured(depth, Events(nodes)) == TextOf(nodes) && DepthAfterAll(depth, Events(nodes)) == depth
    decreases nodes
  {
    if nodes != [] {
      var node, later := nodes[0], Events(nodes[1..]);
      assert node in nodes;
      BalancedCapture(depth, nodes[1..]);
      match node
      case Text(text) =>
        CaptureOne(depth, Data(text));
        CaptureInTwoParts(depth, [Data(text)], later);
      case LineBreak =>
        CaptureOne(depth, Open("br"));
        CaptureInTwoParts(depth, [Open("br")], later);
      case Element(tag, children) =>
        BalancedCapture(depth + 1, children);
        ElementCapture(depth, tag, Events(children));
        CaptureInTwoParts(depth, [Open(tag)] + Events(children) + [EndTag], later);
    }
  }

  lemma ElementCapture(depth: nat, tag: string, inside: seq<Event>)
    requires depth >= 1 && tag != "br" && DepthAfterAll(depth + 1, inside) == depth + 1
    ensures Captured(depth, [Open(tag)] + inside + [EndTag]) == Captured(depth + 1, inside)
    ensures DepthAfterAll(depth, [Open(tag)] + inside + [EndTag]) == depth
  {
    CaptureOne(depth, Open(tag));
    CaptureOne(depth + 1, EndTag);
    CaptureInTwoParts(depth, [Open(tag)], inside);
    CaptureInTwoParts(depth, [Open(tag)] + inside, [EndTag]);
    assert "" + Captured(depth + 1, inside) + "" == Captured(depth + 1, inside);
  }

  /** A whole text element, wherever it starts: exactly its subtree's text, and
      capturing is over when it closes. */
  lemma TextElementCapture(depth: nat, tag: string, nodes: seq<Node>)
    requires Plain(nodes)
    ensures Captured(depth, [OpenText(tag)] + Events(nodes) + [EndTag]) == TextOf(nodes)
    ensures DepthAfterAll(depth, [OpenText(tag)] + Events(nodes) + [EndTag]) == 0
  {
    BalancedCapture(1, nodes);
    CaptureOne(depth, OpenText(tag));
    CaptureOne(1, EndTag);
    CaptureInTwoParts(depth, [OpenText(tag)], Events(nodes));
    CaptureInTwoParts(depth, [OpenText(tag)] + Events(nodes), [EndTag]);
  }

  /** Outside text elements nothing is captured, balanced or not. */
  lemma {:induction false} NothingOutside(events: seq<Event>)
    requires forall i | 0 <= i < |events| :: events[i].StartTag? ==> !events[i].isText
    ensures Captured(0, events) == "" && DepthAfterAll(0, events) == 0
  {
    if events != [] {
      NothingOutside(events[1..]);
    }
  }

  /** A message whose stretch holds one text element of balanced content, anything
      without text elements around it, has exactly that element's text. */
  lemma MessageTextIsSubtreeText(before: seq<Event>, tag: string, nodes: seq<Node>, after: seq<Event>)
    requires Plain(nodes)
    requires forall i | 0 <= i < |before| :: before[i].StartTag? ==> !before[i].isText
    requires forall i | 0 <= i < |after| :: after[i].StartTag? ==> !after[i].isText
    ensures var stretch := before + ([OpenText(tag)] + Events(nodes) + [EndTag]) + after;
            Captured(0, stretch) == TextOf(nodes) && DepthAfterAll(0, stretch) == 0
  {
    var element := [OpenText(tag)] + Events(nodes) + [EndTag];
    NothingOutside(before);
    NothingOutside(after);
    TextElementCapture(0, tag, nodes);
    CaptureInTwoParts(0, before, element);
    CaptureInTwoParts(0, before + element, after);
    assert "" + TextOf(nodes) + "" == TextOf(nodes);
  }

  // ----- breaks that fire an end event --------------------------------------------------

  /** Content read in document order. */
  datatype Mark = Chunk(text: string) | Newline | SelfBreak | Enter(tag: string) | Start(tag: string) | Leave

  function Marks(nodes: seq<Node>): seq<Mark> {
    if nodes == [] then []
    else
      (match nodes[0]
       case Text(text) => [Chunk(text)]
       case LineBreak => [Newline]
       case ClosedBreak => [SelfBreak]
       case Element(tag, children) => [Enter(tag)] + Marks(children) + [Leave]
       case TextElement(tag, children) => [Start(tag)] + Marks(children) + [Leave])
      + Marks(nodes[1..])
  }

  function MarkEvent(mark: Mark): seq<Event> {
    match mark
    case Chunk(text) => [Data(text)]
    case Newline => [Open("br")]
    case SelfBreak => [Open("br"), EndTag]
    case Enter(tag) => [Open(tag)]
    case Start(tag) => [OpenText(tag)]
    case Leave => [EndTag]
  }

  function MarkEvents(marks: seq<Mark>): seq<Event> {
    if marks == [] then [] else MarkEvent(marks[0]) + MarkEvents(marks[1..])
  }

  /** The text that stands there, whether the parser sees it or not. */
  function MarkText(marks: seq<Mark>): string {
    if marks == [] then ""
    else
      (match marks[0]
       case Chunk(text) => text
       case Newline => "\n"
       case SelfBreak => "\n"
       case _ => "")
      + MarkText(marks[1..])
  }

  /** Elements entered and not left again. */
  function OpenElements(marks: seq<Mark>): int {
    if marks == [] then 0
    else (if marks[0].Enter? || marks[0].Start? then 1 else if marks[0].Leave? then -1 else 0) + OpenElements(marks[1..])
  }

  function BreaksPassed(marks: seq<Mark>): nat {
    if marks == [] then 0 else (if marks[0].SelfBreak? then 1 else 0) + BreaksPassed(marks[1..])
  }

  /** The level a text element entered at `depth` has left after these marks. */
  function Level(depth: nat, marks: seq<Mark>): int {
    depth + OpenElements(marks) - BreaksPassed(marks)
  }

  /** The level is used up after `n` marks and not before, or never. */
  predicate UsedUpAt(depth: nat, marks: seq<Mark>, n: nat) {
    n <= |marks|
    && (forall i | 0 <= i < n :: Level(depth, marks[..i]) > 0)
    && (if n < |marks| then Level(depth, marks[..n]) == 0 else Level(depth, marks[..n]) >= 0)
  }

  function Change(mark: Mark): int {
    if mark.Enter? || mark.Start? then 1 else if mark.Leave? || mark.SelfBreak? then -1 else 0
  }

  /** How many marks the capture lasts. */
  function Cut(depth: nat, marks: seq<Mark>): (n: nat)
    ensures n <= |marks|
    decreases |marks|
  {
    if depth == 0 || marks == [] then 0 else 1 + Cut(depth + Change(marks[0]), marks[1..])
  }

  lemma LevelStep(depth: nat, marks: seq<Mark>, i: nat)
    requires depth > 0 && 0 < i <= |marks|
    ensures Level(depth, marks[..i]) == Level(depth + Change(marks[0]), marks[1..][..i - 1])
  {
    assert marks[..i][1..] == marks[1..][..i - 1];
  }

  lemma {:induction false} CutIsWhereLevelEnds(depth: nat, marks: seq<Mark>)
    ensures UsedUpAt(depth, marks, Cut(depth, marks))
    decreases |marks|
  {
    hide OpenElements, BreaksPassed;
    LevelAtStart(depth);
    assert marks[..0] == [];
    if depth > 0 && marks != [] {
      var next, rest := depth + Change(marks[0]), marks[1..];
      var n := 1 + Cut(next, rest);
      CutIsWhereLevelEnds(next, rest);
      LevelStep(depth, marks, n);
      forall i | 0 <= i < n
        ensures Level(depth, marks[..i]) > 0
      {
        if i > 0 {
          LevelStep(depth, marks, i);
        }
      }
    }
  }

  lemma LevelAtStart(depth: nat)
    ensures Level(depth, []) == depth
  {
  }

  /** No tag in the marks is a bare `br`. */
  predicate TagsAreNotBreaks(marks: seq<Mark>) {
    forall mark | mark in marks :: mark.Enter? ==> mark.tag != "br"
  }

  /** No text element starts among the marks. */
  predicate NoStart(marks: seq<Mark>) {
    forall mark | mark in marks :: !mark.Start?
  }

  /** One mark, inside the capture. */
  lemma MarkCapture(depth: nat, mark: Mark)
    requires depth > 0 && (mark.Enter? ==> mark.tag != "br") && !mark.Start?
    ensures Captured(depth, MarkEvent(mark)) == MarkText([mark])
    ensures DepthAfterAll(depth, MarkEvent(mark)) == depth + Change(mark)
  {
    assert MarkText([mark][1..]) == "";
    if mark.SelfBreak? {
      assert MarkEvent(mark) == [Open("br")] + [EndTag];
      CaptureOne(depth, Open("br"));
      CaptureOne(depth, EndTag);
      CaptureInTwoParts(depth, [Open("br")], [EndTag]);
    } else {
      CaptureOne(depth, MarkEvent(mark)[0]);
    }
  }

  /** What is captured is exactly the text up to the point where the level is used
      up, and the depth is that level as long as it lasts. */
  lemma {:induction false} CaptureUpToCut(depth: nat, marks: seq<Mark>)
    requires TagsAreNotBreaks(marks) && NoStart(marks)
    ensures Captured(depth, MarkEvents(marks)) == MarkText(marks[..Cut(depth, marks)])
    ensures DepthAfterAll(depth, MarkEvents(marks)) ==
              if Cut(depth, marks) < |marks| then 0 else Level(depth, marks)
    decreases |marks|
  {
    hide MarkEvent, Captured, DepthAfterAll;
    var n := Cut(depth, marks);
    if depth == 0 {
      MarksHaveNoTextStart(marks);
      NothingOutside(MarkEvents(marks));
      assert marks[..0] == [];
    } else if marks == [] {
      NothingCaptured(depth);
    } else {
      var mark, rest, next := marks[0], marks[1..], depth + Change(marks[0]);
      CaptureUpToCut(next, rest);
      MarkCapture(depth, mark);
      CaptureInTwoParts(depth, MarkEvent(mark), MarkEvents(rest));
      assert marks[..n] == [mark] + rest[..n - 1];
      MarkTextInTwoParts([mark], rest[..n - 1]);
    }
  }

  lemma NothingCaptured(depth: nat)
    ensures Captured(depth, []) == "" && DepthAfterAll(depth, []) == depth
  {
  }

  lemma {:induction false} MarksHaveNoTextStart(marks: seq<Mark>)
    requires NoStart(marks)
    ensures forall i | 0 <= i < |MarkEvents(marks)| :: MarkEvents(marks)[i].StartTag? ==> !MarkEvents(marks)[i].isText
  {
    if marks != [] {
      MarksHaveNoTextStart(marks[1..]);
    }
  }

  lemma {:induction false} MarkTextInTwoParts(a: seq<Mark>, b: seq<Mark>)
    ensures MarkText(a + b) == MarkText(a) + MarkText(b)
  {
    if a == [] {
      assert a + b == b;
    } else {
      assert (a + b)[1..] == a[1..] + b;
      MarkTextInTwoParts(a[1..], b);
    }
  }

  lemma {:induction false} MarkEventsInTwoParts(a: seq<Mark>, b: seq<Mark>)
    ensures MarkEvents(a + b) == MarkEvents(a) + MarkEvents(b)
  {
    if a == [] {
      assert a + b == b;
    } else {
      assert (a + b)[1..] == a[1..] + b;
      MarkEventsInTwoParts(a[1..], b);
      assert MarkEvent(a[0]) + (MarkEvents(a[1..]) + MarkEvents(b)) == MarkEvent(a[0]) + MarkEvents(a[1..]) + MarkEvents(b);
    }
  }

  lemma OneMark(mark: Mark)
    ensures MarkEvents([mark]) == MarkEvent(mark)
  {
    assert [mark][1..] == [];
    assert MarkEvent(mark) + [] == MarkEvent(mark);
  }

  /** The marks of content carry its text and fire its events. */
  lemma MarksOfContent(nodes: seq<Node>)
    requires WellTagged(nodes)
    ensures MarkText(Marks(nodes)) == TextOf(nodes) && MarkEvents(Marks(nodes)) == Events(nodes)
    ensures TagsAreNotBreaks(Marks(nodes)) && (Unnested(nodes) ==> NoStart(Marks(nodes)))
  {
    TextOfMarks(nodes);
    EventsOfMarks(nodes);
    TagsOfMarks(nodes);
  }

  /** The mark content begins with, if that is no element. */
  function LeafMark(node: Node): Mark
    requires !node.Element? && !node.TextElement?
  {
    match node
    case Text(text) => Chunk(text)
    case LineBreak => Newline
    case ClosedBreak => SelfBreak
  }

  /** The mark an element begins with. */
  function EntryMark(node: Node): Mark
    requires node.Element? || node.TextElement?
  {
    if node.Element? then Enter(node.tag) else Start(node.tag)
  }

  lemma {:induction false} TextOfMarks(nodes: seq<Node>)
    ensures MarkText(Marks(nodes)) == TextOf(nodes)
    decreases nodes
  {
    hide MarkText;
    if nodes == [] {
      NoMarks();
    } else {
      var node, later := nodes[0], Marks(nodes[1..]);
      TextOfMarks(nodes[1..]);
      if node.Element? || node.TextElement? {
        var inside := [EntryMark(node)] + Marks(node.children) + [Leave];
        TextOfMarks(node.children);
        ElementMarks(EntryMark(node), node.children);
        MarkTextInTwoParts(inside, later);
      } else {
        LeafMarks(LeafMark(node), later);
        LeafText(LeafMark(node));
      }
    }
  }

  lemma {:induction false} EventsOfMarks(nodes: seq<Node>)
    ensures MarkEvents(Marks(nodes)) == Events(nodes)
    decreases nodes
  {
    hide MarkEvents;
    if nodes == [] {
      NoMarks();
    } else {
      var node, later := nodes[0], Marks(nodes[1..]);
      EventsOfMarks(nodes[1..]);
      if node.Element? || node.TextElement? {
        var inside := [EntryMark(node)] + Marks(node.children) + [Leave];
        EventsOfMarks(node.children);
        ElementMarks(EntryMark(node), node.children);
        MarkEventsInTwoParts(inside, later);
      } else {
        LeafMarks(LeafMark(node), later);
      }
    }
  }

  lemma {:induction false} TagsOfMarks(nodes: seq<Node>)
    requires WellTagged(nodes)
    ensures TagsAreNotBreaks(Marks(nodes)) && (Unnested(nodes) ==> NoStart(Marks(nodes)))
    decreases nodes
  {
    hide TagsAreNotBreaks, NoStart;
    if nodes == [] {
      NoMarks();
    } else {
      var node, later := nodes[0], Marks(nodes[1..]);
      assert node in nodes;
      TagsOfMarks(nodes[1..]);
      if node.Element? || node.TextElement? {
        TagsOfMarks(node.children);
        ElementTags(EntryMark(node), Marks(node.children), later);
      } else {
        LeafTags(LeafMark(node), later);
      }
    }
  }

  lemma NoMarks()
    ensures MarkText([]) == "" && MarkEvents([]) == [] && TagsAreNotBreaks([]) && NoStart([])
  {
  }

  lemma LeafText(mark: Mark)
    requires mark.Chunk? || mark.Newline? || mark.SelfBreak?
    ensures MarkText([mark]) == if mark.Chunk? then mark.text else "\n"
  {
    assert [mark][1..] == [];
  }

  lemma LeafTags(mark: Mark, later: seq<Mark>)
    requires !mark.Enter? && !mark.Start? && TagsAreNotBreaks(later)
    ensures TagsAreNotBreaks([mark] + later) && (NoStart(later) ==> NoStart([mark] + later))
  {
  }

  lemma ElementTags(entry: Mark, inside: seq<Mark>, later: seq<Mark>)
    requires (entry.Enter? ==> entry.tag != "br") && TagsAreNotBreaks(inside) && TagsAreNotBreaks(later)
    ensures TagsAreNotBreaks([entry] + inside + [Leave] + later)
    ensures !entry.Start? && NoStart(inside) && NoStart(later) ==> NoStart([entry] + inside + [Leave] + later)
  {
  }

  lemma LeafMarks(mark: Mark, later: seq<Mark>)
    ensures MarkText([mark] + later) == MarkText([mark]) + MarkText(later)
    ensures MarkEvents([mark] + later) == MarkEvent(mark) + MarkEvents(later)
  {
    MarkTextInTwoParts([mark], later);
    MarkEventsInTwoParts([mark], later);
    OneMark(mark);
  }

  lemma ElementMarks(entry: Mark, children: seq<Node>)
    requires entry.Enter? || entry.Start?
    ensures var inside := [entry] + Marks(children) + [Leave];
            MarkText(inside) == MarkText(Marks(children))
            && MarkEvents(inside) == MarkEvent(entry) + MarkEvents(Marks(children)) + [EndTag]
  {
    var marks := Marks(children);
    LeafMarks(entry, marks);
    MarkTextInTwoParts([entry] + marks, [Leave]);
    MarkEventsInTwoParts([entry] + marks, [Leave]);
    OneMark(Leave);
    assert MarkText([Leave]) == "" && MarkText([entry]) == "";
    assert "" + MarkText(marks) + "" == MarkText(marks);
  }

  /** A text element with breaks of every kind, at any depth and in any number. Its
      level starts at one, rises with each element entered and falls with each one
      left and with each break that fires an end event; where it is used up, the
      capture ends. What is captured is exactly the text before that point, and it
      is whole exactly when nothing with text lies behind it. */
  lemma ClosedBreaksEndCapture(tag: string, nodes: seq<Node>)
    requires WellTagged(nodes) && Unnested(nodes)
    ensures var element, marks := [OpenText(tag)] + Events(nodes) + [EndTag], Marks(nodes) + [Leave];
            var n := Cut(1, marks);
            UsedUpAt(1, marks, n) && DepthAfterAll(0, element) == 0
            && Captured(0, element) == MarkText(marks[..n])
            && (Captured(0, element) == TextOf(nodes) <==> MarkText(marks[n..]) == "")
  {
    hide Captured, DepthAfterAll, MarkEvents, MarkText, OpenElements, BreaksPassed, Cut;
    var marks := Marks(nodes) + [Leave];
    var n := Cut(1, marks);
    MarksOfContent(nodes);
    MarkEventsInTwoParts(Marks(nodes), [Leave]);
    MarkTextInTwoParts(Marks(nodes), [Leave]);
    OneMark(Leave);
    LeaveHasNoText();
    CutIsWhereLevelEnds(1, marks);
    CaptureUpToCut(1, marks);
    AtMostOneLeft(nodes);
    CaptureOne(0, OpenText(tag));
    var element := [OpenText(tag)] + Events(nodes) + [EndTag];
    assert element == [OpenText(tag)] + MarkEvents(marks);
    CaptureInTwoParts(0, [OpenText(tag)], MarkEvents(marks));
    assert marks == marks[..n] + marks[n..];
    MarkTextInTwoParts(marks[..n], marks[n..]);
    assert "" + MarkText(marks[..n]) == MarkText(marks[..n]);
    assert TextOf(nodes) + "" == TextOf(nodes);
    SameExactlyWithoutRest(MarkText(marks[..n]), MarkText(marks[n..]));
  }

  lemma SameExactlyWithoutRest(a: string, b: string)
    ensures a == a + b <==> b == ""
  {
    assert |a + b| == |a| + |b|;
  }

  lemma LeaveHasNoText()
    ensures MarkText([Leave]) == ""
  {
  }

  /** Content leaves every element it enters; closing the text element itself uses
      up what is left. */
  lemma AtMostOneLeft(nodes: seq<Node>)
    ensures Level(1, Marks(nodes) + [Leave]) <= 0
  {
    ContentIsBalanced(nodes);
    CountsInTwoParts(Marks(nodes), [Leave]);
    assert OpenElements([Leave]) == -1;
  }

  lemma {:induction false} ContentIsBalanced(nodes: seq<Node>)
    ensures OpenElements(Marks(nodes)) == 0
    decreases nodes
  {
    if nodes != [] {
      ContentIsBalanced(nodes[1..]);
      var head := Marks(nodes)[..|Marks(nodes)| - |Marks(nodes[1..])|];
      assert Marks(nodes) == head + Marks(nodes[1..]);
      CountsInTwoParts(head, Marks(nodes[1..]));
      if nodes[0].Element? || nodes[0].TextElement? {
        var children := Marks(nodes[0].children);
        var entry := if nodes[0].Element? then Enter(nodes[0].tag) else Start(nodes[0].tag);
        ContentIsBalanced(nodes[0].children);
        assert head == [entry] + children + [Leave];
        CountsInTwoParts([entry] + children, [Leave]);
        CountsInTwoParts([entry], children);
      }
    }
  }

  lemma {:induction false} CountsInTwoParts(a: seq<Mark>, b: seq<Mark>)
    ensures OpenElements(a + b) == OpenElements(a) + OpenElements(b)
    ensures BreaksPassed(a + b) == BreaksPassed(a) + BreaksPassed(b)
  {
    if a == [] {
      assert a + b == b;
    } else {
      assert (a + b)[1..] == a[1..] + b;
      CountsInTwoParts(a[1..], b);
    }
  }

  /** The shortest case: a closed break directly inside the text element ends the
      capture there, and in this shape the text is whole exactly when nothing with
      text follows the break. */
  lemma SelfClosingBreakEndsCapture(tag: string, before: seq<Node>, after: seq<Node>)
    requires Plain(before) && Plain(after)
    ensures var element := [OpenText(tag)] + Events(before) + [Open("br"), EndTag] + Events(after) + [EndTag];
            Captured(0, element) == TextOf(before) + "\n"
            && (Captured(0, element) == TextOf(before) + "\n" + TextOf(after) <==> TextOf(after) == "")
  {
    var breaking, tail := [Open("br"), EndTag], Events(after) + [EndTag];
    BreakCapture();
    PlainIsUnnested(after);
    NothingAfterCapture(after);
    TextStartCapture(tag, before);
    hide Captured, DepthAfterAll, Contribution, DepthAfter, Events, TextOf;
    CaptureInTwoParts(0, [OpenText(tag)] + Events(before), breaking);
    CaptureInTwoParts(0, [OpenText(tag)] + Events(before) + breaking, tail);
    var element := [OpenText(tag)] + Events(before) + breaking + Events(after) + [EndTag];
    assert element == [OpenText(tag)] + Events(before) + breaking + tail;
    var whole := TextOf(before) + "\n";
    assert whole + "" == whole;
    assert |whole + TextOf(after)| == |whole| + |TextOf(after)|;
  }

  /** A text element as far as it is open. */
  lemma TextStartCapture(tag: string, before: seq<Node>)
    requires Plain(before)
    ensures Captured(0, [OpenText(tag)] + Events(before)) == TextOf(before)
    ensures DepthAfterAll(0, [OpenText(tag)] + Events(before)) == 1
  {
    BalancedCapture(1, before);
    CaptureOne(0, OpenText(tag));
    CaptureInTwoParts(0, [OpenText(tag)], Events(before));
    assert "" + TextOf(before) == TextOf(before);
  }

  lemma BreakCapture()
    ensures Captured(1, [Open("br"), EndTag]) == "\n" && DepthAfterAll(1, [Open("br"), EndTag]) == 0
  {
    assert [Open("br"), EndTag] == [Open("br")] + [EndTag];
    CaptureOne(1, Open("br"));
    CaptureOne(1, EndTag);
    CaptureInTwoParts(1, [Open("br")], [EndTag]);
  }

  lemma NothingAfterCapture(after: seq<Node>)
    requires Unnested(after)
    ensures Captured(0, Events(after) + [EndTag]) == "" && DepthAfterAll(0, Events(after) + [EndTag]) == 0
  {
    EventsHaveNoTextStart(after);
    var tail := Events(after) + [EndTag];
    assert forall i | 0 <= i < |tail| :: tail[i].StartTag? ==> !tail[i].isText;
    NothingOutside(tail);
  }

  lemma {:induction false} PlainIsUnnested(nodes: seq<Node>)
    requires Plain(nodes)
    ensures Unnested(nodes) && WellTagged(nodes)
    decreases nodes
  {
    forall node | node in nodes && node.Element?
      ensures Unnested(node.children) && WellTagged(node.children)
    {
      PlainIsUnnested(node.children);
    }
  }

  lemma {:induction false} EventsHaveNoTextStart(nodes: seq<Node>)
    requires Unnested(nodes)
    ensures forall i | 0 <= i < |Events(nodes)| :: Events(nodes)[i].StartTag? ==> !Events(nodes)[i].isText
    decreases nodes
  {
    if nodes != [] {
      assert nodes[0] in nodes;
      EventsHaveNoTextStart(nodes[1..]);
      if nodes[0].Element? {
        EventsHaveNoTextStart(nodes[0].children);
      }
    }
  }

  /** The shortest case of a text element inside a text element: the inner one resets
      the depth instead of adding to it, and plain content behind it is lost. */
  lemma NestedTextElementEndsCapture(tag: string, before: seq<Node>, inner: seq<Node>, after: seq<Node>)
    requires Plain(before) && Plain(inner) && Plain(after)
    ensures Captured(0, [OpenText(tag)] + Events(before) + ([OpenText(tag)] + Events(inner) + [EndTag])
                        + (Events(after) + [EndTag]))
         == TextOf(before) + TextOf(inner)
  {
    var nested, tail := [OpenText(tag)] + Events(inner) + [EndTag], Events(after) + [EndTag];
    TextStartCapture(tag, before);
    TextElementCapture(1, tag, inner);
    CaptureInTwoParts(0, [OpenText(tag)] + Events(before), nested);
    PlainIsUnnested(after);
    NothingAfterCapture(after);
    CaptureInTwoParts(0, [OpenText(tag)] + Events(before) + nested, tail);
    assert TextOf(before) + TextOf(inner) + "" == TextOf(before) + TextOf(inner);
  }

  // ----- text elements in any number ----------------------------------------------------

  function NextStart(marks: seq<Mark>): (n: nat)
    ensures n <= |marks| && NoStart(marks[..n]) && (n < |marks| ==> marks[n].Start?)
  {
    if marks == [] || marks[0].Start? then 0
    else
      assert marks[..1 + NextStart(marks[1..])] == [marks[0]] + marks[1..][..NextStart(marks[1..])];
      1 + NextStart(marks[1..])
  }

  /** What comes before the first text element starts, and what follows each start up
      to the next. */
  function Segments(marks: seq<Mark>): (segments: seq<seq<Mark>>)
    ensures |segments| >= 1
    decreases |marks|
  {
    var n := NextStart(marks);
    if n == |marks| then [marks] else [marks[..n]] + Segments(marks[n + 1..])
  }

  /** The text of each segment up to its own cut, the first starting at `depth` and
      every other at one. */
  function SeenText(depth: nat, segments: seq<seq<Mark>>): string
    decreases |segments|
  {
    if segments == [] then ""
    else MarkText(segments[0][..Cut(depth, segments[0])]) + SeenText(1, segments[1..])
  }

  /** The text behind the cuts. */
  function LostText(depth: nat, segments: seq<seq<Mark>>): string
    decreases |segments|
  {
    if segments == [] then ""
    else MarkText(segments[0][Cut(depth, segments[0])..]) + LostText(1, segments[1..])
  }

  lemma OneSegment(depth: nat, marks: seq<Mark>)
    requires NoStart(marks)
    ensures Segments(marks) == [marks]
    ensures SeenText(depth, [marks]) == MarkText(marks[..Cut(depth, marks)])
    ensures LostText(depth, [marks]) == MarkText(marks[Cut(depth, marks)..])
  {
    hide Cut, MarkText;
    assert forall i | 0 <= i < |marks| :: marks[i] in marks && !marks[i].Start?;
    assert [marks][1..] == [];
    assert MarkText(marks[..Cut(depth, marks)]) + "" == MarkText(marks[..Cut(depth, marks)]);
    assert MarkText(marks[Cut(depth, marks)..]) + "" == MarkText(marks[Cut(depth, marks)..]);
  }

  /** For marks of any kind, balanced or not: every start of a text element begins a
      segment, and what is captured is the sum of the segments' texts, each up to the
      point where its own level is used up. */
  lemma {:induction false} CaptureBySegments(depth: nat, marks: seq<Mark>)
    requires TagsAreNotBreaks(marks)
    ensures Captured(depth, MarkEvents(marks)) == SeenText(depth, Segments(marks))
    decreases |marks|
  {
    hide Captured, DepthAfterAll, MarkEvents, MarkText, Cut;
    var n := NextStart(marks);
    var segment := marks[..n];
    CaptureUpToCut(depth, segment);
    if n == |marks| {
      assert segment == marks;
      OneSegment(depth, marks);
    } else {
      var rest := marks[n + 1..];
      assert marks == segment + ([marks[n]] + rest);
      MarkEventsInTwoParts(segment, [marks[n]] + rest);
      CaptureInTwoParts(depth, MarkEvents(segment), MarkEvents([marks[n]] + rest));
      StartCapture(DepthAfterAll(depth, MarkEvents(segment)), marks[n], rest);
      CaptureBySegments(1, rest);
      assert Segments(marks)[0] == segment && Segments(marks)[1..] == Segments(rest);
    }
  }

  lemma StartCapture(depth: nat, start: Mark, rest: seq<Mark>)
    requires start.Start?
    ensures Captured(depth, MarkEvents([start] + rest)) == Captured(1, MarkEvents(rest))
  {
    hide Captured, DepthAfterAll, MarkEvents;
    LeafMarks(start, rest);
    CaptureOne(depth, OpenText(start.tag));
    CaptureInTwoParts(depth, [OpenText(start.tag)], MarkEvents(rest));
    assert "" + Captured(1, MarkEvents(rest)) == Captured(1, MarkEvents(rest));
  }

  /** Nothing is lost exactly when no segment has text behind its cut. */
  lemma {:induction false} SeenIsAll(depth: nat, marks: seq<Mark>)
    ensures |SeenText(depth, Segments(marks))| + |LostText(depth, Segments(marks))| == |MarkText(marks)|
    ensures SeenText(depth, Segments(marks)) == MarkText(marks) <==> LostText(depth, Segments(marks)) == ""
    decreases |marks|
  {
    hide MarkText, Cut, Segments, SeenText, LostText;
    var n := NextStart(marks);
    var segment, cut := marks[..n], Cut(depth, marks[..n]);
    assert segment == segment[..cut] + segment[cut..];
    MarkTextInTwoParts(segment[..cut], segment[cut..]);
    if n == |marks| {
      assert segment == marks;
      OneSegment(depth, marks);
      SameExactlyWithoutRest(MarkText(segment[..cut]), MarkText(segment[cut..]));
    } else {
      SegmentsStep(depth, marks);
      var rest := marks[n + 1..];
      SeenIsAll(1, rest);
      EqualInParts(MarkText(segment[..cut]), MarkText(segment[cut..]), SeenText(1, Segments(rest)), MarkText(rest));
      BothEmpty(MarkText(segment[cut..]), LostText(1, Segments(rest)));
    }
  }

  /** The first segment, and those behind its start. */
  lemma SegmentsStep(depth: nat, marks: seq<Mark>)
    requires NextStart(marks) < |marks|
    ensures var n := NextStart(marks);
            var segment, rest := marks[..n], Segments(marks[n + 1..]);
            && MarkText(marks) == MarkText(segment) + MarkText(marks[n + 1..])
            && SeenText(depth, Segments(marks)) == MarkText(segment[..Cut(depth, segment)]) + SeenText(1, rest)
            && LostText(depth, Segments(marks)) == MarkText(segment[Cut(depth, segment)..]) + LostText(1, rest)
  {
    hide MarkText, Cut;
    var n := NextStart(marks);
    var segment, rest := marks[..n], marks[n + 1..];
    assert marks == segment + ([marks[n]] + rest);
    MarkTextInTwoParts(segment, [marks[n]] + rest);
    MarkTextInTwoParts([marks[n]], rest);
    StartHasNoText(marks[n]);
    assert "" + MarkText(rest) == MarkText(rest);
    assert Segments(marks)[0] == segment && Segments(marks)[1..] == Segments(rest);
  }

  /** A part of no greater length than the whole it stands for is the whole exactly
      when nothing is missing in front and the rest is whole. */
  lemma EqualInParts(seen: string, lost: string, rest: string, whole: string)
    requires |rest| <= |whole|
    ensures seen + rest == seen + lost + whole <==> lost == "" && rest == whole
  {
    assert |seen + rest| == |seen| + |rest| && |seen + lost + whole| == |seen| + |lost| + |whole|;
    if seen + rest == seen + lost + whole {
      assert lost == "";
      assert (seen + rest)[|seen|..] == rest && (seen + lost + whole)[|seen|..] == lost + whole;
    }
  }

  lemma BothEmpty(a: string, b: string)
    ensures a + b == "" <==> a == "" && b == ""
  {
    assert |a + b| == |a| + |b|;
  }

  lemma StartHasNoText(mark: Mark)
    requires mark.Start?
    ensures MarkText([mark]) == ""
  {
  }

  /** Any event as a mark. */
  function MarkOf(e: Event): Mark {
    match e
    case StartTag(tag, _, _, isText) => if isText then Start(tag) else if tag == "br" then Newline else Enter(tag)
    case EndTag => Leave
    case Data(text) => Chunk(text)
  }

  function MarksOf(events: seq<Event>): (marks: seq<Mark>)
    ensures TagsAreNotBreaks(marks)
  {
    if events == [] then [] else [MarkOf(events[0])] + MarksOf(events[1..])
  }

  /** For every stream of events whatsoever, the text captured is that of the segments
      its text starts cut it into. */
  lemma {:induction false} StreamBySegments(depth: nat, events: seq<Event>)
    ensures Captured(depth, events) == SeenText(depth, Segments(MarksOf(events)))
  {
    AsMarks(depth, events);
    CaptureBySegments(depth, MarksOf(events));
  }

  lemma {:induction false} AsMarks(depth: nat, events: seq<Event>)
    ensures Captured(depth, events) == Captured(depth, MarkEvents(MarksOf(events)))
    decreases |events|
  {
    if events != [] {
      var next := DepthAfter(depth, events[0]);
      AsMarks(next, events[1..]);
      var mark, later := MarkEvent(MarkOf(events[0])), MarkEvents(MarksOf(events[1..]));
      assert MarkEvents(MarksOf(events)) == mark + later && |mark| == 1;
      assert (mark + later)[1..] == later;
    }
  }

  // ----- one text element, others within -------------------------------------------------

  /** The text of a text element that the parser sees. */
  function TextSeen(nodes: seq<Node>): string {
    SeenText(1, Segments(Marks(nodes) + [Leave]))
  }

  /** The text of it that the parser loses. */
  function TextLost(nodes: seq<Node>): string {
    LostText(1, Segments(Marks(nodes) + [Leave]))
  }

  /** Content never leaves the depth greater than it finds it. */
  lemma {:induction false} ContentAddsNoDepth(depth: nat, nodes: seq<Node>)
    requires WellTagged(nodes)
    ensures DepthAfterAll(depth, Events(nodes)) <= depth
    decreases nodes
  {
    if nodes != [] {
      var node, later := nodes[0], nodes[1..];
      assert node in nodes;
      var head := Events(nodes)[..|Events(nodes)| - |Events(later)|];
      assert Events(nodes) == head + Events(later);
      CaptureInTwoParts(depth, head, Events(later));
      if node.Element? || node.TextElement? {
        var start := if node.Element? then Open(node.tag) else OpenText(node.tag);
        ContentAddsNoDepth(DepthAfter(depth, start), node.children);
        assert head == [start] + Events(node.children) + [EndTag];
        ElementDepth(depth, start, Events(node.children));
      } else if node.ClosedBreak? {
        assert head == [Open("br")] + [EndTag];
        CaptureInTwoParts(depth, [Open("br")], [EndTag]);
        CaptureOne(depth, Open("br"));
        CaptureOne(depth, EndTag);
      } else {
        assert |head| == 1 && head == [head[0]];
        CaptureOne(depth, head[0]);
      }
      ContentAddsNoDepth(DepthAfterAll(depth, head), later);
    }
  }

  lemma ElementDepth(depth: nat, start: Event, inside: seq<Event>)
    requires DepthAfterAll(DepthAfter(depth, start), inside) <= DepthAfter(depth, start)
    requires start.StartTag?
    ensures DepthAfterAll(depth, [start] + inside + [EndTag]) <= depth
    ensures start.isText ==> DepthAfterAll(depth, [start] + inside + [EndTag]) == 0
  {
    CaptureOne(depth, start);
    CaptureInTwoParts(depth, [start], inside);
    CaptureInTwoParts(depth, [start] + inside, [EndTag]);
    CaptureOne(DepthAfterAll(depth, [start] + inside), EndTag);
  }

  /** A text element whatever is within, breaks of every kind and further text elements
      at any depth and in any number: the capture is the text seen, it is whole exactly
      when none is lost, and it is over when the element closes. */
  lemma TextElementBySegments(depth: nat, tag: string, nodes: seq<Node>)
    requires WellTagged(nodes)
    ensures var element := [OpenText(tag)] + Events(nodes) + [EndTag];
            Captured(depth, element) == TextSeen(nodes) && DepthAfterAll(depth, element) == 0
            && (Captured(depth, element) == TextOf(nodes) <==> TextLost(nodes) == "")
  {
    hide Captured, DepthAfterAll, MarkEvents, MarkText, SeenText, LostText, Segments;
    var marks := Marks(nodes) + [Leave];
    MarksOfContent(nodes);
    MarkEventsInTwoParts(Marks(nodes), [Leave]);
    MarkTextInTwoParts(Marks(nodes), [Leave]);
    OneMark(Leave);
    LeaveHasNoText();
    assert TextOf(nodes) + "" == TextOf(nodes);
    LeafMarks(Start(tag), marks);
    StartCapture(depth, Start(tag), marks);
    var element := [OpenText(tag)] + Events(nodes) + [EndTag];
    assert element == [OpenText(tag)] + MarkEvents(marks);
    CaptureBySegments(1, marks);
    SeenIsAll(1, marks);
    ContentAddsNoDepth(1, nodes);
    ElementDepth(depth, OpenText(tag), Events(nodes));
  }

  /** Text elements one behind the other inside a text element, plain content between
      them. */
  datatype Inner = Inner(tag: string, nodes: seq<Node>, after: seq<Node>)

  predicate PlainInners(inners: seq<Inner>) {
    forall inner | inner in inners :: Plain(inner.nodes) && Plain(inner.after)
  }

  function InnerEvents(inners: seq<Inner>): seq<Event> {
    if inners == [] then []
    else
      var inner := inners[0];
      ([OpenText(inner.tag)] + Events(inner.nodes) + [EndTag]) + (Events(inner.after) + InnerEvents(inners[1..]))
  }

  function InnerText(inners: seq<Inner>): string {
    if inners == [] then "" else TextOf(inners[0].nodes) + InnerText(inners[1..])
  }

  function InnerWhole(inners: seq<Inner>): string {
    if inners == [] then "" else TextOf(inners[0].nodes) + TextOf(inners[0].after) + InnerWhole(inners[1..])
  }

  lemma SameBehind(front: string, a: string, b: string)
    ensures front + a == front + b <==> a == b
  {
    assert (front + a)[|front|..] == a && (front + b)[|front|..] == b;
  }

  /** No plain content with text stands behind an inner element. */
  predicate NothingBetween(inners: seq<Inner>) {
    forall i | 0 <= i < |inners| :: TextOf(inners[i].after) == ""
  }

  lemma {:induction false} InnersWhole(inners: seq<Inner>)
    ensures |InnerText(inners)| <= |InnerWhole(inners)|
    ensures InnerText(inners) == InnerWhole(inners) <==> NothingBetween(inners)
  {
    hide TextOf, NothingBetween;
    if inners == [] {
      NothingBetweenNone();
    } else {
      var inner, rest := inners[0], inners[1..];
      InnersWhole(rest);
      NothingBetweenStep(inners);
      EqualInParts(TextOf(inner.nodes), TextOf(inner.after), InnerText(rest), InnerWhole(rest));
    }
  }

  lemma NothingBetweenNone()
    ensures NothingBetween([])
  {
  }

  lemma NothingBetweenStep(inners: seq<Inner>)
    requires inners != []
    ensures NothingBetween(inners) <==> TextOf(inners[0].after) == "" && NothingBetween(inners[1..])
  {
    hide TextOf;
    var rest := inners[1..];
    assert forall i | 0 < i < |inners| :: inners[i] == rest[i - 1];
    assert forall i | 0 <= i < |rest| :: rest[i] == inners[i + 1];
  }

  lemma {:induction false} InnersCapture(depth: nat, inners: seq<Inner>)
    requires PlainInners(inners)
    ensures Captured(depth, InnerEvents(inners)) == InnerText(inners)
    ensures inners != [] ==> DepthAfterAll(depth, InnerEvents(inners)) == 0
    decreases |inners|
  {
    hide Captured, DepthAfterAll, Events, TextOf;
    if inners == [] {
      NothingCaptured(depth);
    } else {
      var inner, later := inners[0], InnerEvents(inners[1..]);
      assert inner in inners;
      var element := [OpenText(inner.tag)] + Events(inner.nodes) + [EndTag];
      TextElementCapture(depth, inner.tag, inner.nodes);
      PlainIsUnnested(inner.after);
      EventsHaveNoTextStart(inner.after);
      NothingOutside(Events(inner.after));
      InnersCapture(0, inners[1..]);
      CaptureInTwoParts(depth, element, Events(inner.after) + later);
      CaptureInTwoParts(0, Events(inner.after), later);
      NothingCaptured(0);
      assert "" + InnerText(inners[1..]) == InnerText(inners[1..]);
    }
  }

  /** With plain content throughout, what stands before the first inner element is
      captured, and each inner element; what stands behind one, up to the next, is not. */
  lemma NestedTextElements(tag: string, before: seq<Node>, inners: seq<Inner>)
    requires Plain(before) && PlainInners(inners)
    ensures var captured := Captured(0, [OpenText(tag)] + Events(before) + (InnerEvents(inners) + [EndTag]));
            captured == TextOf(before) + InnerText(inners)
            && (captured == TextOf(before) + InnerWhole(inners) <==> NothingBetween(inners))
  {
    hide Captured, DepthAfterAll, Events, TextOf, InnerEvents, InnerText, InnerWhole;
    InnersWhole(inners);
    SameBehind(TextOf(before), InnerText(inners), InnerWhole(inners));
    TextStartCapture(tag, before);
    InnersCapture(1, inners);
    CaptureInTwoParts(0, [OpenText(tag)] + Events(before), InnerEvents(inners) + [EndTag]);
    CaptureInTwoParts(1, InnerEvents(inners), [EndTag]);
    CaptureOne(DepthAfterAll(1, InnerEvents(inners)), EndTag);
    assert InnerText(inners) + "" == InnerText(inners);
  }

  // ----- a whole page -------------------------------------------------------------------

  /** A text element of a message, and what follows it up to the next. */
  datatype Part = Part(tag: string, nodes: seq<Node>, after: seq<Event>)

  /** One message as the page carries it: its `data-post` tag, any number of text
      elements, and anything without text starts or further posts around those. */
  datatype Block = Block(post: Event, before: seq<Event>, parts: seq<Part>)

  predicate Quiet(events: seq<Event>) {
    forall i | 0 <= i < |events| :: !IsPost(events[i]) && (events[i].StartTag? ==> !events[i].isText)
  }

  predicate TidyParts(parts: seq<Part>) {
    forall i | 0 <= i < |parts| :: WellTagged(parts[i].nodes) && Quiet(parts[i].after)
  }

  predicate Tidy(block: Block) {
    IsPost(block.post) && !block.post.isText && Quiet(block.before) && TidyParts(block.parts)
  }

  predicate AllTidy(blocks: seq<Block>) {
    forall i | 0 <= i < |blocks| :: Tidy(blocks[i])
  }

  function MessageIdOf(block: Block): Option<int>
    requires Tidy(block)
  {
    MessageId(block.post.post.number)
  }

  function PartsEvents(parts: seq<Part>): seq<Event> {
    if parts == [] then []
    else
      var part := parts[0];
      ([OpenText(part.tag)] + Events(part.nodes) + [EndTag]) + (part.after + PartsEvents(parts[1..]))
  }

  function PartsSeen(parts: seq<Part>): string {
    if parts == [] then "" else TextSeen(parts[0].nodes) + PartsSeen(parts[1..])
  }

  function BlockEvents(block: Block): seq<Event> {
    [block.post] + block.before + PartsEvents(block.parts)
  }

  function BlocksEvents(blocks: seq<Block>): seq<Event> {
    if blocks == [] then [] else BlockEvents(blocks[0]) + BlocksEvents(blocks[1..])
  }

  /** One message for each block with a new positive id: the id, the first readable
      time of the block, and the text seen in its text elements, one after another. */
  function BlockMessages(blocks: seq<Block>, seen: set<int>): seq<RawMessage>
    requires AllTidy(blocks)
  {
    if blocks == [] then []
    else
      var id := MessageIdOf(blocks[0]);
      if id.None? || id.value in seen then BlockMessages(blocks[1..], seen)
      else [RawMessage(id.value, FirstTime(BlockEvents(blocks[0])), PartsSeen(blocks[0].parts))]
           + BlockMessages(blocks[1..], seen + {id.value})
  }

  /** No event of these is a post. */
  predicate NoPosts(events: seq<Event>) {
    forall i | 0 <= i < |events| :: !IsPost(events[i])
  }

  lemma {:induction false} ContentHasNoPosts(nodes: seq<Node>)
    ensures NoPosts(Events(nodes))
    decreases nodes
  {
    if nodes != [] {
      ContentHasNoPosts(nodes[1..]);
      if nodes[0].Element? || nodes[0].TextElement? {
        ContentHasNoPosts(nodes[0].children);
      }
    }
  }

  lemma {:induction false} PartsHaveNoPosts(parts: seq<Part>)
    requires TidyParts(parts)
    ensures NoPosts(PartsEvents(parts))
    decreases |parts|
  {
    hide Events;
    if parts != [] {
      ContentHasNoPosts(parts[0].nodes);
      PartsHaveNoPosts(parts[1..]);
    }
  }

  /** From no depth, text elements one after another are captured each on its own. */
  lemma {:induction false} PartsCapture(parts: seq<Part>)
    requires TidyParts(parts)
    ensures Captured(0, PartsEvents(parts)) == PartsSeen(parts) && DepthAfterAll(0, PartsEvents(parts)) == 0
    decreases |parts|
  {
    hide Captured, DepthAfterAll, Events, TextSeen, TextOf;
    if parts == [] {
      NothingCaptured(0);
    } else {
      var part, later := parts[0], PartsEvents(parts[1..]);
      var element := [OpenText(part.tag)] + Events(part.nodes) + [EndTag];
      TextElementBySegments(0, part.tag, part.nodes);
      NothingOutside(part.after);
      PartsCapture(parts[1..]);
      CaptureInTwoParts(0, element, part.after + later);
      CaptureInTwoParts(0, part.after, later);
      assert "" + PartsSeen(parts[1..]) == PartsSeen(parts[1..]);
    }
  }

  lemma BlockCapture(block: Block)
    requires Tidy(block)
    ensures Captured(0, BlockEvents(block)) == PartsSeen(block.parts) && DepthAfterAll(0, BlockEvents(block)) == 0
  {
    hide Captured, DepthAfterAll, PartsEvents, PartsSeen;
    var lead := [block.post] + block.before;
    NothingOutside(lead);
    PartsCapture(block.parts);
    CaptureInTwoParts(0, lead, PartsEvents(block.parts));
    assert "" + PartsSeen(block.parts) == PartsSeen(block.parts);
  }

  /** A block reaches up to the next post. */
  lemma BlockIsStretch(block: Block, later: seq<Event>)
    requires Tidy(block) && (later != [] ==> IsPost(later[0]))
    ensures 1 + NextPost((BlockEvents(block) + later)[1..]) == |BlockEvents(block)|
  {
    hide PartsEvents;
    var events := BlockEvents(block);
    PartsHaveNoPosts(block.parts);
    var rest := events[1..];
    assert rest == block.before + PartsEvents(block.parts);
    assert (events + later)[1..] == rest + later;
    forall i | 0 <= i < |rest|
      ensures !IsPost((rest + later)[i])
    {
    }
    assert later != [] ==> IsPost((rest + later)[|rest|]);
  }

  lemma {:induction false} BlocksAreStretches(blocks: seq<Block>, seen: set<int>)
    requires AllTidy(blocks)
    ensures BlocksEvents(blocks) != [] ==> IsPost(BlocksEvents(blocks)[0])
    ensures MessagesOf(Stretches(0, BlocksEvents(blocks)), seen) == BlockMessages(blocks, seen)
    decreases |blocks|
  {
    hide Tidy, BlockEvents, Captured, DepthAfterAll, FirstTime, PartsSeen, NextPost;
    if blocks != [] {
      var block, later := blocks[0], BlocksEvents(blocks[1..]);
      var events := BlockEvents(block);
      var id := MessageIdOf(block);
      BlocksAreStretches(blocks[1..], seen);
      BlocksAreStretches(blocks[1..], if id.None? then seen else seen + {id.value});
      BlockCapture(block);
      BlockIsStretch(block, later);
      BlockHead(block);
      assert (events + later)[..|events|] == events && (events + later)[|events|..] == later;
      assert Stretches(0, events + later) == [Stretch(id, 0, events)] + Stretches(0, later);
      assert ([Stretch(id, 0, events)] + Stretches(0, later))[1..] == Stretches(0, later);
    }
  }

  lemma BlockHead(block: Block)
    requires Tidy(block)
    ensures BlockEvents(block) != [] && BlockEvents(block)[0] == block.post && IsPost(block.post)
  {
  }

  /** From the page to its messages: after anything quiet, each block gives the
      message its tags and its text elements say, ids met before left out. */
  lemma PageOfBlocks(lead: seq<Event>, blocks: seq<Block>)
    requires Quiet(lead) && AllTidy(blocks)
    ensures Flush(Run(INITIAL, lead + BlocksEvents(blocks))).messages == BlockMessages(blocks, {})
  {
    var page := BlocksEvents(blocks);
    ParserReadsStretches(lead + page);
    BlocksAreStretches(blocks, {});
    NothingOutside(lead);
    hide Run, Flush, Stretches, MessagesOf, BlocksEvents, BlockMessages, DepthAfterAll;
    var n := NextPost(lead + page);
    assert forall i | 0 <= i < |lead| :: (lead + page)[i] == lead[i];
    assert page != [] ==> (lead + page)[|lead|] == page[0];
    assert n == |lead|;
    assert (lead + page)[..n] == lead && (lead + page)[n..] == page;
  }

  /** The text seen of an element is all of it exactly when none is lost, and always in
      plain content; without text elements within, what is lost is the text behind
      the one point where the level is used up. */
  lemma TextSeenIsWhole(nodes: seq<Node>)
    requires WellTagged(nodes)
    ensures TextSeen(nodes) == TextOf(nodes) <==> TextLost(nodes) == ""
    ensures Plain(nodes) ==> TextSeen(nodes) == TextOf(nodes)
    ensures Unnested(nodes) ==>
              var marks := Marks(nodes) + [Leave]; TextLost(nodes) == MarkText(marks[Cut(1, marks)..])
  {
    hide Captured, SeenText, LostText, Segments, Cut, MarkText;
    TextElementBySegments(0, "div", nodes);
    if Plain(nodes) {
      TextElementCapture(0, "div", nodes);
    }
    if Unnested(nodes) {
      MarksOfContent(nodes);
      OneSegment(1, Marks(nodes) + [Leave]);
    }
  }

  /** A message's text is whole exactly when no text of its text elements is lost. */
  lemma {:induction false} PartsSeenAreWhole(parts: seq<Part>)
    requires TidyParts(parts)
    ensures |PartsSeen(parts)| <= |PartsText(parts)|
    ensures PartsSeen(parts) == PartsText(parts) <==> forall i | 0 <= i < |parts| :: TextLost(parts[i].nodes) == ""
    decreases |parts|
  {
    hide TextSeen, TextLost, TextOf;
    if parts != [] {
      var first, rest := parts[0].nodes, parts[1..];
      PartsSeenAreWhole(rest);
      TextSeenIsWhole(first);
      TextSeenIsNoLonger(first);
      assert forall i | 0 < i < |parts| :: parts[i] == rest[i - 1];
      if PartsSeen(parts) == PartsText(parts) {
        assert |TextSeen(first)| == |TextOf(first)|;
        assert TextSeen(first) == PartsSeen(parts)[..|TextOf(first)|] == PartsText(parts)[..|TextOf(first)|] == TextOf(first);
        assert PartsSeen(rest) == PartsSeen(parts)[|TextOf(first)|..] == PartsText(parts)[|TextOf(first)|..] == PartsText(rest);
      }
      if forall i | 0 <= i < |parts| :: TextLost(parts[i].nodes) == "" {
        assert TextLost(parts[0].nodes) == "";
        assert forall i | 0 <= i < |rest| :: rest[i] == parts[i + 1];
      }
    }
  }

  function PartsText(parts: seq<Part>): string {
    if parts == [] then "" else TextOf(parts[0].nodes) + PartsText(parts[1..])
  }

  lemma TextSeenIsNoLonger(nodes: seq<Node>)
    requires WellTagged(nodes)
    ensures |TextSeen(nodes)| <= |TextOf(nodes)|
  {
    hide SeenText, LostText, Segments, MarkText;
    MarksOfContent(nodes);
    MarkTextInTwoParts(Marks(nodes), [Leave]);
    LeaveHasNoText();
    SeenIsAll(1, Marks(nodes) + [Leave]);
  }
}
