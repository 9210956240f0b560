/** What a framed payload says: classification, and the candle rows inside it. */
module Messages {
  import opened Options
  import opened Prices

  datatype Json =
    | JNull
    | JBool(flag: bool)
    | JNumber(number: Number)
    | JString(text: string)
    | JArray(items: seq<Json>)
    | JObject(fields: map<string, Json>)

  type Row = seq<Json>

  const HEARTBEAT_PREFIX := "~h~"

  datatype Kind =
    | Heartbeat | TimescaleUpdate | DataUpdate | SeriesCompleted
    | ProtocolError | CriticalError | Other | Unparseable

  datatype Message = Message(kind: Kind, params: seq<Json>, raw: string)

  function KindOf(name: string): Kind {
    if name == "timescale_update" then TimescaleUpdate
    else if name == "du" then DataUpdate
    else if name == "series_completed" then SeriesCompleted
    else if name == "protocol_error" then ProtocolError
    else if name == "critical_error" then CriticalError
    else Other
  }

  /** `parse` is the JSON reader: the value a text denotes, or nothing. */
  function Classify(parse: string -> Option<Json>, payload: string): Message {
    if HEARTBEAT_PREFIX <= payload then Message(Heartbeat, [], payload)
    else
      match parse(payload)
      case Some(JObject(fields)) =>
        if "m" in fields && fields["m"].JString? then
          Message(KindOf(fields["m"].text), if "p" in fields && fields["p"].JArray? then fields["p"].items else [], "")
        else Message(Unparseable, [], "")
      case _ => Message(Unparseable, [], "")
  }

  function Member(value: Json, name: string): Option<Json> {
    if value.JObject? && name in value.fields then Some(value.fields[name]) else None
  }

  /** The rows of one series inside a message, in order; none when it carries none. */
  function ExtractRows(message: Message, series: string): seq<Row> {
    if |message.params| < 2 then []
    else
      match Member(message.params[1], series)
      case None => []
      case Some(body) =>
        match Member(body, "s")
        case Some(JArray(items)) => RowsIn(items)
        case _ => []
  }

  function RowsIn(items: seq<Json>): seq<Row> {
    if items == [] then []
    else
      match Member(items[0], "v")
      case Some(JArray(values)) => [values] + RowsIn(items[1..])
      case _ => RowsIn(items[1..])
  }

  /** The payload is no heartbeat, and parses to an object whose "m" is this name. */
  predicate Says(parse: string -> Option<Json>, payload: string, name: string) {
    !("~h~" <= payload)
    && parse(payload).Some? && parse(payload).value.JObject?
    && "m" in parse(payload).value.fields && parse(payload).value.fields["m"] == JString(name)
  }

  /** What a payload counts as is told by its first characters and its "m". */
  lemma KindExactly(parse: string -> Option<Json>, payload: string)
    ensures var kind := Classify(parse, payload).kind;
            && (kind == Heartbeat <==> "~h~" <= payload)
            && (kind == TimescaleUpdate <==> Says(parse, payload, "timescale_update"))
            && (kind == DataUpdate <==> Says(parse, payload, "du"))
            && (kind == SeriesCompleted <==> Says(parse, payload, "series_completed"))
            && (kind == ProtocolError <==> Says(parse, payload, "protocol_error"))
            && (kind == CriticalError <==> Says(parse, payload, "critical_error"))
            && (kind == Unparseable <==> !("~h~" <= payload) && forall name :: !Says(parse, payload, name))
    ensures "~h~" <= payload ==> Classify(parse, payload).raw == payload
  {
    var read := parse(payload);
    if !("~h~" <= payload) && read.Some? && read.value.JObject? && "m" in read.value.fields && read.value.fields["m"].JString? {
      assert Says(parse, payload, read.value.fields["m"].text);
    }
  }

  // ----- messages as the feed writes them ---------------------------------------

  function Envelope(name: string, params: seq<Json>): Json {
    JObject(map["m" := JString(name), "p" := JArray(params)])
  }

  /** Candle rows of one series, each under its index. */
  function SeriesItems(rows: seq<Row>, first: nat): seq<Json>
    decreases |rows|
  {
    if rows == [] then []
    else [JObject(map["i" := JNumber(Number(first, 0)), "v" := JArray(rows[0])])] + SeriesItems(rows[1..], first + 1)
  }

  function SeriesParams(session: string, series: string, rows: seq<Row>): seq<Json> {
    [JString(session), JObject(map[series := JObject(map["s" := JArray(SeriesItems(rows, 0))])])]
  }

  /** What is written under a series reads back for it, row by row and in order, and
      for no other series. */
  lemma SeriesRoundTrip(parse: string -> Option<Json>, payload: string, name: string,
                        session: string, series: string, rows: seq<Row>)
    requires !("~h~" <= payload) && parse(payload) == Some(Envelope(name, SeriesParams(session, series, rows)))
    ensures Says(parse, payload, name)
    ensures ExtractRows(Classify(parse, payload), series) == rows
    ensures forall other | other != series :: ExtractRows(Classify(parse, payload), other) == []
  {
    RowsOfItems(rows, 0);
  }

  lemma {:induction false} RowsOfItems(rows: seq<Row>, first: nat)
    ensures RowsIn(SeriesItems(rows, first)) == rows
    decreases |rows|
  {
    if rows != [] {
      RowsOfItems(rows[1..], first + 1);
      assert SeriesItems(rows, first)[1..] == SeriesItems(rows[1..], first + 1);
      assert rows == [rows[0]] + rows[1..];
    }
  }

  /** Whatever else a message carries: items are read in order, those with a "v" that
      is a list yield it, and the others yield nothing. */
  lemma {:induction false} ItemsInTwoParts(first: seq<Json>, second: seq<Json>)
    ensures RowsIn(first + second) == RowsIn(first) + RowsIn(second)
    ensures forall item :: RowsIn([item]) == if HasRow(item) then [item.fields["v"].items] else []
    decreases |first|
  {
    forall item
      ensures RowsIn([item]) == if HasRow(item) then [item.fields["v"].items] else []
    {
      assert [item][1..] == [];
    }
    if first == [] {
      assert first + second == second;
    } else {
      assert (first + second)[1..] == first[1..] + second;
      ItemsInTwoParts(first[1..], second);
    }
  }

  predicate HasRow(item: Json) {
    item.JObject? && "v" in item.fields && item.fields["v"].JArray?
  }

  /** The items of a series in a message, where there are any. */
  predicate Carries(params: seq<Json>, series: string, items: seq<Json>) {
    |params| >= 2 && params[1].JObject? && series in params[1].fields
    && params[1].fields[series].JObject? && "s" in params[1].fields[series].fields
    && params[1].fields[series].fields["s"] == JArray(items)
  }

  /** Rows come from there and nowhere else; the parameters of a message are the list
      under its "p", or none. */
  lemma RowsExactly(parse: string -> Option<Json>, payload: string, series: string)
    ensures var message := Classify(parse, payload);
            && (forall items :: Carries(message.params, series, items) ==> ExtractRows(message, series) == RowsIn(items))
            && ((forall items :: !Carries(message.params, series, items)) ==> ExtractRows(message, series) == [])
    ensures var message := Classify(parse, payload);
            message.params == if (exists name :: Says(parse, payload, name)) && "p" in parse(payload).value.fields
                                 && parse(payload).value.fields["p"].JArray?
                              then parse(payload).value.fields["p"].items else []
  {
    KindExactly(parse, payload);
    var message := Classify(parse, payload);
    if |message.params| >= 2 {
      var body := Member(message.params[1], series);
      if body.Some? && Member(body.value, "s").Some? && Member(body.value, "s").value.JArray? {
        assert Carries(message.params, series, Member(body.value, "s").value.items);
      }
    }
  }

  // ----- keyed collection ------------------------------------------------------

  const MIN_BAR_FIELDS := 5

  /** A list or an object cannot be a dictionary key. */
  predicate Hashable(value: Json) {
    !value.JArray? && !value.JObject?
  }

  predicate Usable(row: Row) {
    |row| >= MIN_BAR_FIELDS && Hashable(row[0])
  }

  type BarRow = row: Row | Usable(row) witness [JNull, JNull, JNull, JNull, JNull]

  /** What dictionary keys compare by: numbers, and booleans with them, by value. */
  datatype Key = ByValue(value: real) | ByForm(form: Json)

  function KeyOf(row: BarRow): Key {
    match row[0]
    case JNumber(n) => ByValue(n.Value())
    case JBool(flag) => ByValue(if flag then 1.0 else 0.0)
    case _ => ByForm(row[0])
  }

  /** The number a key counts as: itself, or for true and false one and zero. */
  function KeyNumber(value: Json): Option<real> {
    match value
    case JNumber(n) => Some(n.Value())
    case JBool(flag) => Some(if flag then 1.0 else 0.0)
    case _ => None
  }

  /** Two rows share a key exactly when their first fields count as the same number, or
      count as none and are the same. */
  lemma SameKeyExactly(a: BarRow, b: BarRow)
    ensures KeyOf(a) == KeyOf(b)
       <==> if KeyNumber(a[0]).Some? || KeyNumber(b[0]).Some? then KeyNumber(a[0]) == KeyNumber(b[0]) else a[0] == b[0]
  {
    hide Number.Value;
  }

  /** An insertion-ordered dictionary of rows by key, after one assignment. */
  function Put(table: seq<BarRow>, row: BarRow): seq<BarRow> {
    if table == [] then [row]
    else if KeyOf(table[0]) == KeyOf(row) then [row] + table[1..]
    else [table[0]] + Put(table[1..], row)
  }

  function PutAll(table: seq<BarRow>, rows: seq<BarRow>): seq<BarRow>
    decreases |rows|
  {
    if rows == [] then table else Put(PutAll(table, rows[..|rows| - 1]), rows[|rows| - 1])
  }

  predicate DistinctKeys(rows: seq<BarRow>) {
    forall i, j | 0 <= i < j < |rows| :: KeyOf(rows[i]) != KeyOf(rows[j])
  }

  predicate HasKey(rows: seq<BarRow>, key: Key) {
    exists row :: row in rows && KeyOf(row) == key
  }

  /** The last of the rows with a key. */
  function LastRow(rows: seq<BarRow>, key: Key): (row: BarRow)
    requires HasKey(rows, key)
    ensures row in rows && KeyOf(row) == key
    decreases |rows|
  {
    var last := rows[|rows| - 1];
    if KeyOf(last) == key then last else LastRow(rows[..|rows| - 1], key)
  }

  lemma {:induction false} PutEffect(table: seq<BarRow>, row: BarRow)
    ensures row in Put(table, row)
    ensures forall r | r in Put(table, row) :: r == row || (r in table && (DistinctKeys(table) ==> KeyOf(r) != KeyOf(row)))
    ensures forall r | r in table && KeyOf(r) != KeyOf(row) :: r in Put(table, row)
    ensures DistinctKeys(table) ==> DistinctKeys(Put(table, row))
  {
    if table == [] {
      assert Put(table, row) == [row];
    } else if KeyOf(table[0]) != KeyOf(row) {
      var rest := Put(table[1..], row);
      PutEffect(table[1..], row);
      assert Put(table, row) == [table[0]] + rest;
      if DistinctKeys(table) {
        forall r | r in rest
          ensures KeyOf(r) != KeyOf(table[0])
        {
          if r != row {
            assert r in table[1..];
          }
        }
      }
    }
  }

  lemma {:induction false} PutAllAppend(table: seq<BarRow>, first: seq<BarRow>, second: seq<BarRow>)
    ensures PutAll(table, first + second) == PutAll(PutAll(table, first), second)
    decreases |second|
  {
    if second == [] {
      assert first + second == first;
    } else {
      var front, last := second[..|second| - 1], second[|second| - 1];
      PutAllAppend(table, first, front);
      assert (first + second)[..|first + second| - 1] == first + front;
    }
  }

  /** Collecting rows keeps, for every key that ever arrived, exactly its last
      restatement: one row a key, none lost, none invented. */
  lemma {:induction false} CollectionKeepsLast(rows: seq<BarRow>)
    ensures var table := PutAll([], rows);
            DistinctKeys(table)
            && (forall r | r in table :: HasKey(rows, KeyOf(r)) && r == LastRow(rows, KeyOf(r)))
            && (forall r | r in rows :: HasKey(table, KeyOf(r)))
    decreases |rows|
  {
    if rows != [] {
      var front, last := rows[..|rows| - 1], rows[|rows| - 1];
      var before, table := PutAll([], front), PutAll([], rows);
      CollectionKeepsLast(front);
      PutEffect(before, last);
      forall r | r in table
        ensures HasKey(rows, KeyOf(r)) && r == LastRow(rows, KeyOf(r))
      {
        if r != last {
          assert HasKey(front, KeyOf(r));
          var other :| other in front && KeyOf(other) == KeyOf(r);
          assert other in rows;
        }
      }
      forall r | r in rows
        ensures HasKey(table, KeyOf(r))
      {
        if KeyOf(r) != KeyOf(last) {
          assert r in front;
          var kept :| kept in before && KeyOf(kept) == KeyOf(r);
          assert kept in table;
        }
      }
    }
  }
}
