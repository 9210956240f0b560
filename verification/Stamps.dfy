/** Fixed-width text for moments: the ISO timestamps of candles and the field
    layout run ids share. */
module Stamps {
  import opened Numerals
  import opened Options
  import opened Calendar

  /** A field of so many digits and the text that follows it. */
  datatype Field = Field(width: nat, separator: string)

  predicate Fit(values: seq<nat>, shape: seq<Field>) {
    |values| == |shape| && forall i | 0 <= i < |values| :: values[i] < Pow10(shape[i].width)
  }

  /** The values, each zero-padded to its field. */
  function FieldText(values: seq<nat>, shape: seq<Field>): string
    requires Fit(values, shape)
  {
    if values == [] then ""
    else Padded(values[0], shape[0].width) + (shape[0].separator + FieldText(values[1..], shape[1..]))
  }

  predicate LessFields(a: seq<nat>, b: seq<nat>)
    requires |a| == |b|
  {
    a != [] && (a[0] < b[0] || (a[0] == b[0] && LessFields(a[1..], b[1..])))
  }

  /** Text in one layout, with anything after it, compares field by field. */
  lemma {:induction false} FieldOrder(a: seq<nat>, b: seq<nat>, shape: seq<Field>, x: string, y: string)
    requires Fit(a, shape) && Fit(b, shape)
    ensures Less(FieldText(a, shape) + x, FieldText(b, shape) + y) <==> LessFields(a, b) || (a == b && Less(x, y))
    decreases |a|
  {
    if a == [] {
      assert FieldText(a, shape) + x == x && FieldText(b, shape) + y == y;
    } else {
      var width, gap := shape[0].width, shape[0].separator;
      var restA, restB := FieldText(a[1..], shape[1..]) + x, FieldText(b[1..], shape[1..]) + y;
      assert FieldText(a, shape) + x == Padded(a[0], width) + (gap + restA);
      assert FieldText(b, shape) + y == Padded(b[0], width) + (gap + restB);
      PaddedOrder(a[0], b[0], width);
      LessOfFields(Padded(a[0], width), Padded(b[0], width), gap + restA, gap + restB);
      LessOfFields(gap, gap, restA, restB);
      LessIrreflexive(gap);
      FieldOrder(a[1..], b[1..], shape[1..], x, y);
      assert a == [a[0]] + a[1..] && b == [b[0]] + b[1..];
    }
  }

  /** Read the fields back off the front of a text; what follows them is kept. */
  function ReadFields(text: string, shape: seq<Field>): Option<(seq<nat>, string)> {
    if shape == [] then Some(([], text))
    else
      var width, gap := shape[0].width, shape[0].separator;
      if |text| < width + |gap| || !AllDigits(text[..width]) || text[width..width + |gap|] != gap then None
      else
        match ReadFields(text[width + |gap|..], shape[1..])
        case None => None
        case Some((values, rest)) => Some(([NumberOf(text[..width])] + values, rest))
  }

  lemma {:induction false} FieldRoundTrip(values: seq<nat>, shape: seq<Field>, rest: string)
    requires Fit(values, shape)
    ensures ReadFields(FieldText(values, shape) + rest, shape) == Some((values, rest))
    decreases |values|
  {
    if values == [] {
      assert FieldText(values, shape) + rest == rest;
    } else {
      var width, gap := shape[0].width, shape[0].separator;
      var first, later := Padded(values[0], width), FieldText(values[1..], shape[1..]) + rest;
      var text := FieldText(values, shape) + rest;
      assert text == first + gap + later;
      hide Padded, NumberOf, Pow10;
      assert text[..width] == first && text[width..width + |gap|] == gap && text[width + |gap|..] == later;
      PaddedRoundTrip(values[0], width);
      FieldRoundTrip(values[1..], shape[1..], rest);
      assert [values[0]] + values[1..] == values;
    }
  }

  /** These fields and what follows them make up the text. */
  predicate MakesUp(text: string, values: seq<nat>, shape: seq<Field>, rest: string) {
    Fit(values, shape) && text == FieldText(values, shape) + rest
  }

  /** Whatever reads back as fields is their fixed-width text. */
  lemma {:induction false} FieldsReadAreText(text: string, shape: seq<Field>)
    requires ReadFields(text, shape).Some?
    ensures var read := ReadFields(text, shape).value; MakesUp(text, read.0, shape, read.1)
    decreases |shape|
  {
    if shape == [] {
      assert FieldText([], shape) + text == text;
    } else {
      hide MakesUp;
      var end := shape[0].width + |shape[0].separator|;
      ReadOneField(text, shape);
      FieldsReadAreText(text[end..], shape[1..]);
      var read := ReadFields(text[end..], shape[1..]).value;
      OneMoreField(text, shape, read.0, read.1);
    }
  }

  lemma OneMoreField(text: string, shape: seq<Field>, values: seq<nat>, rest: string)
    requires shape != []
    requires var width, end := shape[0].width, shape[0].width + |shape[0].separator|;
             end <= |text| && AllDigits(text[..width]) && text[width..end] == shape[0].separator
             && MakesUp(text[end..], values, shape[1..], rest)
    ensures MakesUp(text, [NumberOf(text[..shape[0].width])] + values, shape, rest)
  {
    hide NumberOf, Padded, Pow10;
    var width, gap := shape[0].width, shape[0].separator;
    var digits, later := text[..width], FieldText(values, shape[1..]) + rest;
    NumberBound(digits);
    PaddedNumber(digits);
    var all := [NumberOf(digits)] + values;
    assert all[1..] == values;
    assert FieldText(all, shape) == digits + (gap + FieldText(values, shape[1..]));
    assert text == digits + gap + later;
  }

  lemma ReadOneField(text: string, shape: seq<Field>)
    requires shape != [] && ReadFields(text, shape).Some?
    ensures var width, end := shape[0].width, shape[0].width + |shape[0].separator|;
            end <= |text| && AllDigits(text[..width]) && text[width..end] == shape[0].separator
            && ReadFields(text[end..], shape[1..]).Some?
            && var read := ReadFields(text[end..], shape[1..]).value;
               ReadFields(text, shape).value == ([NumberOf(text[..width])] + read.0, read.1)
  {
  }

  lemma {:induction false} PaddedNumber(digits: string)
    requires AllDigits(digits) && NumberOf(digits) < Pow10(|digits|)
    ensures Padded(NumberOf(digits), |digits|) == digits
  {
    if digits != "" {
      var front := digits[..|digits| - 1];
      NumberBound(front);
      PaddedNumber(front);
      assert NumberOf(digits) / 10 == NumberOf(front);
      assert digits == front + [digits[|digits| - 1]];
    }
  }

  // ----- moments -------------------------------------------------------------

  function FieldsOf(m: Moment): seq<nat> {
    [m.year, m.month, m.day, m.hour, m.minute, m.second]
  }

  function MomentOf(values: seq<nat>): Moment
    requires |values| == 6
  {
    Moment(values[0], values[1], values[2], values[3], values[4], values[5])
  }

  predicate MomentShape(shape: seq<Field>) {
    |shape| == 6 && shape[0].width == 4 && forall i | 1 <= i < 6 :: shape[i].width == 2
  }

  lemma MomentsFit(m: Moment, shape: seq<Field>)
    requires m.Valid() && MomentShape(shape)
    ensures Fit(FieldsOf(m), shape)
  {
    assert Pow10(2) == 100 && Pow10(4) == 10000;
  }

  lemma FieldsCompareAsMoments(a: Moment, b: Moment)
    requires a.Valid() && b.Valid()
    ensures LessFields(FieldsOf(a), FieldsOf(b)) <==> ToSeconds(a) < ToSeconds(b)
  {
    CalendarMonotone(a, b);
    var x, y := FieldsOf(a), FieldsOf(b);
    LessFieldsAt(x, y);
    LessFieldsAt(x[1..], y[1..]);
    LessFieldsAt(x[2..], y[2..]);
    LessFieldsAt(x[3..], y[3..]);
    LessFieldsAt(x[4..], y[4..]);
    LessFieldsAt(x[5..], y[5..]);
    assert x[1..][1..] == x[2..] && x[2..][1..] == x[3..] && x[3..][1..] == x[4..] && x[4..][1..] == x[5..];
    assert y[1..][1..] == y[2..] && y[2..][1..] == y[3..] && y[3..][1..] == y[4..] && y[4..][1..] == y[5..];
    assert LessFields(x[3..], y[3..]) <==> a.SecondOfDay() < b.SecondOfDay();
  }

  lemma LessFieldsAt(a: seq<nat>, b: seq<nat>)
    requires |a| == |b| && |a| >= 1
    ensures LessFields(a, b) <==> a[0] < b[0] || (a[0] == b[0] && LessFields(a[1..], b[1..]))
  {
  }

  /** Text of two moments in one layout compares as the moments do; between
      equal moments what follows the layout decides. */
  lemma MomentTextOrder(a: Moment, b: Moment, shape: seq<Field>, x: string, y: string)
    requires a.Valid() && b.Valid() && MomentShape(shape)
    requires Fit(FieldsOf(a), shape) && Fit(FieldsOf(b), shape)
    ensures Less(FieldText(FieldsOf(a), shape) + x, FieldText(FieldsOf(b), shape) + y)
       <==> ToSeconds(a) < ToSeconds(b) || (a == b && Less(x, y))
  {
    FieldOrder(FieldsOf(a), FieldsOf(b), shape, x, y);
    FieldsCompareAsMoments(a, b);
    assert FieldsOf(a) == FieldsOf(b) ==> MomentOf(FieldsOf(a)) == MomentOf(FieldsOf(b));
  }

  lemma MomentTextDecides(a: Moment, b: Moment, shape: seq<Field>)
    requires a.Valid() && b.Valid() && MomentShape(shape)
    requires Fit(FieldsOf(a), shape) && Fit(FieldsOf(b), shape)
    ensures Less(FieldText(FieldsOf(a), shape), FieldText(FieldsOf(b), shape)) <==> ToSeconds(a) < ToSeconds(b)
  {
    MomentTextOrder(a, b, shape, "", "");
    var x, y := FieldText(FieldsOf(a), shape), FieldText(FieldsOf(b), shape);
    assert x + "" == x && y + "" == y;
  }

  // ----- ISO timestamps --------------------------------------------------------

  const ISO_SHAPE: seq<Field> :=
    [Field(4, "-"), Field(2, "-"), Field(2, "T"), Field(2, ":"), Field(2, ":"), Field(2, "Z")]

  /** A whole UTC second as `2026-08-28T02:20:00Z`. */
  function Iso(seconds: int): string
    requires InRange(seconds)
  {
    var m := FromSeconds(seconds);
    MomentsFit(m, ISO_SHAPE);
    FieldText(FieldsOf(m), ISO_SHAPE)
  }

  /** Read such a timestamp back to its second. */
  function FromIso(text: string): Option<int> {
    match ReadFields(text, ISO_SHAPE)
    case None => None
    case Some((values, rest)) =>
      ReadFieldsLength(text, ISO_SHAPE);
      var m := MomentOf(values);
      if rest == "" && m.Valid() then Some(ToSeconds(m)) else None
  }

  lemma ReadFieldsLength(text: string, shape: seq<Field>)
    requires ReadFields(text, shape).Some?
    ensures |ReadFields(text, shape).value.0| == |shape|
  {
    FieldsReadAreText(text, shape);
  }

  lemma IsoRoundTrip(seconds: int)
    requires InRange(seconds)
    ensures FromIso(Iso(seconds)) == Some(seconds)
  {
    var m := FromSeconds(seconds);
    MomentsFit(m, ISO_SHAPE);
    FieldRoundTrip(FieldsOf(m), ISO_SHAPE, "");
    assert Iso(seconds) + "" == Iso(seconds);
    assert MomentOf(FieldsOf(m)) == m;
  }

  /** Sorting by timestamp text is sorting by instant. */
  lemma IsoOrder(a: int, b: int)
    requires InRange(a) && InRange(b)
    ensures Less(Iso(a), Iso(b)) <==> a < b
    ensures Iso(a) == Iso(b) <==> a == b
  {
    MomentsFit(FromSeconds(a), ISO_SHAPE);
    MomentsFit(FromSeconds(b), ISO_SHAPE);
    MomentTextDecides(FromSeconds(a), FromSeconds(b), ISO_SHAPE);
    IsoRoundTrip(a);
    IsoRoundTrip(b);
  }

  /** A text reads as a second exactly when it is the timestamp of that second. */
  lemma FromIsoExactly(text: string, seconds: int)
    requires InRange(seconds)
    ensures FromIso(text) == Some(seconds) <==> text == Iso(seconds)
  {
    IsoRoundTrip(seconds);
    if FromIso(text) == Some(seconds) {
      FieldsReadAreText(text, ISO_SHAPE);
      var (values, rest) := ReadFields(text, ISO_SHAPE).value;
      FromSecondsInverts(MomentOf(values));
      assert FieldsOf(MomentOf(values)) == values;
      assert FieldText(values, ISO_SHAPE) + "" == FieldText(values, ISO_SHAPE);
    }
  }

  /** The text itself: year, month, day, T, hour, minute, second, Z. */
  lemma IsoLayout(m: Moment)
    requires m.Valid()
    ensures InRange(ToSeconds(m)) && Pow10(2) == 100 && Pow10(4) == 10_000
    ensures Iso(ToSeconds(m)) ==
              Padded(m.year, 4) + ("-" + (Padded(m.month, 2) + ("-" + (Padded(m.day, 2) + ("T"
              + (Padded(m.hour, 2) + (":" + (Padded(m.minute, 2) + (":" + (Padded(m.second, 2) + ("Z" + "")))))))))))
  {
    assert Pow10(2) == 100 && Pow10(4) == 10_000;
    hide ToSeconds, FromSeconds;
    FromSecondsInverts(m);
    MomentsFit(m, ISO_SHAPE);
    SixFields(m, ISO_SHAPE);
  }

  /** A layout of the six fields of a moment, written out. */
  lemma SixFields(m: Moment, shape: seq<Field>)
    requires m.Valid() && MomentShape(shape) && Fit(FieldsOf(m), shape)
    ensures Pow10(2) == 100 && Pow10(4) == 10_000
    ensures FieldText(FieldsOf(m), shape) ==
              Padded(m.year, 4) + (shape[0].separator + (Padded(m.month, 2) + (shape[1].separator
              + (Padded(m.day, 2) + (shape[2].separator + (Padded(m.hour, 2) + (shape[3].separator
              + (Padded(m.minute, 2) + (shape[4].separator + (Padded(m.second, 2) + (shape[5].separator + "")))))))))))
  {
    assert Pow10(2) == 100 && Pow10(4) == 10_000;
    hide Padded, Pow10, FieldText;
    var values := FieldsOf(m);
    FieldTail(values, shape, 0);
    FieldTail(values, shape, 1);
    FieldTail(values, shape, 2);
    FieldTail(values, shape, 3);
    FieldTail(values, shape, 4);
    FieldTail(values, shape, 5);
    NoFields(values[6..], shape[6..]);
    assert values[0..] == values && shape[0..] == shape;
  }

  lemma NoFields(values: seq<nat>, shape: seq<Field>)
    requires Fit(values, shape) && values == []
    ensures FieldText(values, shape) == ""
  {
  }

  lemma FieldTail(values: seq<nat>, shape: seq<Field>, i: nat)
    requires Fit(values, shape) && i < |values|
    ensures Fit(values[i..], shape[i..]) && Fit(values[i + 1..], shape[i + 1..])
    ensures FieldText(values[i..], shape[i..])
         == Padded(values[i], shape[i].width) + (shape[i].separator + FieldText(values[i + 1..], shape[i + 1..]))
  {
    hide Padded, Pow10;
    assert values[i..][1..] == values[i + 1..] && shape[i..][1..] == shape[i + 1..];
  }
}
