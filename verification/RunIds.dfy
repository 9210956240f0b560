/** Run identifiers: `20260828_022701_a83f2c`, the UTC second and a random
    suffix. */
module RunIds {
  import opened Numerals
  import opened Options
  import opened Calendar
  import opened Stamps

  const AFTER_YEAR: seq<Field> := [Field(2, ""), Field(2, "_"), Field(2, ""), Field(2, ""), Field(2, "_")]
  const ID_SHAPE: seq<Field> := [Field(4, "")] + AFTER_YEAR

  predicate IsSuffix(s: string) {
    |s| == 6 && forall i | 0 <= i < 6 :: '0' <= s[i] <= '9' || 'a' <= s[i] <= 'f'
  }

  /** The id of a UTC moment. The year is printed without padding, so only years
      of four digits take four characters. */
  function Generate(m: Moment, suffix: string): string
    requires m.Valid() && IsSuffix(suffix)
  {
    assert Pow10(2) == 100;
    Decimal(m.year) + FieldText(FieldsOf(m)[1..], AFTER_YEAR) + suffix
  }

  /** The creation second of a valid id: eight digits, six digits and the suffix,
      the digits naming a real date and time. */
  function CreatedAt(id: string): Option<int> {
    match ReadFields(id, ID_SHAPE)
    case None => None
    case Some((values, suffix)) =>
      ReadFieldsLength(id, ID_SHAPE);
      var m := MomentOf(values);
      if IsSuffix(suffix) && m.Valid() then Some(ToSeconds(m)) else None
  }

  lemma IdIsFieldText(m: Moment, suffix: string)
    requires m.Valid() && IsSuffix(suffix) && m.year >= 1000
    ensures Fit(FieldsOf(m), ID_SHAPE)
    ensures Generate(m, suffix) == FieldText(FieldsOf(m), ID_SHAPE) + suffix
  {
    MomentsFit(m, ID_SHAPE);
    assert Pow10(3) == 1000 && Pow10(4) == 10000;
    DecimalIsPadded(m.year, 3);
    assert ID_SHAPE[1..] == AFTER_YEAR;
  }

  /** An id of a four-digit year reads back to its second, whatever the suffix;
      for an earlier year the id is not a valid one. */
  lemma IdRoundTrip(m: Moment, suffix: string)
    requires m.Valid() && IsSuffix(suffix)
    ensures CreatedAt(Generate(m, suffix)) == if m.year >= 1000 then Some(ToSeconds(m)) else None
  {
    if m.year >= 1000 {
      IdIsFieldText(m, suffix);
      FieldRoundTrip(FieldsOf(m), ID_SHAPE, suffix);
      assert MomentOf(FieldsOf(m)) == m;
    } else {
      assert Pow10(3) == 1000;
      DecimalWidth(m.year, 3);
      var id := Generate(m, suffix);
      FieldTextLength(FieldsOf(m)[1..], AFTER_YEAR);
      LayoutLength();
      if CreatedAt(id).Some? {
        ValidIdLength(id);
      }
    }
  }

  lemma ValidIdLength(id: string)
    requires CreatedAt(id).Some?
    ensures |id| == 22
  {
    FieldsReadAreText(id, ID_SHAPE);
    var (v, suffix) := ReadFields(id, ID_SHAPE).value;
    FieldTextLength(v, ID_SHAPE);
    LayoutLength();
  }

  function Length(shape: seq<Field>): nat {
    if shape == [] then 0 else shape[0].width + |shape[0].separator| + Length(shape[1..])
  }

  lemma {:induction false} FieldTextLength(values: seq<nat>, shape: seq<Field>)
    requires Fit(values, shape)
    ensures |FieldText(values, shape)| == Length(shape)
    decreases |values|
  {
    if values != [] {
      FieldTextLength(values[1..], shape[1..]);
    }
  }

  lemma LayoutLength()
    ensures Length(AFTER_YEAR) == 12 && Length(ID_SHAPE) == 16
  {
    assert AFTER_YEAR[1..] == [Field(2, "_"), Field(2, ""), Field(2, ""), Field(2, "_")];
    assert Length(AFTER_YEAR[4..]) == 3;
    assert AFTER_YEAR[3..][1..] == AFTER_YEAR[4..];
    assert Length(AFTER_YEAR[3..]) == 5;
    assert AFTER_YEAR[2..][1..] == AFTER_YEAR[3..];
    assert Length(AFTER_YEAR[2..]) == 7;
    assert AFTER_YEAR[1..][1..] == AFTER_YEAR[2..];
    assert Length(AFTER_YEAR[1..]) == 10;
    assert ID_SHAPE[1..] == AFTER_YEAR;
  }

  /** Of any two valid ids, the one created in an earlier second sorts first;
      within one second the suffixes decide. */
  lemma IdsSortByCreation(a: string, b: string)
    requires CreatedAt(a).Some? && CreatedAt(b).Some?
    ensures CreatedAt(a).value < CreatedAt(b).value ==> Less(a, b)
    ensures Less(a, b) ==> CreatedAt(a).value <= CreatedAt(b).value
  {
    var m, x := ReadId(a);
    var n, y := ReadId(b);
    MomentTextOrder(m, n, ID_SHAPE, x, y);
  }

  lemma ReadId(id: string) returns (m: Moment, suffix: string)
    requires CreatedAt(id).Some?
    ensures m.Valid() && CreatedAt(id) == Some(ToSeconds(m))
    ensures Fit(FieldsOf(m), ID_SHAPE) && id == FieldText(FieldsOf(m), ID_SHAPE) + suffix
  {
    FieldsReadAreText(id, ID_SHAPE);
    var values := ReadFields(id, ID_SHAPE).value.0;
    assert FieldsOf(MomentOf(values)) == values;
    m, suffix := MomentOf(values), ReadFields(id, ID_SHAPE).value.1;
  }

  // ----- where the order claim stops ------------------------------------------------

  /** A moment's ids sort before those of every later moment exactly when its year
      has four digits. */
  lemma SortsBeforeLaterExactly(m: Moment)
    requires m.Valid()
    ensures m.year >= 1000
       <==> forall n: Moment, x: string, y: string | n.Valid() && IsSuffix(x) && IsSuffix(y) && ToSeconds(m) < ToSeconds(n) ::
              Less(Generate(m, x), Generate(n, y))
  {
    hide ToSeconds, Less, Generate;
    if m.year >= 1000 {
      forall n: Moment, x: string, y: string | n.Valid() && IsSuffix(x) && IsSuffix(y) && ToSeconds(m) < ToSeconds(n)
        ensures Less(Generate(m, x), Generate(n, y))
      {
        LaterYear(m, n);
        IdRoundTrip(m, x);
        IdRoundTrip(n, y);
        IdsSortByCreation(Generate(m, x), Generate(n, y));
      }
    } else {
      var n, x := Moment(1000, 1, 1, 0, 0, 0), "000000";
      EarlyYearsSortLast(m, n, x, x);
      LessIsAsymmetric(Generate(n, x), Generate(m, x));
    }
  }

  lemma LaterYear(a: Moment, b: Moment)
    requires a.Valid() && b.Valid() && ToSeconds(a) < ToSeconds(b)
    ensures a.year <= b.year
  {
    CalendarMonotone(a, b);
  }

  lemma {:induction false} LessIsAsymmetric(a: string, b: string)
    requires Less(a, b)
    ensures !Less(b, a)
  {
    if a != "" && a[0] == b[0] {
      LessIsAsymmetric(a[1..], b[1..]);
    }
  }

  /** Every id of a year before 1000 sorts after every id of the first day of 1000. */
  lemma EarlyYearsSortLast(a: Moment, b: Moment, x: string, y: string)
    requires a.Valid() && b.Valid() && a.year < 1000 && (b.year, b.month, b.day) == (1000, 1, 1)
    requires IsSuffix(x) && IsSuffix(y)
    ensures ToSeconds(a) < ToSeconds(b) && Less(Generate(b, y), Generate(a, x))
  {
    hide Less, ToSeconds;
    EarlierYear(a, b);
    FirstDayId(b, y);
    var i := EarlyId(a, x);
    OneThenZeros(Generate(b, y), Generate(a, x), i);
  }

  lemma EarlierYear(a: Moment, b: Moment)
    requires a.Valid() && b.Valid() && a.year < b.year
    ensures ToSeconds(a) < ToSeconds(b)
  {
    CalendarMonotone(a, b);
  }

  /** The first five characters of an id of 1 January 1000. */
  lemma FirstDayId(b: Moment, y: string)
    requires b.Valid() && IsSuffix(y) && (b.year, b.month, b.day) == (1000, 1, 1)
    ensures |Generate(b, y)| > 5 && Generate(b, y)[..5] == "10000"
  {
    assert Decimal(1) == "1" && Decimal(10) == "10" && Decimal(100) == "100" && Decimal(1000) == "1000";
    MonthText(b, y);
    assert Padded(1, 2) == "01" by {
      assert Pow10(1) == 10 && Padded(0, 1) == "0";
    }
  }

  /** Year and month are what an id starts with. */
  lemma MonthText(m: Moment, suffix: string)
    requires m.Valid() && IsSuffix(suffix)
    ensures Pow10(2) == 100
    ensures Decimal(m.year) + Padded(m.month, 2) <= Generate(m, suffix)
  {
    assert Pow10(2) == 100;
    assert FieldsOf(m)[1..][0] == m.month;
  }

  /** An id of a year of fewer digits does not start with a zero, and among the four
      characters behind has a digit other than zero: there is one in the month. */
  lemma EarlyId(a: Moment, x: string) returns (i: nat)
    requires a.Valid() && IsSuffix(x) && a.year < 1000
    ensures 1 <= i <= 4 && i < |Generate(a, x)| && Generate(a, x)[i] > '0'
    ensures Generate(a, x)[0] >= '1' && AllDigits(Generate(a, x)[..i])
  {
    assert Pow10(3) == 1000;
    DecimalWidth(a.year, 3);
    LeadingDigit(a.year);
    MonthText(a, x);
    var year, month, id := Decimal(a.year), Padded(a.month, 2), Generate(a, x);
    NonZeroDigit(a.month);
    i := |year| + if month[0] > '0' then 0 else 1;
    assert id[i] == (year + month)[i] == month[i - |year|];
    assert id[..i] == (year + month)[..i];
    assert id[0] == (year + month)[0] == year[0];
  }

  lemma NonZeroDigit(n: nat)
    requires 1 <= n < 100 && Pow10(2) == 100
    ensures Padded(n, 2)[0] > '0' || Padded(n, 2)[1] > '0'
  {
    assert Pow10(1) == 10;
    assert Padded(n, 2) == Padded(n / 10, 1) + [DigitChar(n % 10)];
    assert Padded(n / 10, 1) == Padded(0, 0) + [DigitChar(n / 10)];
  }

  /** A one and zeros come before any digits that start with at least a one and have
      a digit other than zero as far as the zeros go. */
  lemma OneThenZeros(a: string, b: string, i: nat)
    requires |a| > 5 && a[..5] == "10000" && 1 <= i <= 4 && i < |b|
    requires b[0] >= '1' && AllDigits(b[..i]) && b[i] > '0'
    ensures Less(a, b)
  {
    if b[0] == '1' {
      assert forall j | 1 <= j <= 4 :: a[j] == a[..5][j] == '0';
      forall j | 0 <= j < i - 1
        ensures b[1..][j] >= '0'
      {
        assert IsDigit(b[..i][j + 1]);
      }
      ZerosFirst(a[1..], b[1..], i - 1);
    } else {
      assert a[0] == a[..5][0] == '1';
    }
  }

  lemma {:induction false} ZerosFirst(a: string, b: string, i: nat)
    requires i < |a| && i < |b|
    requires forall j | 0 <= j <= i :: a[j] == '0'
    requires (forall j | 0 <= j < i :: b[j] >= '0') && b[i] > '0'
    ensures Less(a, b)
    decreases i
  {
    if i > 0 && b[0] == '0' {
      ZerosFirst(a[1..], b[1..], i - 1);
    }
  }

  // ----- a padded year --------------------------------------------------------------

  /** The id where the year is printed in four digits whatever its size. */
  function GeneratePadded(m: Moment, suffix: string): string
    requires m.Valid() && IsSuffix(suffix)
  {
    MomentsFit(m, ID_SHAPE);
    FieldText(FieldsOf(m), ID_SHAPE) + suffix
  }

  /** With such a year the format and the order hold for every moment, and from year
      1000 on both forms are one. */
  lemma PaddedIdRoundTrip(m: Moment, suffix: string)
    requires m.Valid() && IsSuffix(suffix)
    ensures CreatedAt(GeneratePadded(m, suffix)) == Some(ToSeconds(m))
    ensures m.year >= 1000 ==> GeneratePadded(m, suffix) == Generate(m, suffix)
  {
    hide ToSeconds;
    MomentsFit(m, ID_SHAPE);
    FieldRoundTrip(FieldsOf(m), ID_SHAPE, suffix);
    assert MomentOf(FieldsOf(m)) == m;
    if m.year >= 1000 {
      IdIsFieldText(m, suffix);
    }
  }

  /** The text itself: year, month and day, an underscore, hour, minute and second,
      an underscore, the suffix. */
  lemma IdLayout(m: Moment, suffix: string)
    requires m.Valid() && IsSuffix(suffix)
    ensures Pow10(2) == 100 && Pow10(4) == 10_000
    ensures GeneratePadded(m, suffix) ==
              Padded(m.year, 4) + (Padded(m.month, 2) + (Padded(m.day, 2) + ("_"
              + (Padded(m.hour, 2) + (Padded(m.minute, 2) + (Padded(m.second, 2) + ("_" + suffix)))))))
    ensures Generate(m, suffix) ==
              Decimal(m.year) + (Padded(m.month, 2) + (Padded(m.day, 2) + ("_"
              + (Padded(m.hour, 2) + (Padded(m.minute, 2) + (Padded(m.second, 2) + ("_" + suffix)))))))
  {
    assert Pow10(2) == 100 && Pow10(4) == 10_000;
    hide Padded, Decimal, Pow10, FieldText;
    MomentsFit(m, ID_SHAPE);
    AfterYear(m);
    var rest := FieldText(FieldsOf(m)[1..], AFTER_YEAR);
    FieldTail(FieldsOf(m), ID_SHAPE, 0);
    assert FieldsOf(m)[0..] == FieldsOf(m) && ID_SHAPE[0..] == ID_SHAPE && ID_SHAPE[1..] == AFTER_YEAR;
    assert "" + rest == rest;
    Behind(Padded(m.year, 4), rest, suffix);
    Behind(Decimal(m.year), rest, suffix);
    Regroup(Padded(m.month, 2), Padded(m.day, 2), Padded(m.hour, 2), Padded(m.minute, 2), Padded(m.second, 2), suffix);
  }

  lemma Behind(a: string, b: string, c: string)
    ensures a + b + c == a + (b + c)
  {
  }

  lemma Regroup(a: string, b: string, c: string, d: string, e: string, suffix: string)
    ensures a + ("" + (b + ("_" + (c + ("" + (d + ("" + (e + ("_" + ""))))))))) + suffix
         == a + (b + ("_" + (c + (d + (e + ("_" + suffix))))))
  {
    assert "" + (e + ("_" + "")) == e + "_";
    assert "" + (d + (e + "_")) == d + (e + "_");
    var tail := c + (d + (e + "_"));
    assert "" + (b + ("_" + tail)) == b + ("_" + tail);
    assert e + "_" + suffix == e + ("_" + suffix);
    assert d + (e + "_") + suffix == d + (e + ("_" + suffix));
    assert tail + suffix == c + (d + (e + ("_" + suffix)));
    assert "_" + tail + suffix == "_" + (c + (d + (e + ("_" + suffix))));
    assert b + ("_" + tail) + suffix == b + ("_" + (c + (d + (e + ("_" + suffix)))));
    assert a + (b + ("_" + tail)) + suffix == a + (b + ("_" + tail) + suffix);
  }

  lemma AfterYear(m: Moment)
    requires m.Valid()
    ensures Pow10(2) == 100 && Fit(FieldsOf(m)[1..], AFTER_YEAR)
    ensures FieldText(FieldsOf(m)[1..], AFTER_YEAR) ==
              Padded(m.month, 2) + ("" + (Padded(m.day, 2) + ("_" + (Padded(m.hour, 2) + (""
              + (Padded(m.minute, 2) + ("" + (Padded(m.second, 2) + ("_" + "")))))))))
  {
    assert Pow10(2) == 100;
    hide Padded, Pow10, FieldText;
    var values := FieldsOf(m)[1..];
    assert values == [m.month, m.day, m.hour, m.minute, m.second];
    FieldTail(values, AFTER_YEAR, 0);
    FieldTail(values, AFTER_YEAR, 1);
    FieldTail(values, AFTER_YEAR, 2);
    FieldTail(values, AFTER_YEAR, 3);
    FieldTail(values, AFTER_YEAR, 4);
    NoFields(values[5..], AFTER_YEAR[5..]);
    assert values[0..] == values && AFTER_YEAR[0..] == AFTER_YEAR;
  }

  /** Six characters of hexadecimal, in lower case. */
  predicate IsHex(suffix: string) {
    |suffix| == 6 && forall i | 0 <= i < 6 :: suffix[i] in "0123456789abcdef"
  }

  lemma HexIsSuffix(suffix: string)
    ensures IsHex(suffix) <==> IsSuffix(suffix)
  {
    forall i | 0 <= i < |suffix|
      ensures suffix[i] in "0123456789abcdef" <==> '0' <= suffix[i] <= '9' || 'a' <= suffix[i] <= 'f'
    {
      OneHexDigit(suffix[i]);
    }
  }

  lemma OneHexDigit(c: char)
    ensures c in "0123456789abcdef" <==> '0' <= c <= '9' || 'a' <= c <= 'f'
  {
    var digits := "0123456789abcdef";
    if '0' <= c <= '9' {
      assert digits[c as int - '0' as int] == c;
    } else if 'a' <= c <= 'f' {
      assert digits[10 + c as int - 'a' as int] == c;
    }
  }

  /** A text is a valid id of some second exactly when it is the padded id of a moment of
      that second with six hexadecimal characters behind. */
  lemma CreatedAtExactly(id: string, seconds: int)
    ensures CreatedAt(id) == Some(seconds)
       <==> exists m: Moment, suffix: string ::
              m.Valid() && IsHex(suffix) && IsSuffix(suffix) && ToSeconds(m) == seconds && id == GeneratePadded(m, suffix)
  {
    hide ToSeconds, GeneratePadded, IsHex, IsSuffix, CreatedAt;
    if CreatedAt(id) == Some(seconds) {
      var m, suffix := ReadPadded(id);
      HexIsSuffix(suffix);
    }
    if m: Moment, suffix: string :| m.Valid() && IsHex(suffix) && IsSuffix(suffix) && ToSeconds(m) == seconds
                                    && id == GeneratePadded(m, suffix) {
      PaddedIdRoundTrip(m, suffix);
    }
  }

  lemma ReadPadded(id: string) returns (m: Moment, suffix: string)
    requires CreatedAt(id).Some?
    ensures m.Valid() && IsSuffix(suffix) && CreatedAt(id) == Some(ToSeconds(m)) && id == GeneratePadded(m, suffix)
  {
    FieldsReadAreText(id, ID_SHAPE);
    var values := ReadFields(id, ID_SHAPE).value.0;
    assert FieldsOf(MomentOf(values)) == values;
    m, suffix := MomentOf(values), ReadFields(id, ID_SHAPE).value.1;
  }
}
