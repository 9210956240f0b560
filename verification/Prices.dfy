/** Exact decimal prices: half-even quantization and the candle order. */
module Prices {
  import opened Numerals
  import opened Options

  const MAX_PRICE_DECIMALS: nat := 8

  /** Significant digits of the decimal arithmetic context. A quantization whose
      result needs more fails. */
  const PRECISION: nat := 28

  /** A decimal number, coefficient * 10^exponent. */
  datatype Number = Number(coefficient: int, exponent: int) {
    function Value(): real {
      if exponent >= 0 then (coefficient * Pow10(exponent)) as real
      else coefficient as real / Pow10(-exponent) as real
    }

    /** How many decimal places the number is written with. */
    function Places(): int {
      -exponent
    }
  }

  /** `numerator / denominator` to the nearest integer, ties to the even one. */
  function RoundHalfEven(numerator: int, denominator: nat): int
    requires denominator > 0
  {
    var quotient, twice := numerator / denominator, 2 * (numerator % denominator);
    if twice < denominator || (twice == denominator && quotient % 2 == 0) then quotient else quotient + 1
  }

  function Max(a: int, b: int): int {
    if a < b then b else a
  }

  function Min(a: int, b: int): int {
    if a < b then a else b
  }

  /** The number in units of its `places`-th decimal, rounded to a whole one. */
  function Rescaled(n: Number, places: nat): int {
    if n.exponent + places >= 0 then n.coefficient * Pow10(n.exponent + places)
    else RoundHalfEven(n.coefficient, Pow10(-n.exponent - places))
  }

  /** Re-express a number with exactly `places` decimals, or fail when the
      coefficient would exceed the precision of the context. */
  function Quantize(n: Number, places: nat): Option<Number> {
    var coefficient := Rescaled(n, places);
    if 0 - Pow10(PRECISION) < coefficient < Pow10(PRECISION) then Some(Number(coefficient, 0 - places)) else None
  }

  /** The price form of the streaming feed: its own precision, at most 8 places. */
  function FeedPrice(n: Number): Option<Number> {
    Quantize(n, Max(0, Min(n.Places(), MAX_PRICE_DECIMALS)))
  }

  /** The price form of the terminal: the broker's precision where it is stated. */
  function TerminalPrice(n: Number, digits: Option<int>): Option<Number> {
    Quantize(n, Max(0, Min(if digits.Some? then digits.value else n.Places(), MAX_PRICE_DECIMALS)))
  }

  /** The value in units of its `places`-th decimal. */
  function InUnits(n: Number, places: nat): real {
    n.Value() * Pow10(places) as real
  }

  // ----- what rounding means -------------------------------------------------

  /** The integer nearest to `x`, ties to the even one. */
  function Nearest(x: real): int {
    var down := x.Floor;
    var part := x - down as real;
    if part < 0.5 || (part == 0.5 && down % 2 == 0) then down else down + 1
  }

  lemma NearestMonotone(x: real, y: real)
    requires x <= y
    ensures Nearest(x) <= Nearest(y)
  {
  }

  lemma NearestBound(x: real)
    ensures -0.5 <= Nearest(x) as real - x <= 0.5
    ensures x == x.Floor as real ==> Nearest(x) == x.Floor
  {
  }

  lemma FloorIs(x: real, n: int)
    requires n as real <= x < n as real + 1.0
    ensures x.Floor == n
  {
  }

  lemma RoundHalfEvenIsNearest(a: int, b: nat)
    requires b > 0
    ensures RoundHalfEven(a, b) == Nearest(a as real / b as real)
  {
    var q, r := a / b, a % b;
    var part := r as real / b as real;
    assert a == q * b + r;
    calc {
      a as real / b as real;
      (q * b + r) as real / b as real;
      (q as real * b as real + r as real) / b as real;
      q as real + part;
    }
    PartOfWhole(r, b);
    FloorIs(a as real / b as real, q);
  }

  lemma PartOfWhole(r: nat, b: nat)
    requires r < b
    ensures var part := r as real / b as real;
            0.0 <= part < 1.0 && (part < 0.5 <==> 2 * r < b) && (part == 0.5 <==> 2 * r == b)
  {
    var part, whole := r as real / b as real, b as real;
    assert part * whole == r as real;
    ScalingKeepsOrder(0.0, part, whole);
    ScalingKeepsOrder(part, 1.0, whole);
    ScalingKeepsOrder(part, 0.5, whole);
    ScalingKeepsOrder(0.5, part, whole);
  }

  lemma ScalingKeepsOrder(x: real, y: real, scale: real)
    requires scale > 0.0
    ensures x < y <==> x * scale < y * scale
  {
    if x < y {
      assert (y - x) * scale > 0.0;
    } else {
      assert (x - y) * scale >= 0.0;
    }
  }

  lemma {:induction false} Pow10Sum(m: nat, n: nat)
    ensures Pow10(m + n) == Pow10(m) * Pow10(n)
  {
    if m > 0 {
      Pow10Sum(m - 1, n);
      assert Pow10(m + n) == 10 * Pow10(m - 1 + n);
    }
  }

  lemma Cancel(c: real, p: real, q: real)
    requires p > 0.0 && q > 0.0
    ensures c / (p * q) * q == c / p
  {
    var x := c / (p * q);
    assert x * (p * q) == c;
    assert (x * q) * p == c;
  }

  lemma ProductAsReal(a: int, b: int)
    ensures (a * b) as real == a as real * b as real
  {
  }

  /** Scaling by a power of ten moves the exponent. */
  lemma ScaledValue(n: Number, places: nat)
    ensures InUnits(n, places) ==
              if n.exponent + places >= 0 then (n.coefficient * Pow10(n.exponent + places)) as real
              else n.coefficient as real / Pow10(-n.exponent - places) as real
  {
    hide Pow10;
    var c, scale := n.coefficient, Pow10(places);
    if n.exponent >= 0 {
      var p := Pow10(n.exponent);
      Pow10Sum(n.exponent, places);
      ProductAsReal(c * p, scale);
      Reassociate(c, p, scale);
    } else if n.exponent + places >= 0 {
      var p, q := Pow10(n.exponent + places), Pow10(-n.exponent);
      Pow10Sum(n.exponent + places, -n.exponent);
      ProductAsReal(p, q);
      ProductAsReal(c, p);
      QuotientTimes(c as real, p as real, q as real);
    } else {
      var p := Pow10(-n.exponent - places);
      Pow10Sum(-n.exponent - places, places);
      ProductAsReal(p, scale);
      Cancel(c as real, p as real, scale as real);
    }
  }

  lemma Reassociate(a: int, b: int, c: int)
    ensures a * b * c == a * (b * c)
  {
  }

  lemma QuotientTimes(c: real, p: real, q: real)
    requires q > 0.0
    ensures c / q * (p * q) == c * p
  {
    var x := c / q;
    assert x * q == c;
    assert x * (p * q) == (x * q) * p;
  }

  lemma NearestOfInteger(k: int)
    ensures Nearest(k as real) == k
  {
  }

  lemma WholeUnits(n: Number)
    requires n.exponent <= 0
    ensures InUnits(n, -n.exponent) == n.coefficient as real
  {
    var c, scale := n.coefficient, Pow10(-n.exponent);
    if n.exponent == 0 {
      assert scale == 1;
    } else {
      assert c as real / scale as real * scale as real == c as real;
    }
  }

  lemma RescaledIsNearest(n: Number, places: nat)
    ensures Rescaled(n, places) == Nearest(InUnits(n, places))
  {
    hide Pow10, Nearest, InUnits, RoundHalfEven;
    ScaledValue(n, places);
    if n.exponent + places >= 0 {
      NearestOfInteger(n.coefficient * Pow10(n.exponent + places));
    } else {
      RoundHalfEvenIsNearest(n.coefficient, Pow10(-n.exponent - places));
    }
  }

  /** Quantizing is rounding the value, half to even, in units of the last place. */
  lemma QuantizeRounds(n: Number, places: nat)
    requires Quantize(n, places).Some?
    ensures var q := Quantize(n, places).value;
            q.Places() == places
            && q.coefficient == Nearest(InUnits(n, places))
            && InUnits(q, places) == q.coefficient as real
  {
    hide Pow10, Nearest, InUnits, Rescaled;
    RescaledIsNearest(n, places);
    WholeUnits(Quantize(n, places).value);
  }

  // ----- the feed's prices ---------------------------------------------------

  lemma CancelScale(x: real, y: real, scale: real)
    requires scale > 0.0 && x * scale == y * scale
    ensures x == y
  {
    if x < y {
      ScalingKeepsOrder(x, y, scale);
    } else if y < x {
      ScalingKeepsOrder(y, x, scale);
    }
  }

  /** Enough places to hold the number change nothing. */
  lemma QuantizeExact(n: Number, places: nat)
    requires n.exponent + places >= 0 && Quantize(n, places).Some?
    ensures Quantize(n, places).value.Value() == n.Value()
  {
    hide Pow10, Number.Value;
    var q := Quantize(n, places).value;
    ScaledValue(n, places);
    WholeUnits(q);
    CancelScale(q.Value(), n.Value(), Pow10(places) as real);
  }

  lemma SameValueSameUnits(a: Number, b: Number, places: nat)
    requires a.Value() == b.Value()
    ensures InUnits(a, places) == InUnits(b, places)
  {
  }

  lemma UnitsKeepOrder(a: Number, b: Number, places: nat)
    ensures a.Value() <= b.Value() <==> InUnits(a, places) <= InUnits(b, places)
  {
    hide Number.Value;
    var x, y, scale := a.Value(), b.Value(), Pow10(places) as real;
    assert InUnits(a, places) == x * scale && InUnits(b, places) == y * scale;
    ScalingKeepsOrder(y, x, scale);
  }

  /** Whatever precision the feed wrote a price with, its form is the value
      rounded half-even to the eighth decimal. */
  lemma FeedPriceRounds(n: Number)
    requires FeedPrice(n).Some?
    ensures InUnits(FeedPrice(n).value, MAX_PRICE_DECIMALS) == Nearest(InUnits(n, MAX_PRICE_DECIMALS)) as real
    ensures n.Places() <= MAX_PRICE_DECIMALS ==> FeedPrice(n).value.Value() == n.Value()
  {
    hide InUnits, Nearest, Number.Value;
    if n.Places() <= MAX_PRICE_DECIMALS {
      QuantizeExact(n, Max(0, n.Places()));
      SameValueSameUnits(FeedPrice(n).value, n, MAX_PRICE_DECIMALS);
      ScaledValue(n, MAX_PRICE_DECIMALS);
      NearestOfInteger(n.coefficient * Pow10(n.exponent + MAX_PRICE_DECIMALS));
    } else {
      assert FeedPrice(n) == Quantize(n, MAX_PRICE_DECIMALS);
      QuantizeRounds(n, MAX_PRICE_DECIMALS);
    }
  }

  /** It is written with as many places as the feed wrote, between none and eight. */
  lemma FeedPricePlaces(n: Number)
    requires FeedPrice(n).Some?
    ensures FeedPrice(n).value.Places() == if n.Places() < 0 then 0 else if n.Places() > 8 then 8 else n.Places()
  {
  }

  /** The error is at most half a unit of the eighth decimal. */
  lemma FeedPriceError(n: Number)
    requires FeedPrice(n).Some?
    ensures var error := FeedPrice(n).value.Value() - n.Value(); -0.000000005 <= error <= 0.000000005
  {
    hide FeedPrice, Number.Value, Nearest, InUnits;
    FeedPriceRounds(n);
    EighthDecimal(n);
    EighthDecimal(FeedPrice(n).value);
    NearestBound(InUnits(n, MAX_PRICE_DECIMALS));
  }

  lemma FeedPriceIdempotent(n: Number)
    requires FeedPrice(n).Some?
    ensures FeedPrice(FeedPrice(n).value) == FeedPrice(n)
  {
    var p := FeedPrice(n).value;
    assert p.exponent + Max(0, Min(p.Places(), MAX_PRICE_DECIMALS)) == 0;
    assert Pow10(0) == 1;
  }

  /** Order survives, even between prices written with different precisions. */
  lemma FeedPriceMonotone(a: Number, b: Number)
    requires a.Value() <= b.Value() && FeedPrice(a).Some? && FeedPrice(b).Some?
    ensures FeedPrice(a).value.Value() <= FeedPrice(b).value.Value()
  {
    hide InUnits, Number.Value, Nearest, FeedPrice;
    var p, q := FeedPrice(a).value, FeedPrice(b).value;
    FeedPriceRounds(a);
    FeedPriceRounds(b);
    UnitsKeepOrder(a, b, MAX_PRICE_DECIMALS);
    NearestMonotone(InUnits(a, MAX_PRICE_DECIMALS), InUnits(b, MAX_PRICE_DECIMALS));
    UnitsKeepOrder(p, q, MAX_PRICE_DECIMALS);
  }

  /** A positive price becomes zero exactly when it is at most half a unit of the
      eighth decimal. Such a candle is refused later, by the payload schema. */
  lemma FeedPricePositive(n: Number)
    requires FeedPrice(n).Some? && n.Value() > 0.0
    ensures FeedPrice(n).value.Value() >= 0.0
    ensures FeedPrice(n).value.Value() > 0.0 <==> n.Value() > 0.000000005
  {
    hide FeedPrice, Number.Value, Nearest, InUnits;
    FeedPriceRounds(n);
    EighthDecimal(n);
    EighthDecimal(FeedPrice(n).value);
    PositiveUnits(n.Value() * 100_000_000.0);
  }

  lemma EighthDecimal(n: Number)
    ensures InUnits(n, MAX_PRICE_DECIMALS) == n.Value() * 100_000_000.0
  {
    assert Pow10(MAX_PRICE_DECIMALS) == 100_000_000;
  }

  lemma PositiveUnits(units: real)
    requires units > 0.0
    ensures Nearest(units) >= 0 && (Nearest(units) >= 1 <==> units > 0.5)
  {
  }

  /** For a coefficient the decimal context can hold, the conversion fails
      exactly on values too large for it. */
  lemma FeedPriceFails(n: Number)
    requires 0 <= n.coefficient < Pow10(PRECISION)
    ensures FeedPrice(n).None? <==> n.Value() >= Pow10(PRECISION) as real
    ensures Pow10(PRECISION) == 10_000_000_000_000_000_000_000_000_000
  {
    hide Pow10, Nearest;
    ContextLimit();
    var places := Max(0, Min(n.Places(), MAX_PRICE_DECIMALS));
    if n.exponent + places < 0 {
      RoundingShrinks(n.coefficient, -n.exponent - places);
      FractionIsSmaller(n.coefficient, -n.exponent);
    } else if n.exponent < 0 {
      PowZero();
      FractionIsSmaller(n.coefficient, -n.exponent);
    }
  }

  lemma ContextLimit()
    ensures Pow10(PRECISION) == 10_000_000_000_000_000_000_000_000_000
  {
    assert Pow10(7) == 10_000_000;
    Pow10Sum(7, 7);
    Pow10Sum(14, 14);
  }

  lemma PowZero()
    ensures Pow10(0) == 1
  {
  }

  lemma FractionIsSmaller(c: nat, e: nat)
    ensures c as real / Pow10(e) as real <= c as real
  {
    var x, scale := c as real / Pow10(e) as real, Pow10(e) as real;
    assert x * scale == c as real && x >= 0.0;
    assert x * (scale - 1.0) >= 0.0;
  }

  lemma RoundingShrinks(c: nat, e: nat)
    requires e >= 1
    ensures 0 <= RoundHalfEven(c, Pow10(e)) <= c
  {
    assert Pow10(e) == 10 * Pow10(e - 1) >= 10;
    QuotientIsSmall(c, Pow10(e));
  }

  lemma QuotientIsSmall(c: nat, b: nat)
    requires b >= 10
    ensures 0 <= RoundHalfEven(c, b) <= c
  {
    var q, r := c / b, c % b;
    assert c == q * b + r;
    assert q >= 0;
    assert q * (b - 10) >= 0;
    assert c >= 10 * q + r;
  }

  // ----- candles -------------------------------------------------------------

  /** The candle relationships over values. */
  predicate Ordered(open: real, high: real, low: real, close: real) {
    high >= low && high >= open && high >= close && low <= open && low <= close
  }

  predicate OrderedPrices(open: Number, high: Number, low: Number, close: Number) {
    Ordered(open.Value(), high.Value(), low.Value(), close.Value())
  }

  /** A candle whose raw prices are in order passes the check after conversion. */
  lemma ConversionKeepsCandleOrder(open: Number, high: Number, low: Number, close: Number)
    requires OrderedPrices(open, high, low, close)
    requires FeedPrice(open).Some? && FeedPrice(high).Some? && FeedPrice(low).Some? && FeedPrice(close).Some?
    ensures OrderedPrices(FeedPrice(open).value, FeedPrice(high).value, FeedPrice(low).value, FeedPrice(close).value)
  {
    FeedPriceMonotone(low, high);
    FeedPriceMonotone(open, high);
    FeedPriceMonotone(close, high);
    FeedPriceMonotone(low, open);
    FeedPriceMonotone(low, close);
  }

  /** At one stated precision the terminal's form keeps order too, and rounds to
      that precision (at most 8 places, at least none). */
  lemma TerminalPriceMonotone(a: Number, b: Number, digits: int)
    requires a.Value() <= b.Value()
    requires TerminalPrice(a, Some(digits)).Some? && TerminalPrice(b, Some(digits)).Some?
    ensures var p, q := TerminalPrice(a, Some(digits)).value, TerminalPrice(b, Some(digits)).value;
            p.Value() <= q.Value() && p.Places() == q.Places() == Max(0, Min(digits, MAX_PRICE_DECIMALS))
  {
    hide InUnits, Number.Value, Nearest, Quantize;
    var places := Max(0, Min(digits, MAX_PRICE_DECIMALS));
    var p, q := Quantize(a, places).value, Quantize(b, places).value;
    QuantizeRounds(a, places);
    QuantizeRounds(b, places);
    UnitsKeepOrder(a, b, places);
    NearestMonotone(InUnits(a, places), InUnits(b, places));
    UnitsKeepOrder(p, q, places);
  }

  /** The terminal's form is the value rounded half-even to the stated precision, or
      to the number's own where none is stated, held between none and eight places. */
  lemma TerminalPriceRounds(n: Number, digits: Option<int>)
    requires TerminalPrice(n, digits).Some?
    ensures var places := if digits.Some? then digits.value else n.Places();
            var held := if places < 0 then 0 else if places > 8 then 8 else places;
            var price := TerminalPrice(n, digits).value;
            price.Places() == held && InUnits(price, held) == Nearest(InUnits(n, held)) as real
  {
    hide InUnits, Nearest, Quantize;
    QuantizeRounds(n, Max(0, Min(if digits.Some? then digits.value else n.Places(), MAX_PRICE_DECIMALS)));
  }
}
