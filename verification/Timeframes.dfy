/** Chart timeframes and their nominal durations. */
module Timeframes {
  import opened Numerals
  import opened Options

  datatype Timeframe = M1 | M5 | M15 | M30 | H1 | H4 | D1 | W1 | MN1

  /** Clock readings are whole microseconds since 1970-01-01T00:00:00Z. */
  const MICROS: int := 1_000_000

  /** Bar duration in seconds, or nothing for a calendar-based timeframe. */
  function Duration(timeframe: Timeframe): (seconds: Option<nat>)
    ensures seconds.Some? ==> seconds.value >= 60 && seconds.value % 60 == 0
  {
    match timeframe
    case M1 => Some(60)
    case M5 => Some(300)
    case M15 => Some(900)
    case M30 => Some(1800)
    case H1 => Some(3600)
    case H4 => Some(14400)
    case D1 => Some(86400)
    case W1 => Some(604800)
    case MN1 => None
  }

  /** A timeframe as it is written. */
  function Name(timeframe: Timeframe): string {
    match timeframe
    case M1 => "M1"
    case M5 => "M5"
    case M15 => "M15"
    case M30 => "M30"
    case H1 => "H1"
    case H4 => "H4"
    case D1 => "D1"
    case W1 => "W1"
    case MN1 => "MN1"
  }

  /** The seconds of a unit letter. */
  function Unit(letter: char): nat {
    if letter == 'M' then 60 else if letter == 'H' then 3600 else if letter == 'D' then 86_400 else 604_800
  }

  /** The duration is what the name says: a unit, and how many; months have none. */
  lemma NameSaysDuration(timeframe: Timeframe)
    ensures Duration(timeframe) ==
              if AllDigits(Name(timeframe)[1..]) then Some(NumberOf(Name(timeframe)[1..]) * Unit(Name(timeframe)[0])) else None
  {
    var count := Name(timeframe)[1..];
    match timeframe
    case M15 => TwoDigits("15");
    case M30 => TwoDigits("30");
    case MN1 => assert !IsDigit(count[0]);
    case _ => OneDigit(count);
  }

  lemma OneDigit(digits: string)
    requires AllDigits(digits) && |digits| == 1
    ensures NumberOf(digits) == DigitValue(digits[0])
  {
    assert digits[..0] == "";
  }

  lemma TwoDigits(digits: string)
    requires AllDigits(digits) && |digits| == 2
    ensures NumberOf(digits) == 10 * DigitValue(digits[0]) + DigitValue(digits[1])
  {
    OneDigit(digits[..1]);
  }
}
