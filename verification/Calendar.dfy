/** The civil calendar behind every timestamp, and the fixed-width UTC text that
    carries it. Seconds are counted from 1970-01-01T00:00:00Z. */
module Calendar {
  datatype Moment = Moment(year: nat, month: nat, day: nat, hour: nat, minute: nat, second: nat) {
    predicate Valid() {
      && 1 <= year <= MAX_YEAR
      && 1 <= month <= 12
      && 1 <= day <= DaysInMonth(year, month)
      && hour < 24 && minute < 60 && second < 60
    }

    function SecondOfDay(): nat {
      3600 * hour + 60 * minute + second
    }
  }

  const MAX_YEAR: nat := 9999
  const SECONDS_PER_DAY: nat := 86400

  /** Days from the first day of year 1 to 1970-01-01. */
  const EPOCH_DAY: nat := DaysBeforeYear(1970)

  const FIRST_SECOND: int := 0 - EPOCH_DAY * SECONDS_PER_DAY
  const PAST_LAST_SECOND: int := (DaysBeforeYear(MAX_YEAR + 1) - EPOCH_DAY) * SECONDS_PER_DAY

  predicate IsLeap(year: nat) {
    year % 4 == 0 && (year % 100 != 0 || year % 400 == 0)
  }

  function DaysInYear(year: nat): nat {
    if IsLeap(year) then 366 else 365
  }

  function DaysInMonth(year: nat, month: nat): (days: nat)
    requires 1 <= month <= 12
    ensures 28 <= days <= 31
  {
    if month == 2 then (if IsLeap(year) then 29 else 28)
    else if month in {4, 6, 9, 11} then 30 else 31
  }

  /** Leap days of the years before this one included. */
  function DaysBeforeYear(year: nat): nat
    requires year >= 1
  {
    var y := year - 1;
    365 * y + y / 4 - y / 100 + y / 400
  }

  function DaysBeforeMonth(year: nat, month: nat): nat
    requires 1 <= month <= 13
  {
    if month == 1 then 0 else DaysBeforeMonth(year, month - 1) + DaysInMonth(year, month - 1)
  }

  /** Days since the first day of year 1. */
  function DayNumber(year: nat, month: nat, day: nat): nat
    requires year >= 1 && 1 <= month <= 12 && day >= 1
  {
    DaysBeforeYear(year) + DaysBeforeMonth(year, month) + day - 1
  }

  function ToSeconds(m: Moment): int
    requires m.Valid()
  {
    (DayNumber(m.year, m.month, m.day) - EPOCH_DAY) * SECONDS_PER_DAY + m.SecondOfDay()
  }

  lemma YearStep(year: nat)
    requires year >= 1
    ensures DaysBeforeYear(year + 1) == DaysBeforeYear(year) + DaysInYear(year)
  {
    QuotientStep(year, 4);
    QuotientStep(year, 100);
    QuotientStep(year, 400);
    Divisible(year);
    assert DaysBeforeYear(year + 1) == 365 * year + year / 4 - year / 100 + year / 400;
  }

  lemma Divisible(year: nat)
    ensures year % 400 == 0 ==> year % 100 == 0
    ensures year % 100 == 0 ==> year % 4 == 0
  {
    if year % 400 == 0 {
      var j := 4 * (year / 400);
      assert year == 100 * j;
    }
    if year % 100 == 0 {
      var j := 25 * (year / 100);
      assert year == 4 * j;
    }
  }

  lemma QuotientStep(y: nat, n: nat)
    requires y >= 1 && n in {4, 100, 400}
    ensures y / n == (y - 1) / n + if y % n == 0 then 1 else 0
  {
  }

  lemma MonthsFillYear(year: nat)
    ensures DaysBeforeMonth(year, 13) == DaysInYear(year)
  {
    var february := DaysInMonth(year, 2);
    assert DaysBeforeMonth(year, 2) == 31;
    assert DaysBeforeMonth(year, 3) == 31 + february;
    assert DaysBeforeMonth(year, 4) == 62 + february;
    assert DaysBeforeMonth(year, 5) == 92 + february;
    assert DaysBeforeMonth(year, 6) == 123 + february;
    assert DaysBeforeMonth(year, 7) == 153 + february;
    assert DaysBeforeMonth(year, 8) == 184 + february;
    assert DaysBeforeMonth(year, 9) == 215 + february;
    assert DaysBeforeMonth(year, 10) == 245 + february;
    assert DaysBeforeMonth(year, 11) == 276 + february;
    assert DaysBeforeMonth(year, 12) == 306 + february;
  }

  lemma {:induction false} YearsAscend(a: nat, b: nat)
    requires 1 <= a <= b
    ensures DaysBeforeYear(a) <= DaysBeforeYear(b)
    decreases b - a
  {
    if a < b {
      YearStep(a);
      YearsAscend(a + 1, b);
    }
  }

  lemma {:induction false} MonthsAscend(year: nat, a: nat, b: nat)
    requires 1 <= a <= b <= 13
    ensures DaysBeforeMonth(year, a) <= DaysBeforeMonth(year, b)
    decreases b - a
  {
    if a < b {
      MonthsAscend(year, a + 1, b);
    }
  }

  /** A valid date lies inside its month, its month inside its year. */
  lemma DayInside(year: nat, month: nat, day: nat)
    requires year >= 1 && 1 <= month <= 12 && 1 <= day <= DaysInMonth(year, month)
    ensures DaysBeforeYear(year) <= DayNumber(year, month, day) < DaysBeforeYear(year + 1)
    ensures DayNumber(year, month, day) < DaysBeforeYear(year) + DaysBeforeMonth(year, month + 1)
  {
    YearStep(year);
    MonthsFillYear(year);
    MonthsAscend(year, month + 1, 13);
  }

  /** Earlier in (year, month, day) is earlier in days. */
  lemma DateOrder(y: nat, m: nat, d: nat, y': nat, m': nat, d': nat)
    requires y >= 1 && 1 <= m <= 12 && 1 <= d <= DaysInMonth(y, m)
    requires y' >= 1 && 1 <= m' <= 12 && 1 <= d' <= DaysInMonth(y', m')
    requires y < y' || (y == y' && (m < m' || (m == m' && d < d')))
    ensures DayNumber(y, m, d) < DayNumber(y', m', d')
  {
    DayInside(y, m, d);
    DayInside(y', m', d');
    if y < y' {
      YearsAscend(y + 1, y');
    } else if m < m' {
      MonthsAscend(y, m + 1, m');
    }
  }

  // ----- from seconds back to the civil moment --------------------------------

  function YearOf(day: nat, from: nat): (year: nat)
    requires from >= 1 && DaysBeforeYear(from) <= day
    ensures year >= 1 && DaysBeforeYear(year) <= day < DaysBeforeYear(year + 1)
    decreases day - DaysBeforeYear(from)
  {
    YearStep(from);
    if day < DaysBeforeYear(from + 1) then from else YearOf(day, from + 1)
  }

  function MonthOf(year: nat, dayOfYear: nat, from: nat): (month: nat)
    requires 1 <= from <= 12 && DaysBeforeMonth(year, from) <= dayOfYear < DaysBeforeMonth(year, 13)
    ensures 1 <= month <= 12
    ensures DaysBeforeMonth(year, month) <= dayOfYear < DaysBeforeMonth(year, month + 1)
    decreases 13 - from
  {
    if dayOfYear < DaysBeforeMonth(year, from + 1) then from else MonthOf(year, dayOfYear, from + 1)
  }

  /** Seconds a four-digit year can carry. */
  predicate InRange(seconds: int) {
    FIRST_SECOND <= seconds < PAST_LAST_SECOND
  }

  /** Midnight of the civil date with this day number. */
  function DateOf(day: nat): (m: Moment)
    requires day < DaysBeforeYear(MAX_YEAR + 1)
    ensures m.Valid() && m.SecondOfDay() == 0 && DayNumber(m.year, m.month, m.day) == day
  {
    var year := YearOf(day, 1);
    MonthsFillYear(year);
    YearStep(year);
    var month := MonthOf(year, day - DaysBeforeYear(year), 1);
    assert year <= MAX_YEAR by {
      if year > MAX_YEAR {
        YearsAscend(MAX_YEAR + 1, year);
      }
    }
    Moment(year, month, day - DaysBeforeYear(year) - DaysBeforeMonth(year, month) + 1, 0, 0, 0)
  }

  lemma ClockFields(rest: nat)
    requires rest < SECONDS_PER_DAY
    ensures rest / 3600 < 24
    ensures 3600 * (rest / 3600) + 60 * (rest / 60 % 60) + rest % 60 == rest
  {
  }

  /** The UTC moment of a second, as `datetime.fromtimestamp` gives it. */
  function FromSeconds(seconds: int): (m: Moment)
    requires InRange(seconds)
    ensures m.Valid() && ToSeconds(m) == seconds
  {
    hide DayNumber, DaysBeforeYear, DaysInMonth;
    var sinceFirst := seconds - FIRST_SECOND;
    var rest := sinceFirst % SECONDS_PER_DAY;
    ClockFields(rest);
    DateOf(sinceFirst / SECONDS_PER_DAY).(hour := rest / 3600, minute := rest / 60 % 60, second := rest % 60)
  }

  /** Field by field, largest first. */
  predicate Before(a: Moment, b: Moment) {
    a.year < b.year || (a.year == b.year &&
      (a.month < b.month || (a.month == b.month &&
        (a.day < b.day || (a.day == b.day && a.SecondOfDay() < b.SecondOfDay())))))
  }

  /** The calendar is strictly monotone: fields compare as the instants do. */
  lemma CalendarMonotone(a: Moment, b: Moment)
    requires a.Valid() && b.Valid()
    ensures Before(a, b) <==> ToSeconds(a) < ToSeconds(b)
    ensures ToSeconds(a) == ToSeconds(b) ==> a == b
  {
    hide ToSeconds, DaysInMonth, Moment.SecondOfDay;
    if a.year == b.year && a.month == b.month && a.day == b.day {
      SameDate(a, b);
    } else if DateBefore(a, b) {
      EarlierDate(a, b);
    } else {
      EarlierDate(b, a);
    }
  }

  predicate DateBefore(a: Moment, b: Moment) {
    a.year < b.year || (a.year == b.year && (a.month < b.month || (a.month == b.month && a.day < b.day)))
  }

  lemma EarlierDate(a: Moment, b: Moment)
    requires a.Valid() && b.Valid() && DateBefore(a, b)
    ensures ToSeconds(a) < ToSeconds(b)
  {
    hide DayNumber, DaysInMonth;
    DateOrder(a.year, a.month, a.day, b.year, b.month, b.day);
  }

  lemma SameDate(a: Moment, b: Moment)
    requires a.Valid() && b.Valid() && a.year == b.year && a.month == b.month && a.day == b.day
    ensures a.SecondOfDay() < b.SecondOfDay() <==> ToSeconds(a) < ToSeconds(b)
    ensures ToSeconds(a) == ToSeconds(b) ==> a == b
  {
    hide DayNumber, DaysInMonth;
  }

  lemma FromSecondsInverts(m: Moment)
    requires m.Valid()
    ensures InRange(ToSeconds(m)) && FromSeconds(ToSeconds(m)) == m
  {
    DayInside(m.year, m.month, m.day);
    YearsAscend(m.year + 1, MAX_YEAR + 1);
    CalendarMonotone(FromSeconds(ToSeconds(m)), m);
  }

  /** Seconds count from the first of 1970. */
  lemma EpochIsZero()
    ensures Moment(1970, 1, 1, 0, 0, 0).Valid() && ToSeconds(Moment(1970, 1, 1, 0, 0, 0)) == 0
  {
    hide DaysBeforeYear;
    ZeroAtEpoch(Moment(1970, 1, 1, 0, 0, 0));
  }

  lemma ZeroAtEpoch(m: Moment)
    requires m.Valid() && m.year == 1970 && m.month == 1 && m.day == 1 && m.SecondOfDay() == 0
    ensures ToSeconds(m) == 0
  {
    hide DaysBeforeYear;
  }

  /** Within a date, seconds count from its midnight. */
  lemma SecondsOfDay(m: Moment)
    requires m.Valid()
    ensures var midnight := m.(hour := 0, minute := 0, second := 0);
            midnight.Valid() && ToSeconds(m) == ToSeconds(midnight) + m.hour * 3600 + m.minute * 60 + m.second
  {
  }

  /** A day is 86400 seconds; the last of them is followed by midnight of the next
      date: the next day of the month, else the first of the next month, else of the
      next year, leap years being those divisible by four but not by a hundred, or by
      four hundred. */
  lemma NextDate(m: Moment)
    requires m.Valid() && m.SecondOfDay() == 0
    ensures var leap := m.year % 4 == 0 && (m.year % 100 != 0 || m.year % 400 == 0);
            var length := [31, if leap then 29 else 28, 31, 30, 31, 30, 31, 31, 30, 31, 30, 31][m.month - 1];
            var next := if m.day < length then m.(day := m.day + 1)
                        else if m.month < 12 then m.(month := m.month + 1, day := 1)
                        else m.(year := m.year + 1, month := 1, day := 1);
            next.year <= MAX_YEAR ==> next.Valid() && ToSeconds(next) == ToSeconds(m) + 86_400
  {
    hide DaysBeforeYear, DaysBeforeMonth, DaysInMonth, DayNumber;
    MonthLength(m.year, m.month);
    if m.day < DaysInMonth(m.year, m.month) {
      NextInMonth(m);
    } else if m.month < 12 {
      NextMonth(m);
    } else if m.year < MAX_YEAR {
      NextYear(m);
    }
  }

  lemma MonthLength(year: nat, month: nat)
    requires 1 <= month <= 12
    ensures var leap := year % 4 == 0 && (year % 100 != 0 || year % 400 == 0);
            DaysInMonth(year, month) == [31, if leap then 29 else 28, 31, 30, 31, 30, 31, 31, 30, 31, 30, 31][month - 1]
  {
  }

  lemma NextInMonth(m: Moment)
    requires m.Valid() && m.day < DaysInMonth(m.year, m.month)
    ensures var next := m.(day := m.day + 1); next.Valid() && ToSeconds(next) == ToSeconds(m) + 86_400
  {
    hide DaysBeforeYear, DaysBeforeMonth, DaysInMonth;
  }

  lemma NextMonth(m: Moment)
    requires m.Valid() && m.day == DaysInMonth(m.year, m.month) && m.month < 12
    ensures var next := m.(month := m.month + 1, day := 1); next.Valid() && ToSeconds(next) == ToSeconds(m) + 86_400
  {
    hide DaysBeforeYear, DaysInMonth;
  }

  lemma NextYear(m: Moment)
    requires m.Valid() && m.month == 12 && m.day == 31 && m.year < MAX_YEAR
    ensures var next := m.(year := m.year + 1, month := 1, day := 1); next.Valid() && ToSeconds(next) == ToSeconds(m) + 86_400
  {
    hide DaysBeforeYear;
    YearStep(m.year);
    MonthsFillYear(m.year);
    FirstOfYear(m.year + 1);
    DecemberEnds(m.year);
  }

  lemma FirstOfYear(year: nat)
    ensures DaysBeforeMonth(year, 1) == 0
  {
  }

  lemma DecemberEnds(year: nat)
    ensures DaysBeforeMonth(year, 13) == DaysBeforeMonth(year, 12) + 31
  {
  }
}
