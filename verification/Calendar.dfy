/** The proleptic Gregorian calendar (ISO 8601) with the normalisation of Go's time.Date, in
    exact arithmetic. Instants are nanoseconds since Go's zero time, 1 January of year 1, 00:00 UTC; a zone
    is a fixed offset in minutes. A month is named by its index 12 * year + month - 1, so that
    carrying months into years is ordinary arithmetic. */
module Calendar {
  const SECOND: int := 1_000_000_000
  const MINUTE: int := 60 * SECOND
  const HOUR: int := 60 * MINUTE
  const DAY: int := 24 * HOUR

  predicate IsLeap(year: int) {
    year % 4 == 0 && (year % 100 != 0 || year % 400 == 0)
  }

  function DaysOfMonth(year: int, month: int): int
    requires 0 <= month < 12
  {
    if month == 1 then (if IsLeap(year) then 29 else 28)
    else [31, 28, 31, 30, 31, 30, 31, 31, 30, 31, 30, 31][month]
  }

  function DaysIn(index: int): int {
    DaysOfMonth(index / 12, index % 12)
  }

  lemma MonthLength(index: int)
    ensures 28 <= DaysIn(index) <= 31
  {
  }

  const EPOCH_MONTH: int := 12

  /** The day number of the first of the month, counting from 1 January of year 1 as day 0: months
      tile the day line. */
  function MonthStart(index: int): int
    decreases if index < EPOCH_MONTH then EPOCH_MONTH - index else index - EPOCH_MONTH
  {
    if index == EPOCH_MONTH then 0
    else if EPOCH_MONTH < index then MonthStart(index - 1) + DaysIn(index - 1)
    else MonthStart(index + 1) - DaysIn(index)
  }

  lemma NextMonth(index: int)
    ensures MonthStart(index + 1) == MonthStart(index) + DaysIn(index)
  {
  }

  /** The usual closed form for 1 January. */
  function YearStart(year: int): int {
    365 * (year - 1) + (year - 1) / 4 - (year - 1) / 100 + (year - 1) / 400
  }

  lemma QuotientStep(y: int, k: int)
    requires k in {4, 100, 400}
    ensures (y + 1) / k == y / k + if (y + 1) % k == 0 then 1 else 0
  {
  }

  lemma YearLength(year: int)
    ensures YearStart(year + 1) == YearStart(year) + 365 + if IsLeap(year) then 1 else 0
  {
    QuotientStep(year - 1, 4);
    QuotientStep(year - 1, 100);
    QuotientStep(year - 1, 400);
  }

  lemma DaysInYear(year: int, month: int)
    requires 0 <= month < 12
    ensures DaysIn(12 * year + month) == DaysOfMonth(year, month)
  {
    assert (12 * year + month) / 12 == year && (12 * year + month) % 12 == month;
  }

  lemma {:induction false} TwelveMonths(year: int, month: int)
    requires 0 <= month < 12
    ensures MonthStart(12 * year + month + 1)
         == MonthStart(12 * year)
            + [31, 59, 90, 120, 151, 181, 212, 243, 273, 304, 334, 365][month]
            + if 1 <= month && IsLeap(year) then 1 else 0
    decreases month
  {
    DaysInYear(year, month);
    NextMonth(12 * year + month);
    if 0 < month {
      TwelveMonths(year, month - 1);
    }
  }

  /** Counting months one by one agrees with the closed form of Go's calendar. */
  lemma {:induction false} ClosedForm(year: int)
    ensures MonthStart(12 * year) == YearStart(year)
    decreases if year < 1 then 1 - year else year - 1
  {
    if 1 < year {
      ClosedForm(year - 1);
      TwelveMonths(year - 1, 11);
      YearLength(year - 1);
    } else if year < 1 {
      ClosedForm(year + 1);
      TwelveMonths(year, 11);
      YearLength(year);
    }
  }

  /** Short months are never adjacent. */
  lemma ShortMonthThenLong(index: int)
    requires DaysIn(index) < 31
    ensures DaysIn(index + 1) == 31
  {
    assert index % 12 != 11;
    assert (index + 1) % 12 == index % 12 + 1;
  }

  lemma {:induction false} MonthsAscend(a: int, b: int)
    requires a <= b
    ensures MonthStart(a) + 28 * (b - a) <= MonthStart(b)
    decreases b - a
  {
    if a < b {
      NextMonth(b - 1);
      MonthLength(b - 1);
      MonthsAscend(a, b - 1);
    }
  }

  /** Walks month by month to the one that holds the day. */
  function FindMonth(day: int, index: int): (r: int)
    ensures MonthStart(r) <= day < MonthStart(r) + DaysIn(r)
    decreases if day < MonthStart(index) then MonthStart(index) - day + 31 else 0,
              if day < MonthStart(index) then 0 else day - MonthStart(index)
  {
    NextMonth(index);
    MonthLength(index);
    NextMonth(index - 1);
    MonthLength(index - 1);
    if day < MonthStart(index) then FindMonth(day, index - 1)
    else if MonthStart(index) + DaysIn(index) <= day then FindMonth(day, index + 1)
    else index
  }

  /** The month a day falls in. */
  function MonthOf(day: int): (r: int)
    ensures MonthStart(r) <= day < MonthStart(r) + DaysIn(r)
  {
    FindMonth(day, EPOCH_MONTH)
  }

  function DayOf(day: int): int {
    day - MonthStart(MonthOf(day)) + 1
  }

  /** The civil date of a day is the only month and day of month that name it. */
  lemma CivilUnique(day: int, index: int, dayOfMonth: int)
    requires day == MonthStart(index) + dayOfMonth - 1
    requires 1 <= dayOfMonth <= DaysIn(index)
    ensures MonthOf(day) == index && DayOf(day) == dayOfMonth
  {
    var m := MonthOf(day);
    NextMonth(m);
    NextMonth(index);
    if m < index {
      MonthsAscend(m + 1, index);
    } else if index < m {
      MonthsAscend(index + 1, m);
    }
  }

  lemma DayOfRange(day: int)
    ensures 1 <= DayOf(day) <= DaysIn(MonthOf(day)) <= 31
  {
    MonthLength(MonthOf(day));
  }

  // ----- instants -----

  /** The local calendar day of an instant. */
  function LocalDay(offset: int, t: int): int {
    (t + offset * MINUTE) / DAY
  }

  /** Nanoseconds since local midnight. */
  function Clock(offset: int, t: int): int {
    (t + offset * MINUTE) % DAY
  }

  /** time.Date for a local day and a clock reading; out-of-range parts carry over. */
  function Instant(offset: int, day: int, clock: int): int {
    day * DAY + clock - offset * MINUTE
  }

  /** time.Date's year, month and day, normalised: any day number counts on from the month's first. */
  function Date(index: int, dayOfMonth: int): int {
    MonthStart(index) + dayOfMonth - 1
  }

  /** Time.Truncate works on absolute time, whatever the zone. */
  function Truncate(t: int, unit: int): int
    requires 0 < unit
  {
    t - t % unit
  }

  lemma InstantParts(offset: int, day: int, clock: int)
    requires 0 <= clock < DAY
    ensures LocalDay(offset, Instant(offset, day, clock)) == day
    ensures Clock(offset, Instant(offset, day, clock)) == clock
  {
  }

  /** An instant is its local day and clock reading. */
  lemma InstantOfParts(offset: int, t: int)
    ensures t == Instant(offset, LocalDay(offset, t), Clock(offset, t)) && 0 <= Clock(offset, t) < DAY
  {
  }

  lemma LocalDayMonotone(offset: int, t1: int, t2: int)
    requires t1 <= t2
    ensures LocalDay(offset, t1) <= LocalDay(offset, t2)
  {
  }

  lemma TruncateMonotone(t1: int, t2: int)
    requires t1 <= t2
    ensures Truncate(t1, DAY) <= Truncate(t2, DAY)
    ensures Truncate(t1, HOUR) <= Truncate(t2, HOUR)
  {
    assert t1 / DAY <= t2 / DAY && t1 / HOUR <= t2 / HOUR;
    assert Truncate(t1, DAY) == t1 / DAY * DAY && Truncate(t2, DAY) == t2 / DAY * DAY;
    assert Truncate(t1, HOUR) == t1 / HOUR * HOUR && Truncate(t2, HOUR) == t2 / HOUR * HOUR;
  }

  lemma InstantOrder(offset: int, day1: int, day2: int, clock: int)
    ensures Instant(offset, day1, clock) <= Instant(offset, day2, clock) <==> day1 <= day2
  {
  }

  lemma LaterDay(offset: int, day1: int, clock1: int, day2: int, clock2: int)
    requires day1 < day2 && 0 <= clock1 < DAY && 0 <= clock2
    ensures Instant(offset, day1, clock1) < Instant(offset, day2, clock2)
  {
  }

  /** Dropping the part below a second does not change which multiple of a longer unit is reached. */
  lemma WholeSecondsQuotient(x: int, unit: int)
    requires unit in {3600, 86400}
    ensures (x - x % SECOND) / (unit * SECOND) == x / (unit * SECOND)
  {
    var s := x / SECOND;
    assert x == s * SECOND + x % SECOND;
    assert s == (s / unit) * unit + s % unit;
  }

  /** Whole seconds decide the hour and, with whole-minute offsets, the local day. */
  lemma WholeSeconds(offset: int, t: int)
    ensures Truncate(t, SECOND) <= t < Truncate(t, SECOND) + SECOND
    ensures LocalDay(offset, Truncate(t, SECOND)) == LocalDay(offset, t)
    ensures Truncate(Truncate(t, SECOND), HOUR) == Truncate(t, HOUR)
    ensures Truncate(Truncate(t, SECOND), DAY) == Truncate(t, DAY)
  {
    var whole := Truncate(t, SECOND);
    assert Truncate(whole, HOUR) == Truncate(t, HOUR) by { WholeSecondsQuotient(t, 3600); }
    assert Truncate(whole, DAY) == Truncate(t, DAY) by { WholeSecondsQuotient(t, 86400); }
    WholeSecondsLocalDay(offset, t);
  }

  lemma WholeSecondsLocalDay(offset: int, t: int)
    ensures LocalDay(offset, Truncate(t, SECOND)) == LocalDay(offset, t)
  {
    assert (t + offset * MINUTE) % SECOND == t % SECOND;
    WholeSecondsQuotient(t + offset * MINUTE, 86400);
  }
}
